/** Read requests and responses on the wire: internal/protocolruntime/modbus.go and rtu_tcp.go.

    The partner of the code is a conforming device (Modbus Application Protocol V1.1b3, sections 6.1 to 6.4; Modbus
    Messaging on TCP/IP V1.0b, section 3.1.3): what it takes a request to ask for, and the bytes it answers with. */
module ModbusWire {
  import opened Common
  import opened ReadPlan
  import RtuCrc

  datatype WireError =
    | BadFunction | OutsideLimits
    | ShortRead | WrongTransaction | WrongProtocol | BadLength | WrongUnit | WrongFunction | TooLarge
    | DeviceException(code: byte) | Corrupt
    | WrongByteCount | WrongSize

  /** What a request asks for. */
  datatype Query = Query(transaction: nat, unit: byte, functionCode: int, start: int, quantity: int)

  /** The blocks the protocol allows. */
  predicate Readable(b: Block) {
    && 1 <= b.functionCode <= 4
    && 0 <= b.startAddress && 0 < b.quantity <= Limit(b.functionCode) && BlockEnd(b) <= 65536
  }

  // ---------- a conforming device ----------

  /** The bits and the words (high byte, low byte) of a device, by function code and address. */
  datatype Memory = Memory(bits: (int, int) -> bool, words: (int, int) -> (byte, byte))

  /** A device's reading of a request on Modbus TCP. */
  function UnderstoodAs(request: seq<byte>): (q: Option<Query>) {
    if |request| == 12 && Be16(request[2], request[3]) == 0 && Be16(request[4], request[5]) == 6 then
      Some(Query(Be16(request[0], request[1]), request[6], request[7] as int,
                 Be16(request[8], request[9]), Be16(request[10], request[11])))
    else None
  }

  /** A device's reading of a request on a serial line. */
  function UnderstoodOnSerialAs(request: seq<byte>): (q: Option<Query>) {
    if |request| == 8 && RtuCrc.Accepts(request) then
      Some(Query(0, request[0], request[1] as int, Be16(request[2], request[3]), Be16(request[4], request[5])))
    else None
  }

  predicate StatusBit(mem: Memory, b: Block, i: nat) {
    i < b.quantity && mem.bits(b.functionCode, b.startAddress + i)
  }

  /** Eight statuses in a byte, the first in the lowest bit. */
  function Packed(b0: bool, b1: bool, b2: bool, b3: bool, b4: bool, b5: bool, b6: bool, b7: bool): byte {
    (if b0 then 1 else 0) | (if b1 then 2 else 0) | (if b2 then 4 else 0) | (if b3 then 8 else 0) |
    (if b4 then 16 else 0) | (if b5 then 32 else 0) | (if b6 then 64 else 0) | (if b7 then 128 else 0)
  }

  function StatusByte(mem: Memory, b: Block, j: nat): byte {
    Packed(StatusBit(mem, b, 8 * j), StatusBit(mem, b, 8 * j + 1), StatusBit(mem, b, 8 * j + 2),
           StatusBit(mem, b, 8 * j + 3), StatusBit(mem, b, 8 * j + 4), StatusBit(mem, b, 8 * j + 5),
           StatusBit(mem, b, 8 * j + 6), StatusBit(mem, b, 8 * j + 7))
  }

  /** The registers from `start` on, high byte first. */
  function WordData(mem: Memory, functionCode: int, start: int, quantity: nat): (s: seq<byte>)
    ensures |s| == 2 * quantity
  {
    seq(2 * quantity, i requires 0 <= i < 2 * quantity =>
      if i % 2 == 0 then mem.words(functionCode, start + i / 2).0 else mem.words(functionCode, start + i / 2).1)
  }

  function ByteCount(b: Block): nat
    requires b.quantity >= 0
  {
    if b.functionCode <= 2 then (b.quantity + 7) / 8 else b.quantity * 2
  }

  function Data(mem: Memory, b: Block): (s: seq<byte>)
    requires b.quantity >= 0
    ensures |s| == ByteCount(b)
  {
    if b.functionCode <= 2 then seq(ByteCount(b), j requires 0 <= j < ByteCount(b) => StatusByte(mem, b, j))
    else WordData(mem, b.functionCode, b.startAddress, b.quantity)
  }

  /** Function code, byte count, data. */
  function Pdu(mem: Memory, b: Block): (s: seq<byte>)
    requires Readable(b)
    ensures |s| == 2 + ByteCount(b)
  {
    [LowByte(b.functionCode), LowByte(ByteCount(b))] + Data(mem, b)
  }

  function TcpFrame(transaction: nat, unit: byte, pdu: seq<byte>): seq<byte> {
    PutBe16(transaction) + [0, 0] + PutBe16(|pdu| + 1) + [unit] + pdu
  }

  lemma TcpFrameShape(transaction: nat, unit: byte, pdu: seq<byte>)
    ensures var frame := TcpFrame(transaction, unit, pdu);
            && |frame| == 7 + |pdu| && frame[..2] == PutBe16(transaction) && frame[2] == 0 && frame[3] == 0
            && frame[4..6] == PutBe16(|pdu| + 1) && frame[6] == unit && frame[7..] == pdu
  {
  }

  function RtuFrame(unit: byte, pdu: seq<byte>): seq<byte> {
    RtuCrc.Framed([unit] + pdu)
  }

  // ---------- requests ----------

  /** Exactly the blocks within the protocol's limits are requested, and a device reads the request as meant. */
  method BuildReadRequest(transaction: nat, unit: byte, block: Block) returns (r: Result<seq<byte>, WireError>)
    requires transaction < 65536
    ensures r.Ok? <==> Readable(block)
    ensures
      r.Ok? <==>
      && 1 <= block.functionCode <= 4 && 0 <= block.startAddress && block.startAddress + block.quantity <= 65_536
      && 1 <= block.quantity <= if block.functionCode <= 2 then 2_000 else 125
    ensures r == Err(BadFunction) <==> !(1 <= block.functionCode <= 4)
    ensures r.Ok? ==>
      UnderstoodAs(r.value) == Some(Query(transaction, unit, block.functionCode, block.startAddress, block.quantity))
  {
    hide LowByte, PutBe16, Be16;
    if block.functionCode < 1 || block.functionCode > 4 {
      return Err(BadFunction);
    }
    var limit := 125;
    if block.functionCode <= 2 {
      limit := 2000;
    }
    if block.startAddress < 0 || block.startAddress > 65535 || block.quantity <= 0 || block.quantity > limit ||
       block.startAddress + block.quantity > 65536 {
      return Err(OutsideLimits);
    }
    var request := new byte[12](_ => 0);
    request[0], request[1] := PutBe16(transaction)[0], PutBe16(transaction)[1];
    request[4], request[5] := PutBe16(6)[0], PutBe16(6)[1];
    request[6] := unit;
    request[7] := LowByte(block.functionCode);
    request[8], request[9] := PutBe16(block.startAddress)[0], PutBe16(block.startAddress)[1];
    request[10], request[11] := PutBe16(block.quantity)[0], PutBe16(block.quantity)[1];
    Be16RoundTrip(transaction);
    Be16RoundTrip(6);
    Be16Zero();
    Be16RoundTrip(block.startAddress);
    Be16RoundTrip(block.quantity);
    ByteOfInt(block.functionCode);
    return Ok(request[..]);
  }

  /** On a serial line the same request loses its header and gains a check. */
  method BuildRtuRequest(transaction: nat, unit: byte, block: Block) returns (r: Result<seq<byte>, WireError>)
    requires transaction < 65536
    ensures r.Ok? <==> Readable(block)
    ensures r.Ok? ==>
      UnderstoodOnSerialAs(r.value) == Some(Query(0, unit, block.functionCode, block.startAddress, block.quantity))
  {
    hide RtuCrc.Accepts, RtuCrc.CrcOf;
    r := BuildReadRequest(transaction, unit, block);
    if r.Ok? {
      var body := r.value[6..];
      RtuCrc.FramedIsAccepted(body);
      var frame := RtuCrc.AppendCrc(body);
      assert frame[..6] == body;
      r := Ok(frame);
    }
  }

  /** A planned group is accepted block by block exactly when every point is addressable on its own. */
  lemma PlanIsRequestable(blocks: seq<Block>, ps: seq<Point>, g: Group)
    requires GoodPlan(blocks, ps, Limit(g.functionCode)) && 1 <= g.functionCode <= 4
    requires forall b :: b in blocks ==> BlockGroup(b) == g
    ensures (forall b :: b in blocks ==> Readable(b)) <==>
            (forall p :: p in ps ==> Width(p) <= Limit(g.functionCode) && 0 <= p.address && End(p) <= 65536)
  {
    if forall b :: b in blocks ==> Readable(b) {
      forall p | p in ps
        ensures Width(p) <= Limit(g.functionCode) && 0 <= p.address && End(p) <= 65536
      {
        assert Covered(p, blocks);
      }
    }
    if forall p :: p in ps ==> Width(p) <= Limit(g.functionCode) && 0 <= p.address && End(p) <= 65536 {
      assert AllFit(ps, Limit(g.functionCode));
      forall b | b in blocks
        ensures Readable(b)
      {
        assert GapFree(b, ps);
        assert Used(b.startAddress, ps) && Used(BlockEnd(b) - 1, ps);
      }
    }
  }

  // ---------- responses ----------

  /** One response read off a Modbus TCP connection; `stream` is what the peer sends. */
  method ReadResponse(stream: seq<byte>, transaction: nat, unit: byte, function_: byte)
    returns (r: Result<seq<byte>, WireError>)
    ensures r.Ok? <==> ExpectedTcp(stream, transaction, unit, function_)
    ensures r.Err? ==> Some(r.error) == TcpError(stream, transaction, unit, function_)
    ensures r.Ok? ==> r.value == stream[..6 + Be16(stream[4], stream[5])]
  {
    hide Be16;
    if |stream| < 7 {
      return Err(ShortRead);
    }
    var header := stream[..7];
    if Be16(header[0], header[1]) != transaction {
      return Err(WrongTransaction);
    }
    if Be16(header[2], header[3]) != 0 {
      return Err(WrongProtocol);
    }
    var length := Be16(header[4], header[5]);
    if length < 3 || length > 254 {
      return Err(BadLength);
    }
    if header[6] != unit {
      return Err(WrongUnit);
    }
    if |stream| < 7 + (length - 1) {
      return Err(ShortRead);
    }
    var rest := stream[7..7 + (length - 1)];
    if rest[0] & 0x80 != 0 {
      return Err(DeviceException(rest[1]));
    }
    if rest[0] != function_ {
      return Err(WrongFunction);
    }
    assert header + rest == stream[..6 + length];
    return Ok(header + rest);
  }

  /** The first thing wrong with a response, in the order of its bytes; a device reports a failure of its own by the
      high bit of the function code. */
  function TcpError(stream: seq<byte>, transaction: nat, unit: byte, function_: byte): Option<WireError> {
    if |stream| < 7 then Some(ShortRead)
    else if Be16(stream[0], stream[1]) != transaction then Some(WrongTransaction)
    else if Be16(stream[2], stream[3]) != 0 then Some(WrongProtocol)
    else if !(3 <= Be16(stream[4], stream[5]) <= 254) then Some(BadLength)
    else if stream[6] != unit then Some(WrongUnit)
    else if |stream| < 6 + Be16(stream[4], stream[5]) then Some(ShortRead)
    else if stream[7] & 0x80 != 0 then Some(DeviceException(stream[8]))
    else if stream[7] != function_ then Some(WrongFunction)
    else None
  }

  /** The stream starts with a complete response to this very request. */
  predicate ExpectedTcp(stream: seq<byte>, transaction: nat, unit: byte, function_: byte) {
    && 7 <= |stream|
    && Be16(stream[0], stream[1]) == transaction && Be16(stream[2], stream[3]) == 0
    && 3 <= Be16(stream[4], stream[5]) <= 254 && 6 + Be16(stream[4], stream[5]) <= |stream|
    && stream[6] == unit && stream[7] & 0x80 == 0 && stream[7] == function_
  }

  method ReadRtuResponse(stream: seq<byte>, unit: byte, function_: byte) returns (r: Result<seq<byte>, WireError>)
    requires function_ & 0x80 == 0
    ensures r.Ok? <==> ExpectedRtu(stream, unit, function_)
    ensures r.Err? ==> Some(r.error) == RtuError(stream, unit, function_)
    ensures r.Ok? ==> r.value == stream[..5 + stream[2] as int]
  {
    hide RtuCrc.Accepts;
    if |stream| < 3 {
      return Err(ShortRead);
    }
    var head := stream[..3];
    if head[0] != unit || (head[1] != function_ && head[1] != function_ | 0x80) {
      return Err(WrongFunction);
    }
    ExceptionBit(function_, head[1]);
    var size := head[2] as int + 2;
    if head[1] & 0x80 != 0 {
      size := 2;
    }
    if size > 252 {
      return Err(TooLarge);
    }
    if |stream| < 3 + size {
      return Err(ShortRead);
    }
    var frame := head + stream[3..3 + size];
    assert frame == stream[..3 + size];
    var valid := RtuCrc.Validate(frame);
    if valid.Err? {
      return Err(Corrupt);
    }
    if head[1] & 0x80 != 0 {
      return Err(DeviceException(head[2]));
    }
    return Ok(frame);
  }

  /** The first thing wrong with a serial response; an exception is only believed with a valid check. */
  function RtuError(stream: seq<byte>, unit: byte, function_: byte): Option<WireError> {
    if |stream| < 3 then Some(ShortRead)
    else if stream[0] != unit || (stream[1] != function_ && stream[1] != function_ | 0x80) then Some(WrongFunction)
    else
      var exception := stream[1] & 0x80 != 0;
      var size := if exception then 5 else 5 + stream[2] as int;
      if size > 255 then Some(TooLarge)
      else if |stream| < size then Some(ShortRead)
      else if !RtuCrc.Accepts(stream[..size]) then Some(Corrupt)
      else if exception then Some(DeviceException(stream[2]))
      else None
  }

  lemma ExceptionBit(f: byte, h: byte)
    requires f & 0x80 == 0
    ensures h == f ==> h & 0x80 == 0
    ensures h == f | 0x80 ==> h & 0x80 != 0 && h != f
  {
  }

  predicate ExpectedRtu(stream: seq<byte>, unit: byte, function_: byte) {
    && 3 <= |stream| && stream[0] == unit && stream[1] == function_
    && stream[2] as int <= 250 && 5 + stream[2] as int <= |stream|
    && RtuCrc.Accepts(stream[..5 + stream[2] as int])
  }

  /** The byte count and the frame length are the ones the query calls for. */
  predicate MatchesQuery(frame: seq<byte>, block: Block, rtu: bool)
    requires block.quantity >= 0
  {
    var offset := if rtu then 2 else 8;
    && offset < |frame| && frame[offset] as int == ByteCount(block)
    && |frame| == offset + 1 + ByteCount(block) + (if rtu then 2 else 0)
  }

  method ValidateReadByteCount(frame: seq<byte>, block: Block, rtu: bool) returns (r: Result<(), WireError>)
    requires block.quantity >= 0
    ensures r.Ok? <==> MatchesQuery(frame, block, rtu)
  {
    var offset := 8;
    if rtu {
      offset := 2;
    }
    var expected := block.quantity * 2;
    if block.functionCode <= 2 {
      expected := (block.quantity + 7) / 8;
    }
    if |frame| <= offset || frame[offset] as int != expected {
      return Err(WrongByteCount);
    }
    var size := offset + 1 + expected;
    if rtu {
      size := size + 2;
    }
    if |frame| != size {
      return Err(WrongSize);
    }
    return Ok(());
  }

  lemma ByteCountFits(b: Block)
    requires Readable(b)
    ensures 1 <= ByteCount(b) <= 250
  {
  }

  /** A conforming device's TCP answer is taken off the stream whole and passes the checks, whatever follows it. */
  lemma TcpAnswerIsAccepted(mem: Memory, b: Block, transaction: nat, unit: byte, rest: seq<byte>)
    requires Readable(b) && transaction < 65536
    ensures var frame := TcpFrame(transaction, unit, Pdu(mem, b));
            && ExpectedTcp(frame + rest, transaction, unit, LowByte(b.functionCode))
            && (frame + rest)[..6 + Be16((frame + rest)[4], (frame + rest)[5])] == frame
            && MatchesQuery(frame, b, false)
  {
    hide Pdu, ByteCount, LowByte, PutBe16, Be16, TcpFrame;
    var pdu := Pdu(mem, b);
    PduHead(mem, b);
    ByteCountFits(b);
    var frame := TcpFrame(transaction, unit, pdu);
    TcpFrameShape(transaction, unit, pdu);
    HeadBytes(frame, pdu);
    FrameHead(frame, transaction, |pdu|);
    var stream := frame + rest;
    assert forall k :: 0 <= k < 9 ==> stream[k] == frame[k];
    assert stream[..|frame|] == frame;
  }

  lemma FrameHead(frame: seq<byte>, transaction: nat, n: nat)
    requires |frame| >= 9 && transaction < 65536 && n + 1 < 65536
    requires frame[..2] == PutBe16(transaction) && frame[2] == 0 && frame[3] == 0 && frame[4..6] == PutBe16(n + 1)
    ensures Be16(frame[0], frame[1]) == transaction && Be16(frame[2], frame[3]) == 0
    ensures Be16(frame[4], frame[5]) == n + 1
  {
    hide LowByte, PutBe16, Be16;
    Be16Zero();
    Be16RoundTrip(transaction);
    Be16RoundTrip(n + 1);
    assert frame[0] == frame[..2][0] && frame[1] == frame[..2][1];
    assert frame[4] == frame[4..6][0] && frame[5] == frame[4..6][1];
  }

  lemma HeadBytes(frame: seq<byte>, pdu: seq<byte>)
    requires |frame| == 7 + |pdu| && frame[7..] == pdu && |pdu| >= 2
    ensures frame[7] == pdu[0] && frame[8] == pdu[1] && frame[9..] == pdu[2..]
  {
  }

  lemma PduHead(mem: Memory, b: Block)
    requires Readable(b)
    ensures |Pdu(mem, b)| == 2 + ByteCount(b)
    ensures Pdu(mem, b)[0] == LowByte(b.functionCode) && LowByte(b.functionCode) & 0x80 == 0
    ensures Pdu(mem, b)[0] as int == b.functionCode && Pdu(mem, b)[1] as int == ByteCount(b)
  {
    ByteCountFits(b);
    ByteOfInt(b.functionCode);
    ByteOfInt(ByteCount(b));
    SmallByte(b.functionCode);
  }

  lemma SmallByte(n: int)
    requires 1 <= n <= 4
    ensures LowByte(n) & 0x80 == 0
  {
  }

  /** So is its RTU answer. */
  lemma RtuAnswerIsAccepted(mem: Memory, b: Block, unit: byte, rest: seq<byte>)
    requires Readable(b)
    ensures var frame := RtuFrame(unit, Pdu(mem, b));
            && ExpectedRtu(frame + rest, unit, LowByte(b.functionCode))
            && (frame + rest)[..5 + (frame + rest)[2] as int] == frame
            && MatchesQuery(frame, b, true)
  {
    hide Pdu, ByteCount, RtuCrc.Accepts, RtuCrc.CrcOf;
    var pdu := Pdu(mem, b);
    PduHead(mem, b);
    ByteCountFits(b);
    var frame := RtuFrame(unit, pdu);
    RtuCrc.FramedIsAccepted([unit] + pdu);
    assert frame[1..|pdu| + 1] == pdu;
    assert (frame + rest)[..5 + ByteCount(b)] == frame;
  }
}
