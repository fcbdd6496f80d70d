/** Slicing points out of responses: internal/parser/modbus_tcp.go and modbus_rtu.go.

    The simple form reads each point on its own. The fast form reads planned blocks and slices the points back out.
    The lemmas say exactly where the two agree. */
module ModbusDecode {
  import opened Common
  import opened ReadPlan
  import opened ModbusWire
  import RtuCrc

  datatype Value =
    | Flag(on: bool)
    | Word(bits: nat)
    | Number(value: real)
    | FloatNumber(ieee: seq<byte>, scale: real, offset: real)
    | Text(chars: seq<byte>)

  /** `TooFewBytes` stands for the run-time panic of a read past the end of the slice. */
  datatype DecodeError = UnsupportedType | BitOfNonInteger | TooFewBytes

  datatype ParseError =
    | TooShort | BadProtocolId | DeclaredLength | DeviceReported(code: byte) | UnsupportedFunction | BadByteCount
    | NoStartAddress | AtPoint(identifier: string, cause: DecodeError) | NoPoints
    | BadFrame(reason: RtuCrc.FrameError)

  // ---------- one register value ----------

  /** Each pair of bytes exchanged; a last odd byte stays. */
  function PairsSwapped(data: seq<byte>): (s: seq<byte>)
    ensures |s| == |data|
  {
    seq(|data|, i requires 0 <= i < |data| =>
      if i % 2 == 1 then data[i - 1] else if i + 1 < |data| then data[i + 1] else data[i])
  }

  function Reordered(data: seq<byte>, order: string): (s: seq<byte>)
    ensures |s| == |data|
  {
    if |data| == 4 && order == "CDAB" then [data[2], data[3], data[0], data[1]]
    else if |data| == 4 && order == "BADC" then [data[1], data[0], data[3], data[2]]
    else if |data| == 4 && order == "DCBA" then [data[3], data[2], data[1], data[0]]
    else if |data| == 8 && order == "GHEFCDAB" then
      [data[6], data[7], data[4], data[5], data[2], data[3], data[0], data[1]]
    else if |data| == 8 && order == "BADCFEHG" then
      [data[1], data[0], data[3], data[2], data[5], data[4], data[7], data[6]]
    else if |data| == 8 && order == "HGFEDCBA" then
      [data[7], data[6], data[5], data[4], data[3], data[2], data[1], data[0]]
    else data
  }

  /** The bytes of a point in big-endian order. */
  function Ordered(data: seq<byte>, p: Point): (s: seq<byte>)
    ensures |s| == |data|
  {
    Reordered(if p.byteOrder == "little" then PairsSwapped(data) else data, p.wordOrder)
  }

  function Unsigned(data: seq<byte>): nat {
    if data == [] then 0 else Unsigned(data[..|data| - 1]) * 256 + data[|data| - 1] as int
  }

  function Signed(data: seq<byte>): int {
    var n := Unsigned(data);
    if data != [] && data[0] >= 0x80 then n - Pow2(8 * |data|) else n
  }

  /** `n & (1 << bit) != 0` on 64 bits; the shift by a negative or large amount leaves nothing. */
  predicate BitSet(n: nat, bit: int) {
    0 <= bit < 64 && (n / Pow2(bit)) % 2 == 1
  }

  function Pow2(n: nat): (r: nat)
    ensures r > 0
  {
    if n == 0 then 1 else 2 * Pow2(n - 1)
  }

  function Trimmed(data: seq<byte>): seq<byte> {
    if data != [] && (data[|data| - 1] == 0 || data[|data| - 1] == 0x20) then Trimmed(data[..|data| - 1]) else data
  }

  function Scaled(n: int, p: Point): Value {
    Number(n as real * (if p.scale == 0.0 then 1.0 else p.scale) + p.offset)
  }

  function OfInteger(n: int, p: Point): Result<Value, DecodeError> {
    match p.bit
    case None => Ok(Scaled(n, p))
    case Some(bit) => if n >= 0 then Ok(Flag(BitSet(n, bit))) else Err(BitOfNonInteger)
  }

  function OfOther(v: Value, p: Point): Result<Value, DecodeError> {
    if p.bit.Some? then Err(BitOfNonInteger) else Ok(v)
  }

  /** How many bytes a type reads; a string reads what there is. */
  function ElementSize(dataType: string): nat {
    match dataType
    case "bool" => 2 case "bits" => 2 case "uint16" => 2 case "int16" => 2
    case "uint32" => 4 case "int32" => 4 case "float32" => 4
    case "uint64" => 8 case "int64" => 8 case "float64" => 8
    case _ => 0
  }

  /** What bytes already in big-endian order mean for a point. */
  function Interpreted(data: seq<byte>, p: Point): Result<Value, DecodeError> {
    if |data| < ElementSize(p.dataType) then Err(TooFewBytes)
    else match p.dataType
      case "bool" => OfOther(Flag(Unsigned(data[..2]) != 0), p)
      case "bits" => OfOther(Word(Unsigned(data[..2])), p)
      case "uint16" => OfInteger(Unsigned(data[..2]), p)
      case "int16" => OfInteger(Signed(data[..2]), p)
      case "uint32" => OfInteger(Unsigned(data[..4]), p)
      case "int32" => OfInteger(Signed(data[..4]), p)
      case "uint64" => OfInteger(Unsigned(data[..8]), p)
      case "int64" => OfInteger(Signed(data[..8]), p)
      case "float32" => OfOther(FloatNumber(data[..4], if p.scale == 0.0 then 1.0 else p.scale, p.offset), p)
      case "float64" => OfOther(FloatNumber(data[..8], if p.scale == 0.0 then 1.0 else p.scale, p.offset), p)
      case "string" => OfOther(Text(Trimmed(data)), p)
      case _ => Err(UnsupportedType)
  }

  function Decoded(data: seq<byte>, p: Point): Result<Value, DecodeError> {
    Interpreted(Ordered(data, p), p)
  }

  /** The bytes are exchanged in place in a copy; the caller's slice is not touched. */
  method DecodeModbusRegisterValue(data: seq<byte>, p: Point) returns (r: Result<Value, DecodeError>)
    ensures r == Decoded(data, p)
  {
    hide Interpreted, Reordered, PairsSwapped;
    var ordered := new byte[|data|](i requires 0 <= i < |data| => data[i]);
    assert ordered[..] == data;
    if p.byteOrder == "little" {
      SwapPairs(ordered);
    }
    return Interpreted(Reordered(ordered[..], p.wordOrder), p);
  }

  method SwapPairs(ordered: array<byte>)
    modifies ordered
    ensures ordered[..] == PairsSwapped(old(ordered[..]))
  {
    var i := 0;
    while i + 1 < ordered.Length
      invariant 0 <= i <= ordered.Length && i % 2 == 0
      invariant forall k :: 0 <= k < i ==> ordered[k] == PairsSwapped(old(ordered[..]))[k]
      invariant forall k :: i <= k < ordered.Length ==> ordered[k] == old(ordered[k])
    {
      ordered[i], ordered[i + 1] := ordered[i + 1], ordered[i];
      i := i + 2;
    }
  }

  /** How a device with the point's byte and word order sends big-endian bytes. */
  function Sent(value: seq<byte>, p: Point): seq<byte> {
    var words := Reordered(value, p.wordOrder);
    if p.byteOrder == "little" then PairsSwapped(words) else words
  }

  lemma SwapTwice(data: seq<byte>)
    requires |data| % 2 == 0
    ensures PairsSwapped(PairsSwapped(data)) == data
  {
  }

  lemma ReorderTwice(data: seq<byte>, order: string)
    ensures Reordered(Reordered(data, order), order) == data
  {
  }

  /** Decoding undoes the device's byte and word order, for every order and every number of registers. */
  lemma OrderRoundTrip(value: seq<byte>, p: Point)
    requires |value| % 2 == 0
    ensures Ordered(Sent(value, p), p) == value
    ensures Decoded(Sent(value, p), p) == Interpreted(value, p)
  {
    hide PairsSwapped, Reordered, Interpreted;
    ReorderTwice(value, p.wordOrder);
    SwapTwice(Reordered(value, p.wordOrder));
  }

  // ---------- a point in a response ----------

  function Mask(k: nat): byte
    requires k < 8
  {
    match k case 0 => 1 case 1 => 2 case 2 => 4 case 3 => 8 case 4 => 16 case 5 => 32 case 6 => 64 case _ => 128
  }

  /** What the loop body finds for a point in the data of a response, if anything. */
  function PointValue(functionCode: int, start: int, data: seq<byte>, p: Point): Option<Result<Value, DecodeError>> {
    if p.functionCode != functionCode || p.address < start then None
    else if functionCode <= 2 then
      var off := p.address - start;
      if off >= |data| * 8 then None
      else Some(Ok(Flag(data[off / 8] & Mask(off % 8) != 0)))
    else
      var off, size := (p.address - start) * 2, Width(p) * 2;
      if off + size > |data| then None
      else Some(Decoded(data[off..off + size], p))
  }

  /** The properties of a message: the last point to claim an identifier wins; the first failing point aborts. */
  function Collected(functionCode: int, start: int, data: seq<byte>, points: seq<Point>)
    : Result<map<string, Value>, ParseError>
  {
    if points == [] then Ok(map[])
    else
      var p := points[|points| - 1];
      match Collected(functionCode, start, data, points[..|points| - 1])
      case Err(e) => Err(e)
      case Ok(m) =>
        match PointValue(functionCode, start, data, p)
        case None => Ok(m)
        case Some(Err(e)) => Err(AtPoint(p.identifier, e))
        case Some(Ok(v)) => Ok(m[p.identifier := v])
  }

  /** The first check a malformed frame fails. */
  function HeaderError(frame: seq<byte>, startAddress: int): Option<ParseError> {
    if |frame| < 9 then Some(TooShort)
    else if Be16(frame[2], frame[3]) != 0 then Some(BadProtocolId)
    else if Be16(frame[4], frame[5]) != |frame| - 6 then Some(DeclaredLength)
    else if frame[7] & 0x80 != 0 then Some(DeviceReported(frame[8]))
    else if !(1 <= frame[7] as int <= 4) then Some(UnsupportedFunction)
    else if frame[8] == 0 || 9 + frame[8] as int != |frame| then Some(BadByteCount)
    else if startAddress < 0 then Some(NoStartAddress)
    else None
  }

  function Parsed(frame: seq<byte>, startAddress: int, points: seq<Point>): Result<map<string, Value>, ParseError> {
    var bad := HeaderError(frame, startAddress);
    if bad.Some? then Err(bad.value)
    else
      match Collected(frame[7] as int, startAddress, frame[9..], points)
      case Err(e) => Err(e)
      case Ok(m) => if m == map[] then Err(NoPoints) else Ok(m)
  }

  method ParseTcp(frame: seq<byte>, startAddress: int, points: seq<Point>)
    returns (r: Result<map<string, Value>, ParseError>)
    ensures r == Parsed(frame, startAddress, points)
  {
    hide Collected, Be16;
    var bad := CheckHeader(frame, startAddress);
    if bad.Some? {
      return Err(bad.value);
    }
    var properties, failed := ParsePoints(frame[7] as int, startAddress, frame[9..], points);
    if failed.Some? {
      return Err(failed.value);
    }
    if properties == map[] {
      return Err(NoPoints);
    }
    return Ok(properties);
  }

  method CheckHeader(frame: seq<byte>, startAddress: int) returns (bad: Option<ParseError>)
    ensures bad == HeaderError(frame, startAddress)
  {
    if |frame| < 9 {
      return Some(TooShort);
    }
    var protocolId, declared := Be16(frame[2], frame[3]), Be16(frame[4], frame[5]);
    if protocolId != 0 {
      return Some(BadProtocolId);
    }
    if declared != |frame| - 6 {
      return Some(DeclaredLength);
    }
    if frame[7] & 0x80 != 0 {
      return Some(DeviceReported(frame[8]));
    }
    var functionCode := frame[7] as int;
    if functionCode < 1 || functionCode > 4 {
      return Some(UnsupportedFunction);
    }
    var byteCount := frame[8] as int;
    if byteCount <= 0 || 9 + byteCount != |frame| {
      return Some(BadByteCount);
    }
    if startAddress < 0 {
      return Some(NoStartAddress);
    }
    return None;
  }

  /** The loop over the points; `data` is the frame after its first nine bytes. */
  method ParsePoints(functionCode: int, startAddress: int, data: seq<byte>, points: seq<Point>)
    returns (properties: map<string, Value>, failed: Option<ParseError>)
    requires 1 <= functionCode <= 4
    ensures (if failed.None? then Ok(properties) else Err(failed.value)) ==
            Collected(functionCode, startAddress, data, points)
  {
    hide PointValue, Decoded;
    properties := map[];
    failed := None;
    assert points[..0] == [];
    for i := 0 to |points|
      invariant failed.None? && Ok(properties) == Collected(functionCode, startAddress, data, points[..i])
    {
      var point := points[i];
      assert points[..i + 1][..i] == points[..i];
      CollectedError(functionCode, startAddress, data, points, i + 1);
      var value := ValueOf(functionCode, startAddress, data, point);
      if value.Some? {
        if value.value.Err? {
          failed := Some(AtPoint(point.identifier, value.value.error));
          return;
        }
        properties := properties[point.identifier := value.value.value];
      }
    }
    assert points[..|points|] == points;
  }

  method ValueOf(functionCode: int, startAddress: int, data: seq<byte>, point: Point)
    returns (value: Option<Result<Value, DecodeError>>)
    requires 1 <= functionCode <= 4
    ensures value == PointValue(functionCode, startAddress, data, point)
  {
    if point.functionCode != functionCode {
      return None;
    }
    var width := point.registerCount;
    if functionCode <= 2 {
      width := 1;
    }
    if width <= 0 {
      width := 1;
    }
    if point.address < startAddress {
      return None;
    }
    if functionCode <= 2 {
      var bitOffset := point.address - startAddress;
      if bitOffset >= |data| * 8 {
        return None;
      }
      return Some(Ok(Flag(data[bitOffset / 8] & Mask(bitOffset % 8) != 0)));
    }
    var byteOffset := (point.address - startAddress) * 2;
    var byteLength := width * 2;
    if byteOffset + byteLength > |data| {
      return None;
    }
    var decoded := DecodeModbusRegisterValue(data[byteOffset..byteOffset + byteLength], point);
    return Some(decoded);
  }

  lemma {:induction false} CollectedError(fc: int, start: int, data: seq<byte>, points: seq<Point>, n: nat)
    requires n <= |points|
    ensures Collected(fc, start, data, points[..n]).Err? ==>
              Collected(fc, start, data, points) == Collected(fc, start, data, points[..n])
  {
    hide PointValue;
    if n < |points| {
      CollectedError(fc, start, data, points[..|points| - 1], n);
      assert points[..|points| - 1][..n] == points[..n];
    } else {
      assert points[..n] == points;
    }
  }

  /** A serial frame dressed as a TCP frame: a header in front, the check bytes dropped. */
  function Dressed(frame: seq<byte>): seq<byte>
    requires 2 <= |frame|
  {
    [0, 0, 0, 0] + PutBe16((|frame| - 2) % 65536) + frame[..|frame| - 2]
  }

  method ParseRtu(frame: seq<byte>, startAddress: int, points: seq<Point>)
    returns (r: Result<map<string, Value>, ParseError>)
    ensures if RtuCrc.Accepts(frame) then r == Parsed(Dressed(frame), startAddress, points)
            else r.Err? && r.error.BadFrame?
  {
    hide RtuCrc.CrcOf, Parsed;
    var valid := RtuCrc.Validate(frame);
    if valid.Err? {
      return Err(BadFrame(valid.error));
    }
    var header := [0, 0, 0, 0] + PutBe16((|frame| - 2) % 65536);
    r := ParseTcp(header + frame[..|frame| - 2], startAddress, points);
  }

  /** The same answer means the same on a serial line as on TCP. */
  lemma RtuEqualsTcp(unit: byte, pdu: seq<byte>, transaction: nat, startAddress: int, points: seq<Point>)
    requires 2 <= |pdu| <= 253
    ensures RtuCrc.Accepts(RtuFrame(unit, pdu))
    ensures Parsed(Dressed(RtuFrame(unit, pdu)), startAddress, points) ==
            Parsed(TcpFrame(transaction, unit, pdu), startAddress, points)
  {
    hide RtuCrc.CrcOf, RtuCrc.Accepts, Parsed, LowByte;
    RtuCrc.FramedIsAccepted([unit] + pdu);
    var serial, tcp := Dressed(RtuFrame(unit, pdu)), TcpFrame(transaction, unit, pdu);
    assert RtuFrame(unit, pdu)[..|pdu| + 1] == [unit] + pdu;
    TransactionIsIgnored(serial, tcp, startAddress, points);
  }

  /** The first two bytes, the transaction, mean nothing to the parser. */
  lemma TransactionIsIgnored(a: seq<byte>, b: seq<byte>, startAddress: int, points: seq<Point>)
    requires |a| == |b| >= 2 && a[2..] == b[2..]
    ensures Parsed(a, startAddress, points) == Parsed(b, startAddress, points)
  {
    hide Collected, Be16;
    if |a| >= 9 {
      assert forall k :: 2 <= k < |a| ==> a[k] == a[2..][k - 2];
      assert forall k :: 2 <= k < |a| ==> b[k] == b[2..][k - 2];
      assert a[9..] == a[2..][7..] == b[2..][7..] == b[9..];
    }
  }

  // ---------- the fast form refines the simple form ----------

  /** A point read on its own: its bit, or its own registers decoded. */
  function ReadAlone(mem: Memory, p: Point): Result<Value, DecodeError> {
    if p.functionCode <= 2 then Ok(Flag(mem.bits(p.functionCode, p.address)))
    else Decoded(WordData(mem, p.functionCode, p.address, Width(p)), p)
  }

  /** How many statuses the data of a coil response can carry, padding included. */
  function Capacity(b: Block): int
    requires b.quantity >= 0
  {
    8 * ByteCount(b)
  }

  lemma StatusByteBit(mem: Memory, b: Block, j: nat, k: nat)
    requires k < 8
    ensures (StatusByte(mem, b, j) & Mask(k) != 0) == StatusBit(mem, b, 8 * j + k)
  {
  }

  /** Slicing a register point out of a block gives what reading it alone gives, and only whole points are sliced. */
  lemma RegisterSliceIsExact(mem: Memory, b: Block, p: Point)
    requires Readable(b) && b.functionCode >= 3 && p.functionCode == b.functionCode
    ensures PointValue(b.functionCode, b.startAddress, Data(mem, b), p) ==
            if Inside(p, b) then Some(ReadAlone(mem, p)) else None
  {
    hide Decoded;
    if Inside(p, b) {
      var off, size := (p.address - b.startAddress) * 2, Width(p) * 2;
      assert Data(mem, b)[off..off + size] == WordData(mem, p.functionCode, p.address, Width(p));
    }
  }

  /** A coil is reported up to the end of the last data byte; the padding past the block always reads as off. */
  lemma CoilSliceIsExact(mem: Memory, b: Block, p: Point)
    requires Readable(b) && b.functionCode <= 2 && p.functionCode == b.functionCode
    ensures PointValue(b.functionCode, b.startAddress, Data(mem, b), p) ==
            if b.startAddress <= p.address < b.startAddress + Capacity(b)
            then Some(Ok(Flag(Inside(p, b) && mem.bits(p.functionCode, p.address)))) else None
  {
    hide Packed;
    if b.startAddress <= p.address < b.startAddress + Capacity(b) {
      var off := p.address - b.startAddress;
      StatusByteBit(mem, b, off / 8, off % 8);
      assert 8 * (off / 8) + off % 8 == off;
      assert Data(mem, b)[off / 8] == StatusByte(mem, b, off / 8);
    }
  }

  /** So a reported coil is right exactly when the block asked for it, or it happens to be off. */
  lemma CoilIsRightExactlyWhen(mem: Memory, b: Block, p: Point)
    requires Readable(b) && b.functionCode <= 2 && p.functionCode == b.functionCode
    requires b.startAddress <= p.address < b.startAddress + Capacity(b)
    ensures PointValue(b.functionCode, b.startAddress, Data(mem, b), p) == Some(ReadAlone(mem, p)) <==>
            Inside(p, b) || !mem.bits(p.functionCode, p.address)
  {
    CoilSliceIsExact(mem, b, p);
  }

  /** Either kind of point, inside its block, reads as it does alone, and as its own one-point block does. */
  lemma BlockRefinesPoint(mem: Memory, b: Block, p: Point)
    requires Readable(b) && p.functionCode == b.functionCode && Inside(p, b)
    ensures PointValue(b.functionCode, b.startAddress, Data(mem, b), p) == Some(ReadAlone(mem, p))
    ensures var own := Block(p.functionCode, p.address, Width(p), p.pollIntervalSec);
            PointValue(own.functionCode, own.startAddress, Data(mem, own), p) == Some(ReadAlone(mem, p))
  {
    hide PointValue, ReadAlone;
    var own := Block(p.functionCode, p.address, Width(p), p.pollIntervalSec);
    if b.functionCode <= 2 {
      CoilIsRightExactlyWhen(mem, b, p);
      CoilIsRightExactlyWhen(mem, own, p);
    } else {
      RegisterSliceIsExact(mem, b, p);
      RegisterSliceIsExact(mem, own, p);
    }
  }

  // ---------- whole tables ----------

  predicate DistinctIdentifiers(points: seq<Point>) {
    forall i, j :: 0 <= i < j < |points| ==> points[i].identifier != points[j].identifier
  }

  /** One decoding failure loses the message; otherwise the properties are exactly the values of the matched points. */
  lemma {:induction false} CollectedMeaning(fc: int, start: int, data: seq<byte>, points: seq<Point>)
    requires DistinctIdentifiers(points)
    ensures var r := Collected(fc, start, data, points);
            && (r.Ok? <==> forall q :: q in points ==> !Failing(fc, start, data, q))
            && (r.Ok? ==> forall q :: q in points ==> Agrees(r.value, q, PointValue(fc, start, data, q)))
            && (r.Ok? ==> forall id :: id in r.value ==> exists q :: q in points && q.identifier == id)
  {
    hide PointValue;
    if points != [] {
      var init, last := points[..|points| - 1], points[|points| - 1];
      CollectedMeaning(fc, start, data, init);
      assert points == init + [last];
      CollectedNext(fc, start, data, init, last);
    }
  }

  lemma CollectedNext(fc: int, start: int, data: seq<byte>, init: seq<Point>, last: Point)
    requires DistinctIdentifiers(init + [last])
    requires var r := Collected(fc, start, data, init);
             && (r.Ok? <==> forall q :: q in init ==> !Failing(fc, start, data, q))
             && (r.Ok? ==> forall q :: q in init ==> Agrees(r.value, q, PointValue(fc, start, data, q)))
             && (r.Ok? ==> forall id :: id in r.value ==> exists q :: q in init && q.identifier == id)
    ensures var r := Collected(fc, start, data, init + [last]);
            && (r.Ok? <==> forall q :: q in init + [last] ==> !Failing(fc, start, data, q))
            && (r.Ok? ==> forall q :: q in init + [last] ==> Agrees(r.value, q, PointValue(fc, start, data, q)))
            && (r.Ok? ==> forall id :: id in r.value ==> exists q :: q in init + [last] && q.identifier == id)
  {
    hide PointValue;
    assert last in init + [last];
    assert (init + [last])[..|init|] == init;
    UnfoldCollected(fc, start, data, init + [last]);
    hide Collected;
    FreshIdentifier(init, last);
  }

  lemma UnfoldCollected(fc: int, start: int, data: seq<byte>, points: seq<Point>)
    requires points != []
    ensures var before, p := Collected(fc, start, data, points[..|points| - 1]), points[|points| - 1];
            var r, v := Collected(fc, start, data, points), PointValue(fc, start, data, p);
            && (r.Ok? <==> before.Ok? && !Failing(fc, start, data, p))
            && (r.Ok? ==> r.value == if v.Some? then before.value[p.identifier := v.value.value] else before.value)
  {
  }

  lemma FreshIdentifier(init: seq<Point>, last: Point)
    requires DistinctIdentifiers(init + [last])
    ensures forall q :: q in init ==> q.identifier != last.identifier
  {
    forall q | q in init
      ensures q.identifier != last.identifier
    {
      var i :| 0 <= i < |init| && init[i] == q;
      assert (init + [last])[i].identifier != (init + [last])[|init|].identifier;
    }
  }

  predicate Failing(fc: int, start: int, data: seq<byte>, q: Point) {
    var v := PointValue(fc, start, data, q);
    v.Some? && v.value.Err?
  }

  /** The map holds the value found for the point under its identifier, and nothing if none was found. */
  predicate Agrees(m: map<string, Value>, q: Point, found: Option<Result<Value, DecodeError>>) {
    match found
    case None => q.identifier !in m
    case Some(Err(_)) => false
    case Some(Ok(v)) => q.identifier in m && m[q.identifier] == v
  }

  /** The message made of a device's answer to one planned block. */
  function Message(mem: Memory, b: Block, transaction: nat, unit: byte, points: seq<Point>)
    : Result<map<string, Value>, ParseError>
    requires Readable(b)
  {
    Parsed(TcpFrame(transaction, unit, Pdu(mem, b)), b.startAddress, points)
  }

  lemma AnswerParses(mem: Memory, b: Block, transaction: nat, unit: byte, points: seq<Point>)
    requires Readable(b) && transaction < 65536
    ensures Message(mem, b, transaction, unit, points) ==
            match Collected(b.functionCode, b.startAddress, Data(mem, b), points)
            case Err(e) => Err(e)
            case Ok(m) => if m == map[] then Err(NoPoints) else Ok(m)
  {
    hide Collected, LowByte, Be16, PutBe16, Data, ByteCount, TcpFrame, Pdu;
    PduHead(mem, b);
    ByteCountFits(b);
    var pdu := Pdu(mem, b);
    var frame := TcpFrame(transaction, unit, pdu);
    TcpFrameShape(transaction, unit, pdu);
    HeadBytes(frame, pdu);
    FrameHead(frame, transaction, |pdu|);
    PduData(mem, b);
  }

  lemma PduData(mem: Memory, b: Block)
    requires Readable(b)
    ensures Pdu(mem, b)[2..] == Data(mem, b)
  {
  }

  /** No message of any readable block carries a wrong register value. */
  lemma RegisterValuesAreNeverWrong(mem: Memory, points: seq<Point>, b: Block, q: Point, transaction: nat, unit: byte)
    requires DistinctIdentifiers(points) && q in points && transaction < 65536
    requires Readable(b) && b.functionCode >= 3
    ensures var m := Message(mem, b, transaction, unit, points);
            m.Ok? && q.identifier in m.value ==>
              q.functionCode == b.functionCode && Inside(q, b) && Ok(m.value[q.identifier]) == ReadAlone(mem, q)
  {
    hide Parsed, ReadAlone, Collected;
    AnswerParses(mem, b, transaction, unit, points);
    CollectedMeaning(b.functionCode, b.startAddress, Data(mem, b), points);
    if q.functionCode == b.functionCode {
      RegisterSliceIsExact(mem, b, q);
    }
  }

  /** A message carries no wrong value for a point of the table. */
  ghost predicate RightValues(mem: Memory, b: Block, transaction: nat, unit: byte, points: seq<Point>)
    requires Readable(b)
  {
    var m := Message(mem, b, transaction, unit, points);
    m.Ok? ==> forall q :: q in points && q.identifier in m.value ==>
                            q.functionCode == b.functionCode && Ok(m.value[q.identifier]) == ReadAlone(mem, q)
  }

  /** The padding of the last data byte of the answer holds no coil of the table. */
  predicate PaddingIsFree(b: Block, points: seq<Point>)
    requires b.quantity >= 0
  {
    forall q :: q in points && q.functionCode == b.functionCode && b.startAddress <= q.address < b.startAddress + Capacity(b) ==>
                  Inside(q, b)
  }

  /** Coils are different: the message of a block is right for every memory, if and only if the table has no coil in the
      padding past the block. */
  lemma CoilValuesAreRightExactlyWhen(b: Block, points: seq<Point>, transaction: nat, unit: byte)
    requires DistinctIdentifiers(points) && transaction < 65536
    requires Readable(b) && b.functionCode <= 2
    ensures (forall mem :: RightValues(mem, b, transaction, unit, points)) <==> PaddingIsFree(b, points)
  {
    hide Message, ReadAlone, Inside;
    if PaddingIsFree(b, points) {
      forall mem
        ensures RightValues(mem, b, transaction, unit, points)
      {
        FreePaddingIsRight(mem, b, points, transaction, unit);
      }
    }
    if q :| q in points && q.functionCode == b.functionCode && !Inside(q, b)
            && b.startAddress <= q.address < b.startAddress + Capacity(b) {
      var mem := Memory((_, _) => true, (_, _) => (0, 0));
      PaddingIsMisread(mem, b, points, q, transaction, unit);
      assert !RightValues(mem, b, transaction, unit, points);
    }
  }

  lemma FreePaddingIsRight(mem: Memory, b: Block, points: seq<Point>, transaction: nat, unit: byte)
    requires DistinctIdentifiers(points) && transaction < 65536
    requires Readable(b) && b.functionCode <= 2 && PaddingIsFree(b, points)
    ensures RightValues(mem, b, transaction, unit, points)
  {
    hide Parsed, ReadAlone, Collected, PointValue, Data, ByteCount;
    AnswerParses(mem, b, transaction, unit, points);
    CollectedMeaning(b.functionCode, b.startAddress, Data(mem, b), points);
    forall q | q in points && q.functionCode == b.functionCode
      ensures PointValue(b.functionCode, b.startAddress, Data(mem, b), q) in {None, Some(ReadAlone(mem, q))}
    {
      CoilSliceIsExact(mem, b, q);
      AloneCoil(mem, q);
    }
    forall q | q in points && q.functionCode != b.functionCode
      ensures PointValue(b.functionCode, b.startAddress, Data(mem, b), q) == None
    {
      OtherCodeIsSkipped(b.functionCode, b.startAddress, Data(mem, b), q);
    }
  }

  lemma OtherCodeIsSkipped(fc: int, start: int, data: seq<byte>, q: Point)
    requires q.functionCode != fc
    ensures PointValue(fc, start, data, q) == None
  {
  }

  lemma CoilsNeverFail(fc: int, start: int, data: seq<byte>, q: Point)
    requires fc <= 2
    ensures !Failing(fc, start, data, q)
  {
  }

  /** A coil in the padding is reported as off whenever it is on. */
  lemma PaddingIsMisread(mem: Memory, b: Block, points: seq<Point>, q: Point, transaction: nat, unit: byte)
    requires DistinctIdentifiers(points) && transaction < 65536 && Readable(b) && b.functionCode <= 2
    requires q in points && q.functionCode == b.functionCode && !Inside(q, b)
    requires b.startAddress <= q.address < b.startAddress + Capacity(b) && mem.bits(q.functionCode, q.address)
    ensures
      var m := Message(mem, b, transaction, unit, points);
      m.Ok? && q.identifier in m.value && m.value[q.identifier] == Flag(false) && ReadAlone(mem, q) == Ok(Flag(true))
  {
    hide Parsed, Collected, PointValue, Data, ReadAlone, ByteCount;
    AnswerParses(mem, b, transaction, unit, points);
    CollectedMeaning(b.functionCode, b.startAddress, Data(mem, b), points);
    forall p
      ensures !Failing(b.functionCode, b.startAddress, Data(mem, b), p)
    {
      CoilsNeverFail(b.functionCode, b.startAddress, Data(mem, b), p);
    }
    CoilSliceIsExact(mem, b, q);
    AloneCoil(mem, q);
  }

  /** Of two neighbouring coils polled at different intervals, the message of the block planned for the first reports the
      second as off whenever it is on. */
  lemma NeighbouringCoilIsMisread(mem: Memory, fast: Point, slow: Point, transaction: nat, unit: byte)
    requires fast.identifier != slow.identifier && transaction < 65536
    requires 1 <= fast.functionCode == slow.functionCode <= 2
    requires 0 <= fast.address && slow.address == fast.address + 1 < 65536
    requires IntervalOf(fast) != IntervalOf(slow) && mem.bits(slow.functionCode, slow.address)
    ensures var b := Block(fast.functionCode, fast.address, 1, IntervalOf(fast));
            && GroupOf(fast) == BlockGroup(b) != GroupOf(slow) && GoodPlan([b], [fast], Limit(b.functionCode))
            && var m := Message(mem, b, transaction, unit, [fast, slow]);
               m.Ok? && slow.identifier in m.value && m.value[slow.identifier] == Flag(false)
               && ReadAlone(mem, slow) == Ok(Flag(true))
  {
    hide Message, PointValue, GoodPlan, ReadAlone, Data, IntervalOf;
    var b := Block(fast.functionCode, fast.address, 1, IntervalOf(fast));
    SingleCoilPlan(fast, b);
    PaddingIsMisread(mem, b, [fast, slow], slow, transaction, unit);
  }

  lemma AloneCoil(mem: Memory, p: Point)
    requires p.functionCode <= 2
    ensures ReadAlone(mem, p) == Ok(Flag(mem.bits(p.functionCode, p.address)))
  {
  }

  lemma SingleCoilPlan(p: Point, b: Block)
    requires p.functionCode == b.functionCode <= 2 && b.startAddress == p.address && b.quantity == 1
    ensures GoodPlan([b], [p], Limit(b.functionCode))
  {
    assert b in [b] && Inside(p, b) && Covered(p, [b]);
    assert p in [p] && Touches(p, p.address) && Used(p.address, [p]);
    forall other | Competes(other, [p], Limit(b.functionCode))
      ensures 1 <= |other|
    {
      assert Covered(p, other);
    }
  }
}
