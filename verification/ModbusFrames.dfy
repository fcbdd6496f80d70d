/** Where everything stands in a Modbus frame, byte by byte: the requests of internal/protocolruntime/modbus.go, the
    answers of a device to them (MODBUS Application Protocol V1.1b3, section 6), and the answers that
    internal/parser/modbus_tcp.go takes. */
module ModbusFrames {
  import opened Common
  import opened ReadPlan
  import opened ModbusWire
  import opened ModbusDecode

  /** Two bytes, the more significant one first. */
  predicate Shows(frame: seq<byte>, offset: nat, n: int) {
    offset + 1 < |frame| && 256 * (frame[offset] as int) + frame[offset + 1] as int == n
  }

  /** A request that a device reads as a query has the fields of the query in these places, and no others. */
  lemma RequestBytes(request: seq<byte>, q: Query)
    requires UnderstoodAs(request) == Some(q)
    ensures |request| == 12 && Shows(request, 0, q.transaction) && Shows(request, 2, 0) && Shows(request, 4, 6)
    ensures request[6] == q.unit && request[7] as int == q.functionCode
    ensures Shows(request, 8, q.start) && Shows(request, 10, q.quantity)
  {
  }

  lemma SerialRequestBytes(request: seq<byte>, q: Query)
    requires UnderstoodOnSerialAs(request) == Some(q)
    ensures |request| == 8 && request[0] == q.unit && request[1] as int == q.functionCode
    ensures Shows(request, 2, q.start) && Shows(request, 4, q.quantity)
  {
  }

  /** The `k`-th bit of a byte, the lowest first. */
  predicate HasBit(b: byte, k: nat)
    requires k < 8
  {
    (b >> k) & 1 == 1
  }

  lemma StatusByteHasBit(mem: Memory, b: Block, j: nat, k: nat)
    requires k < 8
    ensures HasBit(StatusByte(mem, b, j), k) <==> StatusBit(mem, b, 8 * j + k)
  {
  }

  /** The data of an answer: the registers, high byte first, or the coils, eight to a byte from the lowest bit up. */
  predicate Carries(data: seq<byte>, mem: Memory, b: Block)
    requires b.quantity >= 0
  {
    && |data| == (if b.functionCode <= 2 then (b.quantity + 7) / 8 else 2 * b.quantity)
    && forall i :: 0 <= i < b.quantity ==>
         if b.functionCode >= 3 then
           (data[2 * i], data[2 * i + 1]) == mem.words(b.functionCode, b.startAddress + i)
         else HasBit(data[i / 8], i % 8) <==> mem.bits(b.functionCode, b.startAddress + i)
  }

  lemma DataCarries(mem: Memory, b: Block)
    requires Readable(b)
    ensures Carries(Data(mem, b), mem, b)
  {
    hide StatusByte, HasBit;
    var data := Data(mem, b);
    forall i | 0 <= i < b.quantity && b.functionCode <= 2
      ensures HasBit(data[i / 8], i % 8) <==> mem.bits(b.functionCode, b.startAddress + i)
    {
      StatusByteHasBit(mem, b, i / 8, i % 8);
      assert 8 * (i / 8) + i % 8 == i;
    }
  }

  /** A device's answer: the header with the length of what follows, function code, byte count, and the data. */
  lemma AnswerBytes(mem: Memory, b: Block, transaction: nat, unit: byte)
    requires Readable(b) && transaction < 65_536
    ensures
      var frame := TcpFrame(transaction, unit, Pdu(mem, b));
      && Shows(frame, 0, transaction) && Shows(frame, 2, 0) && Shows(frame, 4, |frame| - 6)
      && frame[6] == unit && frame[7] as int == b.functionCode
      && |frame| == 9 + frame[8] as int && Carries(frame[9..], mem, b)
  {
    hide Pdu, LowByte, PutBe16, TcpFrame, Carries, Data;
    var pdu := Pdu(mem, b);
    var frame := TcpFrame(transaction, unit, pdu);
    PduHead(mem, b);
    ByteCountFits(b);
    TcpFrameShape(transaction, unit, pdu);
    HeadBytes(frame, pdu);
    FrameHead(frame, transaction, |pdu|);
    PduData(mem, b);
    DataCarries(mem, b);
  }

  /** The header of a frame that carries data for a start address. */
  predicate CarriesData(frame: seq<byte>) {
    && |frame| >= 10 && Shows(frame, 2, 0) && Shows(frame, 4, |frame| - 6)
    && 1 <= frame[7] as int <= 4 && 9 + frame[8] as int == |frame|
  }

  lemma HighBit(b: byte)
    ensures b & 0x80 == 0 <==> (b as int) < 128
  {
  }

  lemma HeaderIsFineExactlyWhen(frame: seq<byte>, start: int)
    ensures HeaderError(frame, start).None? <==> CarriesData(frame) && start >= 0
    ensures
      |frame| >= 9 && Shows(frame, 2, 0) && Shows(frame, 4, |frame| - 6) && frame[7] as int >= 128 ==>
        HeaderError(frame, start) == Some(DeviceReported(frame[8]))
  {
    if |frame| >= 9 {
      HighBit(frame[7]);
    }
  }

  /** A frame is parsed exactly if its header is that of an answer, the start address is known, no point in it fails, and
      at least one is found; an exception of the device is reported by its code. */
  lemma ParsesExactlyWhen(frame: seq<byte>, start: int, points: seq<Point>)
    requires DistinctIdentifiers(points)
    ensures
      Parsed(frame, start, points).Ok? <==>
      && CarriesData(frame) && start >= 0
      && (forall q :: q in points ==> !Failing(frame[7] as int, start, frame[9..], q))
      && (exists q :: q in points && PointValue(frame[7] as int, start, frame[9..], q).Some?)
    ensures
      |frame| >= 9 && Shows(frame, 2, 0) && Shows(frame, 4, |frame| - 6) && frame[7] as int >= 128 ==>
        Parsed(frame, start, points) == Err(DeviceReported(frame[8]))
  {
    hide Collected, PointValue, HeaderError, Shows;
    HeaderIsFineExactlyWhen(frame, start);
    if |frame| >= 9 {
      var fc, data := frame[7] as int, frame[9..];
      CollectedMeaning(fc, start, data, points);
      var r := Collected(fc, start, data, points);
      if r.Ok? && r.value != map[] {
        var id :| id in r.value;
        var q :| q in points && q.identifier == id;
        assert PointValue(fc, start, data, q).Some?;
      }
    }
  }
}
