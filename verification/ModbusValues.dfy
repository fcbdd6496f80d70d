/** What a register point reads: `decodeModbusRegisterValue` of internal/parser/modbus_tcp.go, seen from the device.

    A device holds a number, writes it big-endian, and sends the bytes in the order that the point names. The lemmas say
    what comes out, without the functions that compute it. */
module ModbusValues {
  import opened Common
  import opened ReadPlan
  import opened ModbusWire
  import opened ModbusDecode
  import opened ModbusTables

  // ---------- where the bytes of a value stand on the wire ----------

  /** The orders for two and for four registers; A is the most significant byte. */
  predicate Spells(order: string, n: nat) {
    || (n == 4 && (order == "ABCD" || order == "CDAB" || order == "BADC" || order == "DCBA"))
    || (n == 8 && (order == "ABCDEFGH" || order == "GHEFCDAB" || order == "BADCFEHG" || order == "HGFEDCBA"))
  }

  /** The letter at place `j` names the byte; an order for another size leaves the bytes where they are. */
  function Letter(order: string, n: nat, j: nat): int {
    if Spells(order, n) && j < |order| then order[j] as int - 'A' as int else j
  }

  /** Little-endian registers exchange neighbours. */
  function Neighbour(little: bool, i: nat): nat {
    if !little then i else if i % 2 == 0 then i + 1 else i - 1
  }

  /** Which byte of a value of `n` bytes is sent at place `i`. */
  function Place(p: Point, n: nat, i: nat): int {
    Letter(p.wordOrder, n, Neighbour(p.byteOrder == "little", i))
  }

  predicate OnWire(wire: seq<byte>, value: seq<byte>, p: Point) {
    && |wire| == |value| && |value| % 2 == 0
    && forall i :: 0 <= i < |wire| ==> 0 <= Place(p, |value|, i) < |value| && wire[i] == value[Place(p, |value|, i)]
  }

  predicate Spelt(data: seq<byte>, value: seq<byte>, order: string) {
    && |data| == |value|
    && forall j :: 0 <= j < |data| ==>
         0 <= Letter(order, |value|, j) < |value| && data[j] == value[Letter(order, |value|, j)]
  }

  lemma ComesFromNeighbour(data: seq<byte>, j: nat)
    requires j < |data| && |data| % 2 == 0
    ensures Neighbour(true, j) < |data| && PairsSwapped(data)[j] == data[Neighbour(true, j)]
  {
  }

  lemma Unmoved(j: nat)
    ensures Neighbour(false, j) == j
  {
  }

  /** Every byte of the data is the one that the order names at its place. */
  predicate Named(data: seq<byte>, value: seq<byte>, order: string) {
    && |data| == |value| == |order|
    && forall j :: 0 <= j < |order| ==>
         0 <= order[j] as int - 'A' as int < |order| && data[j] == value[order[j] as int - 'A' as int]
  }

  lemma FourAreNamed(value: seq<byte>, order: string)
    requires |value| == 4 && Spells(order, 4)
    ensures Named(Reordered(value, order), value, order)
  {
  }

  lemma EightAreNamed(value: seq<byte>, order: string)
    requires |value| == 8 && Spells(order, 8)
    ensures Named(Reordered(value, order), value, order)
  {
  }

  lemma OtherOrderStays(value: seq<byte>, order: string)
    requires !Spells(order, |value|)
    ensures Reordered(value, order) == value
  {
  }

  lemma LetterNames(order: string, n: nat, j: nat)
    ensures Letter(order, n, j) == if Spells(order, n) && j < |order| then order[j] as int - 'A' as int else j
  {
  }

  lemma ReorderedIsSpelt(value: seq<byte>, order: string)
    ensures Spelt(Reordered(value, order), value, order)
  {
    hide Reordered, Spells, Letter, Named;
    var data := Reordered(value, order);
    if !Spells(order, |value|) {
      OtherOrderStays(value, order);
    } else {
      SpelledSize(order, |value|);
      if |value| == 4 {
        FourAreNamed(value, order);
      } else {
        EightAreNamed(value, order);
      }
    }
    forall j | 0 <= j < |data|
      ensures 0 <= Letter(order, |value|, j) < |value| && data[j] == value[Letter(order, |value|, j)]
    {
      LetterNames(order, |value|, j);
      if Spells(order, |value|) {
        NamedAt(data, value, order, j);
      }
    }
  }

  lemma SpelledSize(order: string, n: nat)
    requires Spells(order, n)
    ensures |order| == n && (n == 4 || n == 8)
  {
  }

  lemma NamedAt(data: seq<byte>, value: seq<byte>, order: string, j: nat)
    requires Named(data, value, order) && j < |data|
    ensures |order| == |value| && 0 <= order[j] as int - 'A' as int < |value|
    ensures data[j] == value[order[j] as int - 'A' as int]
  {
  }

  lemma SentInPlace(value: seq<byte>, p: Point, i: nat)
    requires i < |value| && |value| % 2 == 0
    ensures |Sent(value, p)| == |value| && 0 <= Place(p, |value|, i) < |value|
    ensures Sent(value, p)[i] == value[Place(p, |value|, i)]
  {
    hide Reordered, PairsSwapped, Letter, Neighbour;
    ReorderedIsSpelt(value, p.wordOrder);
    if p.byteOrder == "little" {
      ComesFromNeighbour(Reordered(value, p.wordOrder), i);
    } else {
      Unmoved(i);
    }
  }

  /** There is one such sequence of bytes: what a device with this byte and word order sends. */
  lemma OnWireIsSent(wire: seq<byte>, value: seq<byte>, p: Point)
    requires |value| % 2 == 0
    ensures OnWire(wire, value, p) <==> wire == Sent(value, p)
  {
    hide Place;
    assert |Sent(value, p)| == |value|;
    hide Sent;
    forall i | 0 <= i < |value|
      ensures 0 <= Place(p, |value|, i) < |value| && Sent(value, p)[i] == value[Place(p, |value|, i)]
    {
      SentInPlace(value, p, i);
    }
  }

  /** The parser puts every byte back in its place. */
  lemma OrderIsUndone(wire: seq<byte>, value: seq<byte>, p: Point)
    requires OnWire(wire, value, p)
    ensures Ordered(wire, p) == value
  {
    OnWireIsSent(wire, value, p);
    OrderRoundTrip(value, p);
  }

  // ---------- numbers ----------

  /** The low `size` bytes of a number, most significant first. */
  function BigEndian(n: nat, size: nat): (s: seq<byte>)
    ensures |s| == size
  {
    if size == 0 then [] else BigEndian(n / 256, size - 1) + [LowByte(n)]
  }

  lemma {:induction false} BigEndianIsRead(n: nat, size: nat)
    requires n < Pow2(8 * size)
    ensures Unsigned(BigEndian(n, size)) == n
  {
    if size > 0 {
      PowOfBytes(size);
      BigEndianIsRead(n / 256, size - 1);
      var s := BigEndian(n, size);
      assert s[..size - 1] == BigEndian(n / 256, size - 1);
      ByteOfInt(n % 256);
    }
  }

  lemma PowOfBytes(size: nat)
    requires size > 0
    ensures Pow2(8 * size) == 256 * Pow2(8 * size - 8)
  {
    var k := 8 * size - 8;
    assert Pow2(k + 2) == 4 * Pow2(k);
    assert Pow2(k + 4) == 4 * Pow2(k + 2);
    assert Pow2(k + 6) == 4 * Pow2(k + 4);
    assert Pow2(k + 8) == 4 * Pow2(k + 6);
  }

  lemma OneMoreByte(first: nat, place: nat, n: nat, last: nat)
    requires first * place <= n < (first + 1) * place && last < 256
    ensures first * (256 * place) <= n * 256 + last < (first + 1) * (256 * place)
  {
    assert first * (256 * place) == 256 * (first * place);
    assert (first + 1) * (256 * place) == 256 * ((first + 1) * place);
  }

  lemma Monotone(a: int, b: int, d: nat)
    ensures a <= b ==> a * d <= b * d
  {
  }

  function Octet(b: byte): nat {
    b as int
  }

  lemma UnsignedByte(data: seq<byte>)
    requires data != []
    ensures Unsigned(data) == Unsigned(data[..|data| - 1]) * 256 + Octet(data[|data| - 1])
    ensures |data| == 1 ==> Unsigned(data) == Octet(data[0])
    ensures Octet(data[|data| - 1]) < 256
  {
  }

  /** The first byte is the number divided by the weight of its place. */
  lemma {:induction false} FirstByte(data: seq<byte>)
    requires data != []
    ensures
      var place := Pow2(8 * |data| - 8);
      Octet(data[0]) * place <= Unsigned(data) < (Octet(data[0]) + 1) * place
    decreases |data|
  {
    hide Unsigned, Octet;
    var front, last := data[..|data| - 1], data[|data| - 1];
    UnsignedByte(data);
    if |data| == 1 {
      assert Pow2(0) == 1;
    } else {
      FirstByte(front);
      PowOfBytes(|front|);
      hide Pow2;
      OneMoreByte(Octet(front[0]), Pow2(8 * |front| - 8), Unsigned(front), Octet(last));
    }
  }

  lemma TopBit(b: byte)
    ensures b >= 0x80 <==> Octet(b) >= 128
  {
  }

  lemma TopHalf(first: nat, place: nat, n: nat)
    requires first * place <= n < (first + 1) * place
    ensures first >= 128 <==> 2 * n >= 256 * place
  {
    Monotone(128, first, place);
    Monotone(first + 1, 128, place);
  }

  lemma SignIsTopBit(data: seq<byte>)
    requires data != []
    ensures data[0] >= 0x80 <==> 2 * Unsigned(data) >= Pow2(8 * |data|)
  {
    hide Pow2, Unsigned, Octet;
    FirstByte(data);
    PowOfBytes(|data|);
    TopBit(data[0]);
    TopHalf(Octet(data[0]), Pow2(8 * |data| - 8), Unsigned(data));
  }

  predicate IsUnsigned(dataType: string) {
    dataType == "uint16" || dataType == "uint32" || dataType == "uint64"
  }

  predicate IsSigned(dataType: string) {
    dataType == "int16" || dataType == "int32" || dataType == "int64"
  }

  function Size(dataType: string): nat {
    if dataType == "uint64" || dataType == "int64" || dataType == "float64" then 8
    else if dataType == "uint32" || dataType == "int32" || dataType == "float32" then 4
    else 2
  }

  /** How many numbers an integer type has. */
  function Count(dataType: string): int {
    if Size(dataType) == 8 then 0x1_0000_0000_0000_0000 else if Size(dataType) == 4 then 0x1_0000_0000 else 0x1_0000
  }

  predicate InRange(n: int, dataType: string) {
    if IsSigned(dataType) then -Count(dataType) <= 2 * n < Count(dataType) else 0 <= n < Count(dataType)
  }

  /** The registers of a value begin with a number, in two's complement if it is negative. */
  predicate Encodes(value: seq<byte>, n: int, dataType: string) {
    && InRange(n, dataType) && Size(dataType) <= |value|
    && value[..Size(dataType)] == BigEndian(if n >= 0 then n else n + Count(dataType), Size(dataType))
  }

  lemma PowerOfSize(dataType: string)
    ensures Pow2(8 * Size(dataType)) == Count(dataType)
  {
    assert Pow2(8) == 256;
    PowOfBytes(2);
    PowOfBytes(3);
    PowOfBytes(4);
    PowOfBytes(5);
    PowOfBytes(6);
    PowOfBytes(7);
    PowOfBytes(8);
  }

  lemma NumberOfBytes(value: seq<byte>, n: int, dataType: string)
    requires Encodes(value, n, dataType)
    ensures
      var data := value[..Size(dataType)];
      (n >= 0 ==> Unsigned(data) == n) && (IsSigned(dataType) ==> Signed(data) == n)
  {
    hide BigEndian, Unsigned, Pow2;
    var held := if n >= 0 then n else n + Count(dataType);
    PowerOfSize(dataType);
    BigEndianIsRead(held, Size(dataType));
    SignIsTopBit(value[..Size(dataType)]);
  }

  function Factor(p: Point): real {
    if p.scale == 0.0 then 1.0 else p.scale
  }

  /** An integer point without a bit index reads as its number, scaled and shifted. */
  lemma IntegerIsRead(wire: seq<byte>, value: seq<byte>, p: Point, n: int)
    requires OnWire(wire, value, p) && Encodes(value, n, p.dataType)
    requires (IsUnsigned(p.dataType) || IsSigned(p.dataType)) && p.bit.None?
    ensures Decoded(wire, p) == Ok(Number(n as real * Factor(p) + p.offset))
  {
    hide BigEndian, Unsigned, Signed, OnWire, Ordered;
    OrderIsUndone(wire, value, p);
    NumberOfBytes(value, n, p.dataType);
    assert ElementSize(p.dataType) == Size(p.dataType);
    ScaledByFactor(n, p);
  }

  lemma ScaledByFactor(n: int, p: Point)
    ensures Scaled(n, p) == Number(n as real * Factor(p) + p.offset)
  {
    if p.scale == 0.0 {
    } else {
    }
  }

  // ---------- bits ----------

  /** Counted in units of bit `k`, the number lies between an odd number and the even one above it. */
  predicate OddBlock(n: nat, k: nat, high: nat) {
    (2 * high + 1) * Pow2(k) <= n < (2 * high + 2) * Pow2(k)
  }

  ghost predicate HasBit(n: nat, k: int) {
    0 <= k < 64 && exists high: nat :: OddBlock(n, k, high)
  }

  lemma Quotient(n: nat, q: nat, d: nat)
    requires q * d <= n < (q + 1) * d
    ensures n / d == q
  {
    var r := n / d;
    assert r * d <= n < (r + 1) * d;
    Monotone(r + 1, q, d);
    Monotone(q + 1, r, d);
  }

  lemma BitIsBit(n: nat, k: int)
    ensures BitSet(n, k) <==> HasBit(n, k)
  {
    hide Pow2;
    if BitSet(n, k) {
      var d, high := Pow2(k), n / Pow2(k) / 2;
      assert n / d == 2 * high + 1;
      assert (2 * high + 1) * d <= n < (2 * high + 2) * d;
      assert OddBlock(n, k, high);
    }
    if HasBit(n, k) {
      var high: nat :| OddBlock(n, k, high);
      Quotient(n, 2 * high + 1, Pow2(k));
    }
  }

  /** With a bit index it reads as that bit, or is refused if the number is negative. */
  lemma BitIsRead(wire: seq<byte>, value: seq<byte>, p: Point, n: int, k: int)
    requires OnWire(wire, value, p) && Encodes(value, n, p.dataType)
    requires (IsUnsigned(p.dataType) || IsSigned(p.dataType)) && p.bit == Some(k)
    ensures Decoded(wire, p) == if n >= 0 then Ok(Flag(HasBit(n, k))) else Err(BitOfNonInteger)
  {
    hide BigEndian, Unsigned, Signed, OnWire, Ordered, BitSet, HasBit;
    OrderIsUndone(wire, value, p);
    NumberOfBytes(value, n, p.dataType);
    if n >= 0 {
      BitIsBit(n, k);
    }
  }

  // ---------- the other types ----------

  /** A status word reads as a flag or as its sixteen bits; a bit index on it is refused. */
  lemma WordIsRead(wire: seq<byte>, value: seq<byte>, p: Point, n: int)
    requires OnWire(wire, value, p) && Encodes(value, n, p.dataType)
    requires p.dataType == "bool" || p.dataType == "bits"
    ensures
      Decoded(wire, p) ==
      if p.bit.Some? then Err(BitOfNonInteger) else Ok(if p.dataType == "bool" then Flag(n != 0) else Word(n))
  {
    hide BigEndian, Unsigned, Signed, OnWire, Ordered;
    OrderIsUndone(wire, value, p);
    NumberOfBytes(value, n, p.dataType);
  }

  /** A float reads as the number of its first four or eight bytes, scaled and shifted. */
  lemma FloatIsRead(wire: seq<byte>, value: seq<byte>, p: Point)
    requires OnWire(wire, value, p) && Size(p.dataType) <= |value|
    requires p.dataType == "float32" || p.dataType == "float64"
    ensures
      Decoded(wire, p) ==
      if p.bit.Some? then Err(BitOfNonInteger)
      else Ok(FloatNumber(value[..if p.dataType == "float32" then 4 else 8], Factor(p), p.offset))
  {
    hide OnWire, Ordered;
    OrderIsUndone(wire, value, p);
  }

  predicate IsPadding(b: byte) {
    b == 0 || b == 0x20
  }

  lemma {:induction false} PaddingIsTrimmed(text: seq<byte>, padding: seq<byte>)
    requires text != [] ==> !IsPadding(text[|text| - 1])
    requires forall b :: b in padding ==> IsPadding(b)
    ensures Trimmed(text + padding) == text
    decreases |padding|
  {
    if padding == [] {
      assert text + padding == text;
    } else {
      var shorter := padding[..|padding| - 1];
      PaddingIsTrimmed(text, shorter);
      var s := text + padding;
      assert s[..|s| - 1] == text + shorter;
      assert s[|s| - 1] == padding[|padding| - 1] && padding[|padding| - 1] in padding;
    }
  }

  /** A string loses the zeros and blanks behind its last other character, and only those. */
  lemma TextIsRead(wire: seq<byte>, text: seq<byte>, padding: seq<byte>, p: Point)
    requires OnWire(wire, text + padding, p) && p.dataType == "string"
    requires text != [] ==> !IsPadding(text[|text| - 1])
    requires forall b :: b in padding ==> IsPadding(b)
    ensures Decoded(wire, p) == if p.bit.Some? then Err(BitOfNonInteger) else Ok(Text(text))
  {
    hide OnWire, Ordered, IsPadding, Trimmed;
    OrderIsUndone(wire, text + padding, p);
    PaddingIsTrimmed(text, padding);
  }

  // ---------- through the plan ----------

  /** Register `r` of a point holds the bytes of a value that the order puts there. */
  predicate HeldAt(mem: Memory, p: Point, value: seq<byte>, r: nat) {
    var hi, lo := Place(p, |value|, 2 * r), Place(p, |value|, 2 * r + 1);
    && 0 <= hi < |value| && 0 <= lo < |value|
    && mem.words(p.functionCode, p.address + r) == (value[hi], value[lo])
  }

  predicate Holds(mem: Memory, p: Point, value: seq<byte>) {
    |value| == 2 * Width(p) && forall r :: 0 <= r < Width(p) ==> HeldAt(mem, p, value, r)
  }

  lemma HeldIsOnWire(mem: Memory, p: Point, value: seq<byte>)
    requires Holds(mem, p, value)
    ensures OnWire(WordData(mem, p.functionCode, p.address, Width(p)), value, p)
  {
    hide Place, Width;
    var wire := WordData(mem, p.functionCode, p.address, Width(p));
    forall i | 0 <= i < |wire|
      ensures 0 <= Place(p, |value|, i) < |value| && wire[i] == value[Place(p, |value|, i)]
    {
      assert HeldAt(mem, p, value, i / 2);
      assert i == 2 * (i / 2) || i == 2 * (i / 2) + 1;
    }
  }

  /** A number in the registers of a planned point arrives, scaled, in the message of some block, whatever else the
      device holds, if the other points of the block are decodable. */
  lemma PlannedNumberArrives(
    mem: Memory, points: seq<Point>, blocks: seq<Block>, p: Point, value: seq<byte>, n: int, transaction: nat,
    unit: byte)
    returns (b: Block)
    requires DistinctIdentifiers(points) && p in points && transaction < 65536 && PlanOf(blocks, points)
    requires p.functionCode >= 3 && (IsUnsigned(p.dataType) || IsSigned(p.dataType)) && p.bit.None?
    requires Holds(mem, p, value) && Encodes(value, n, p.dataType)
    ensures b in blocks && BlockGroup(b) == GroupOf(p) && Inside(p, b)
    ensures
      BlockDecodable(b, points) ==>
        var m := Message(mem, b, transaction, unit, points);
        m.Ok? && p.identifier in m.value && m.value[p.identifier] == Number(n as real * Factor(p) + p.offset)
  {
    hide PlanOf, Message, Inside, Decoded, OnWire, Holds, Encodes, BlockDecodable;
    b := PlanReadsEveryPoint(mem, points, blocks, p, transaction, unit);
    HeldIsOnWire(mem, p, value);
    IntegerIsRead(WordData(mem, p.functionCode, p.address, Width(p)), value, p, n);
  }
}
