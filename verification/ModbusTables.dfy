/** Whole point tables: which tables the plan of internal/core/point_table.go and the parser of
    internal/parser/modbus_tcp.go read completely, for any device memory. */
module ModbusTables {
  import opened Common
  import opened ReadPlan
  import opened ModbusWire
  import opened ModbusDecode

  // ---------- one point ----------

  predicate KnownType(dataType: string) {
    || dataType == "string" || dataType == "bool" || dataType == "bits"
    || dataType == "uint16" || dataType == "uint32" || dataType == "uint64"
    || dataType == "int16" || dataType == "int32" || dataType == "int64"
    || dataType == "float32" || dataType == "float64"
  }

  /** A known type that fits the registers, and a bit index only on an unsigned integer. */
  predicate Decodable(p: Point) {
    && KnownType(p.dataType) && ElementSize(p.dataType) <= 2 * Width(p)
    && (p.bit.Some? ==> p.dataType == "uint16" || p.dataType == "uint32" || p.dataType == "uint64")
  }

  predicate AllOnes(data: seq<byte>) {
    forall i :: 0 <= i < |data| ==> data[i] == 0xff
  }

  lemma {:induction false} UnsignedBound(data: seq<byte>)
    ensures Unsigned(data) < Pow2(8 * |data|)
  {
    if data != [] {
      UnsignedBound(data[..|data| - 1]);
      EightMore(8 * (|data| - 1));
    }
  }

  lemma EightMore(n: nat)
    ensures Pow2(n + 8) == 256 * Pow2(n)
  {
    hide Pow2;
    Doubles(n);
    Doubles(n + 1);
    Doubles(n + 2);
    Doubles(n + 3);
    Doubles(n + 4);
    Doubles(n + 5);
    Doubles(n + 6);
    Doubles(n + 7);
  }

  lemma Doubles(n: nat)
    ensures Pow2(n + 1) == 2 * Pow2(n)
  {
  }

  lemma OnesAreNegative(data: seq<byte>)
    requires data != [] && AllOnes(data)
    ensures Signed(data) < 0
  {
    UnsignedBound(data);
    assert data[0] == 0xff;
  }

  lemma OnesStayOnes(data: seq<byte>, p: Point)
    requires AllOnes(data)
    ensures AllOnes(Ordered(data, p))
  {
  }

  /** A point decodes from whatever its registers hold, if and only if it is decodable; all ones tell. */
  lemma DecodesExactlyWhen(p: Point, data: seq<byte>)
    requires |data| == 2 * Width(p)
    ensures Decodable(p) ==> Decoded(data, p).Ok?
    ensures !Decodable(p) && AllOnes(data) ==> Decoded(data, p).Err?
  {
    hide Ordered, Unsigned, Signed;
    var ordered := Ordered(data, p);
    if !Decodable(p) && AllOnes(data) {
      OnesStayOnes(data, p);
      if |ordered| >= 2 { OnesAreNegative(ordered[..2]); }
      if |ordered| >= 4 { OnesAreNegative(ordered[..4]); }
      if |ordered| >= 8 { OnesAreNegative(ordered[..8]); }
    }
  }

  // ---------- one block ----------

  /** Every register point of the table that lies whole in the block is decodable. */
  predicate BlockDecodable(b: Block, points: seq<Point>) {
    forall q :: q in points && q.functionCode == b.functionCode && q.functionCode >= 3 && Inside(q, b) ==> Decodable(q)
  }

  predicate HoldsPoint(b: Block, points: seq<Point>) {
    exists q :: q in points && q.functionCode == b.functionCode && Inside(q, b)
  }

  lemma FailsExactlyWhen(mem: Memory, b: Block, q: Point)
    requires Readable(b)
    ensures
      Failing(b.functionCode, b.startAddress, Data(mem, b), q) <==>
      q.functionCode == b.functionCode && b.functionCode >= 3 && Inside(q, b) && ReadAlone(mem, q).Err?
  {
    hide ReadAlone, Decoded, Data;
    if q.functionCode != b.functionCode {
      OtherCodeIsSkipped(b.functionCode, b.startAddress, Data(mem, b), q);
    } else if b.functionCode <= 2 {
      CoilsNeverFail(b.functionCode, b.startAddress, Data(mem, b), q);
    } else {
      hide PointValue;
      RegisterSliceIsExact(mem, b, q);
    }
  }

  /** A message arrives if and only if no point in the block fails to decode, given that it has a point at all. */
  lemma ArrivesExactlyWhen(mem: Memory, b: Block, points: seq<Point>, transaction: nat, unit: byte)
    requires DistinctIdentifiers(points) && transaction < 65536 && Readable(b) && HoldsPoint(b, points)
    ensures
      Message(mem, b, transaction, unit, points).Ok? <==>
      forall q :: q in points && q.functionCode == b.functionCode && b.functionCode >= 3 && Inside(q, b) ==>
                    ReadAlone(mem, q).Ok?
    ensures
      var m := Message(mem, b, transaction, unit, points);
      m.Ok? ==>
        forall q :: q in points && q.functionCode == b.functionCode && Inside(q, b) ==>
                      q.identifier in m.value && Ok(m.value[q.identifier]) == ReadAlone(mem, q)
  {
    hide Message, Parsed, Collected, PointValue, ReadAlone, Data, Inside;
    AnswerParses(mem, b, transaction, unit, points);
    CollectedMeaning(b.functionCode, b.startAddress, Data(mem, b), points);
    forall q | q in points
      ensures
        Failing(b.functionCode, b.startAddress, Data(mem, b), q) <==>
        q.functionCode == b.functionCode && b.functionCode >= 3 && Inside(q, b) && ReadAlone(mem, q).Err?
    {
      FailsExactlyWhen(mem, b, q);
    }
    forall q | q in points && q.functionCode == b.functionCode && Inside(q, b)
      ensures PointValue(b.functionCode, b.startAddress, Data(mem, b), q) == Some(ReadAlone(mem, q))
    {
      BlockRefinesPoint(mem, b, q);
    }
  }

  ghost predicate HoldsOnes(mem: Memory) {
    forall f, a :: mem.words(f, a) == (0xff, 0xff)
  }

  lemma ReadAloneOk(mem: Memory, q: Point)
    ensures q.functionCode <= 2 || Decodable(q) ==> ReadAlone(mem, q).Ok?
    ensures q.functionCode >= 3 && !Decodable(q) && HoldsOnes(mem) ==> ReadAlone(mem, q).Err?
  {
    hide Decoded, Decodable;
    if q.functionCode >= 3 {
      DecodesExactlyWhen(q, WordData(mem, q.functionCode, q.address, Width(q)));
    }
  }

  /** The message of a block arrives whatever the device holds, if and only if every register point in it is decodable. */
  lemma BlockDecodesExactlyWhen(b: Block, points: seq<Point>, transaction: nat, unit: byte)
    requires DistinctIdentifiers(points) && transaction < 65536 && Readable(b) && HoldsPoint(b, points)
    ensures (forall mem :: Message(mem, b, transaction, unit, points).Ok?) <==> BlockDecodable(b, points)
  {
    hide Message, ReadAlone, Decodable, Inside;
    if BlockDecodable(b, points) {
      forall mem
        ensures Message(mem, b, transaction, unit, points).Ok?
      {
        ArrivesExactlyWhen(mem, b, points, transaction, unit);
        forall q | q in points && q.functionCode == b.functionCode && b.functionCode >= 3 && Inside(q, b)
          ensures ReadAlone(mem, q).Ok?
        {
          ReadAloneOk(mem, q);
        }
      }
    }
    if q :| q in points && q.functionCode == b.functionCode && q.functionCode >= 3 && Inside(q, b) && !Decodable(q) {
      var mem := Memory((_, _) => true, (_, _) => (0xff, 0xff));
      ReadAloneOk(mem, q);
      ArrivesExactlyWhen(mem, b, points, transaction, unit);
      assert !Message(mem, b, transaction, unit, points).Ok?;
    }
  }

  // ---------- the whole plan ----------

  /** The plan of a table: good for every group, nothing else, and all of it readable. */
  ghost predicate PlanOf(blocks: seq<Block>, points: seq<Point>) {
    && (forall g :: Members(points, g) != [] ==> GoodPlan(BlocksOf(blocks, g), Members(points, g), Limit(g.functionCode)))
    && (forall b :: b in blocks ==> Readable(b) && Members(points, BlockGroup(b)) != [])
  }

  lemma CompetesWithout(blocks: seq<Block>, ps: seq<Point>, limit: int, i: nat)
    requires Competes(blocks, ps, limit) && i < |blocks| && forall p :: p in ps ==> !Inside(p, blocks[i])
    ensures Competes(blocks[..i] + blocks[i + 1..], ps, limit)
  {
    var others := blocks[..i] + blocks[i + 1..];
    assert forall b :: b in others ==> b in blocks;
    forall p | p in ps
      ensures Covered(p, others)
    {
      assert Covered(p, blocks);
      var b :| b in blocks && Inside(p, b);
      var k :| 0 <= k < |blocks| && blocks[k] == b;
      assert if k < i then others[k] == b else others[k - 1] == b;
    }
  }

  lemma GoodPlanIsShortest(blocks: seq<Block>, ps: seq<Point>, limit: int, others: seq<Block>)
    requires GoodPlan(blocks, ps, limit) && Competes(others, ps, limit)
    ensures |blocks| <= |others|
  {
  }

  /** A good plan has no block that could be left out, so every block holds a whole point. */
  lemma EveryBlockHoldsAPoint(blocks: seq<Block>, ps: seq<Point>, limit: int, i: nat)
    requires GoodPlan(blocks, ps, limit) && i < |blocks| && forall b :: b in blocks ==> b.quantity <= limit
    ensures exists p :: p in ps && Inside(p, blocks[i])
  {
    assert Competes(blocks, ps, limit);
    hide GoodPlan, Competes;
    if forall p :: p in ps ==> !Inside(p, blocks[i]) {
      CompetesWithout(blocks, ps, limit, i);
      GoodPlanIsShortest(blocks, ps, limit, blocks[..i] + blocks[i + 1..]);
      assert false;
    }
  }

  lemma PlannedBlocksHoldPoints(blocks: seq<Block>, points: seq<Point>, b: Block)
    requires PlanOf(blocks, points) && b in blocks
    ensures HoldsPoint(b, points)
  {
    hide GoodPlan;
    var g := BlockGroup(b);
    var own := BlocksOf(blocks, g);
    var i :| 0 <= i < |own| && own[i] == b;
    EveryBlockHoldsAPoint(own, Members(points, g), Limit(g.functionCode), i);
    var p :| p in Members(points, g) && Inside(p, b);
    assert GroupOf(p) == g;
  }

  lemma PlanCovers(blocks: seq<Block>, points: seq<Point>, p: Point) returns (b: Block)
    requires PlanOf(blocks, points) && p in points
    ensures b in blocks && BlockGroup(b) == GroupOf(p) && Inside(p, b)
  {
    assert p in Members(points, GroupOf(p));
    assert Covered(p, BlocksOf(blocks, GroupOf(p)));
    b :| b in BlocksOf(blocks, GroupOf(p)) && Inside(p, b);
  }

  /** Every register point of the table is decodable. */
  predicate TableDecodable(points: seq<Point>) {
    forall q :: q in points && q.functionCode >= 3 ==> Decodable(q)
  }

  ghost predicate EveryMessageArrives(blocks: seq<Block>, points: seq<Point>, transaction: nat, unit: byte)
    requires forall b :: b in blocks ==> Readable(b)
  {
    forall mem, b :: b in blocks ==> Message(mem, b, transaction, unit, points).Ok?
  }

  /** For any register memory: every point of a planned table is read, whole, by a block of its own group. If the register
      points of that block are decodable, its message arrives and carries the value the point has when read alone. */
  lemma PlanReadsEveryPoint(mem: Memory, points: seq<Point>, blocks: seq<Block>, p: Point, transaction: nat, unit: byte)
    returns (b: Block)
    requires DistinctIdentifiers(points) && p in points && transaction < 65536 && PlanOf(blocks, points)
    ensures b in blocks && BlockGroup(b) == GroupOf(p) && Inside(p, b)
    ensures
      BlockDecodable(b, points) ==>
        var m := Message(mem, b, transaction, unit, points);
        m.Ok? && p.identifier in m.value && Ok(m.value[p.identifier]) == ReadAlone(mem, p)
  {
    b := PlanCovers(blocks, points, p);
    hide PlanOf, Message, ReadAlone, Inside;
    assert Readable(b) by { PlannedIsReadable(blocks, points, b); }
    if BlockDecodable(b, points) {
      assert HoldsPoint(b, points);
      BlockDecodesExactlyWhen(b, points, transaction, unit);
      ArrivesExactlyWhen(mem, b, points, transaction, unit);
    }
  }

  lemma PlannedIsReadable(blocks: seq<Block>, points: seq<Point>, b: Block)
    requires PlanOf(blocks, points) && b in blocks
    ensures Readable(b)
  {
  }

  /** Whatever the device holds, every message of the plan arrives, if and only if every register point is decodable. */
  lemma PlanDecodesExactlyWhen(points: seq<Point>, blocks: seq<Block>, transaction: nat, unit: byte)
    requires DistinctIdentifiers(points) && transaction < 65536 && PlanOf(blocks, points)
    ensures forall b :: b in blocks ==> Readable(b)
    ensures EveryMessageArrives(blocks, points, transaction, unit) <==> TableDecodable(points)
  {
    assert forall b :: b in blocks ==> Readable(b);
    hide PlanOf, Message, Decodable, Inside, Readable, HoldsPoint;
    forall b | b in blocks
      ensures (forall mem :: Message(mem, b, transaction, unit, points).Ok?) <==> BlockDecodable(b, points)
    {
      PlannedBlocksHoldPoints(blocks, points, b);
      BlockDecodesExactlyWhen(b, points, transaction, unit);
    }
    if EveryMessageArrives(blocks, points, transaction, unit) {
      forall q | q in points && q.functionCode >= 3
        ensures Decodable(q)
      {
        var b := PlanCovers(blocks, points, q);
        assert BlockDecodable(b, points);
      }
    }
  }

  /** One point with a bit index on a type that never has bits takes every other point of its block with it. */
  lemma NeighbourIsLost(mem: Memory, good: Point, bad: Point, transaction: nat, unit: byte)
    requires good.identifier != bad.identifier && transaction < 65536
    requires GroupOf(good) == GroupOf(bad) && 3 <= good.functionCode <= 4
    requires Decodable(good) && Width(good) == Width(bad) == 1 && bad.dataType == "bits" && bad.bit.Some?
    requires 0 <= good.address && bad.address == good.address + 1 < 65536
    ensures
      var b := Block(good.functionCode, good.address, 2, IntervalOf(good));
      && GoodPlan([b], [good, bad], Limit(b.functionCode)) && Readable(b)
      && ReadAlone(mem, good).Ok? && Message(mem, b, transaction, unit, [good, bad]).Err?
  {
    hide Message, ReadAlone, Decodable;
    var b := Block(good.functionCode, good.address, 2, IntervalOf(good));
    PairPlan(good, bad, b);
    ReadAloneOk(mem, good);
    BitsHaveNoBit(mem, bad);
    assert good in [good, bad] && bad in [good, bad] && Inside(bad, b);
    ArrivesExactlyWhen(mem, b, [good, bad], transaction, unit);
  }

  lemma BitsHaveNoBit(mem: Memory, p: Point)
    requires p.functionCode >= 3 && p.dataType == "bits" && p.bit.Some?
    ensures ReadAlone(mem, p).Err?
  {
  }

  lemma PairPlan(p: Point, q: Point, b: Block)
    requires GroupOf(p) == GroupOf(q) && 3 <= p.functionCode <= 4 && Width(p) == Width(q) == 1
    requires q.address == p.address + 1
    requires b == Block(p.functionCode, p.address, 2, IntervalOf(p))
    ensures GoodPlan([b], [p, q], Limit(b.functionCode))
  {
    var ps := [p, q];
    assert b in [b] && Inside(p, b) && Inside(q, b);
    forall x | x in ps
      ensures Covered(x, [b])
    {
    }
    forall a | b.startAddress <= a < BlockEnd(b)
      ensures Used(a, ps)
    {
      assert p in ps && q in ps;
      assert Touches(p, a) || Touches(q, a);
    }
    forall other | Competes(other, ps, Limit(b.functionCode))
      ensures 1 <= |other|
    {
      assert p in ps;
      assert Covered(p, other);
    }
  }

  // ---------- block names ----------

  /** `fc%02d_%d_%d`: function code, start and quantity name a block; the interval does not. */
  function NameOf(b: Block): (int, int, int) {
    (b.functionCode, b.startAddress, b.quantity)
  }

  /** Blocks with one name share a poll timer. Whichever of them is read, the message is the same. */
  lemma OneNameOneMessage(mem: Memory, b: Block, c: Block, transaction: nat, unit: byte, points: seq<Point>)
    requires Readable(b) && Readable(c) && NameOf(b) == NameOf(c)
    ensures Message(mem, b, transaction, unit, points) == Message(mem, c, transaction, unit, points)
  {
    assert Data(mem, b) == Data(mem, c) by {
      SameRangeSameData(mem, b, c);
    }
  }

  lemma SameRangeSameData(mem: Memory, b: Block, c: Block)
    requires Readable(b) && Readable(c) && NameOf(b) == NameOf(c)
    ensures Data(mem, b) == Data(mem, c)
  {
    hide Packed;
    if b.functionCode <= 2 {
      forall j: nat | j < ByteCount(b)
        ensures StatusByte(mem, b, j) == StatusByte(mem, c, j)
      {
      }
    }
  }
}
