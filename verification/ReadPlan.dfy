/** The greedy read planner `CompileModbusReadBlocks` of internal/core/point_table.go.

    A plan is judged by what it reads, not by how it was found: every point lies whole inside a block, every address
    read belongs to a point, and no plan with these two properties and legal block sizes has fewer blocks. */
module ReadPlan {
  import opened Common

  /** The fields of a point that planning and decoding use. */
  datatype Point = Point(
    identifier: string, functionCode: int, address: int, dataType: string, registerCount: int,
    byteOrder: string, wordOrder: string, bit: Option<int>, scale: real, offset: real, pollIntervalSec: int)

  datatype Block = Block(functionCode: int, startAddress: int, quantity: int, pollIntervalSec: int)

  /** Points are planned together when they share a function code and a polling interval. */
  datatype Group = Group(functionCode: int, interval: int)

  function IntervalOf(p: Point): int {
    if p.pollIntervalSec <= 0 then 10 else p.pollIntervalSec
  }

  function GroupOf(p: Point): Group {
    Group(p.functionCode, IntervalOf(p))
  }

  function BlockGroup(b: Block): Group {
    Group(b.functionCode, b.pollIntervalSec)
  }

  function Width(p: Point): (w: int)
    ensures w > 0
  {
    if p.functionCode <= 2 then 1 else if p.registerCount > 0 then p.registerCount else 1
  }

  function End(p: Point): int {
    p.address + Width(p)
  }

  function Limit(functionCode: int): int {
    if functionCode <= 2 then 2000 else 125
  }

  function BlockEnd(b: Block): int {
    b.startAddress + b.quantity
  }

  // ---------- what a plan promises ----------

  predicate Inside(p: Point, b: Block) {
    b.startAddress <= p.address && End(p) <= BlockEnd(b)
  }

  predicate Touches(p: Point, a: int) {
    p.address <= a < End(p)
  }

  ghost predicate Covered(p: Point, blocks: seq<Block>) {
    exists b :: b in blocks && Inside(p, b)
  }

  ghost predicate Covers(blocks: seq<Block>, ps: seq<Point>) {
    forall p :: p in ps ==> Covered(p, blocks)
  }

  ghost predicate Used(a: int, ps: seq<Point>) {
    exists p :: p in ps && Touches(p, a)
  }

  /** Every address the block reads belongs to a point. */
  ghost predicate GapFree(b: Block, ps: seq<Point>) {
    forall a :: b.startAddress <= a < BlockEnd(b) ==> Used(a, ps)
  }

  /** Any way at all to read the points: whole points, no gaps, block sizes the protocol allows. */
  ghost predicate Competes(blocks: seq<Block>, ps: seq<Point>, limit: int) {
    && Covers(blocks, ps)
    && forall b :: b in blocks ==> GapFree(b, ps) && b.quantity <= limit
  }

  predicate AllFit(ps: seq<Point>, limit: int) {
    forall p :: p in ps ==> Width(p) <= limit
  }

  ghost predicate GoodPlan(blocks: seq<Block>, ps: seq<Point>, limit: int) {
    && Covers(blocks, ps)
    && (forall b :: b in blocks ==> b.quantity > 0 && GapFree(b, ps))
    && ((forall b :: b in blocks ==> b.quantity <= limit) <==> AllFit(ps, limit))
    && forall other :: Competes(other, ps, limit) ==> |blocks| <= |other|
  }

  // ---------- one group ----------

  predicate SortedByAddress(ps: seq<Point>) {
    forall i, j :: 0 <= i < j < |ps| ==> ps[i].address <= ps[j].address
  }

  /** The point at `l` cannot share a legal gap-free block with the point at `k` or anything before it. */
  ghost predicate Splits(ps: seq<Point>, k: nat, l: nat, limit: int)
    requires k < l < |ps|
  {
    && (forall i :: 0 <= i < l ==> End(ps[i]) < End(ps[l]))
    && ((forall i :: 0 <= i < l ==> End(ps[i]) < ps[l].address) || End(ps[l]) - ps[k].address > limit)
  }

  /** The first points of successive blocks. */
  ghost predicate Leaders(ps: seq<Point>, leaders: seq<nat>, limit: int) {
    && (forall j :: 0 <= j < |leaders| ==> leaders[j] < |ps|)
    && (forall i, j :: 0 <= i < j < |leaders| ==> leaders[i] < leaders[j])
    && (AllFit(ps, limit) ==> forall j :: 0 < j < |leaders| ==> Splits(ps, leaders[j - 1], leaders[j], limit))
  }

  /** The first `i` points are planned: into the blocks `out`, and into the block still open. */
  ghost predicate Progress(ps: seq<Point>, out: seq<Block>, open: Block, leaders: seq<nat>, i: nat) {
    var limit, g := Limit(open.functionCode), BlockGroup(open);
    && i <= |ps| && Leaders(ps, leaders, limit)
    && |leaders| == |out| + 1 && leaders[|out|] < i && open.startAddress == ps[leaders[|out|]].address
    && (forall b :: b in out + [open] ==> b.quantity > 0 && BlockGroup(b) == g && GapFree(b, ps))
    && (forall k :: 0 <= k < i ==> Covered(ps[k], out) || Inside(ps[k], open))
    && (AllFit(ps, limit) ==> forall b :: b in out + [open] ==> b.quantity <= limit)
    && (AllFit(ps, limit) ==> forall k :: 0 <= k < i ==> End(ps[k]) <= BlockEnd(open))
  }

  method PlanGroup(ps: seq<Point>, g: Group) returns (out: seq<Block>)
    requires ps != [] && SortedByAddress(ps)
    requires forall p :: p in ps ==> GroupOf(p) == g
    ensures forall b :: b in out ==> BlockGroup(b) == g
    ensures GoodPlan(out, ps, Limit(g.functionCode))
  {
    hide Progress, GoodPlan, Width;
    var limit := Limit(g.functionCode);
    out := [];
    var start, end := ps[0].address, End(ps[0]);
    ghost var leaders: seq<nat> := [0];
    OpenFirst(ps, g);
    for i := 1 to |ps|
      invariant Progress(ps, out, Block(g.functionCode, start, end - start, g.interval), leaders, i)
    {
      var p := ps[i];
      var pEnd := End(p);
      ghost var open := Block(g.functionCode, start, end - start, g.interval);
      if p.address > end || pEnd - start > limit {
        Flush(ps, out, open, leaders, i);
        out := out + [Block(g.functionCode, start, end - start, g.interval)];
        leaders := leaders + [i];
        start, end := p.address, pEnd;
      } else if pEnd > end {
        Extend(ps, out, open, leaders, i);
        end := pEnd;
      } else {
        Keep(ps, out, open, leaders, i);
      }
    }
    Finish(ps, out, Block(g.functionCode, start, end - start, g.interval), leaders);
    out := out + [Block(g.functionCode, start, end - start, g.interval)];
  }

  lemma OpenFirst(ps: seq<Point>, g: Group)
    requires ps != []
    ensures Progress(ps, [], Block(g.functionCode, ps[0].address, End(ps[0]) - ps[0].address, g.interval), [0], 1)
  {
    PointIsGapFree(ps[0], g, ps);
  }

  lemma Flush(ps: seq<Point>, out: seq<Block>, open: Block, leaders: seq<nat>, i: nat)
    requires Progress(ps, out, open, leaders, i) && i < |ps| && SortedByAddress(ps)
    requires ps[i].address > BlockEnd(open) || End(ps[i]) - open.startAddress > Limit(open.functionCode)
    ensures Progress(ps, out + [open],
                     Block(open.functionCode, ps[i].address, End(ps[i]) - ps[i].address, open.pollIntervalSec),
                     leaders + [i], i + 1)
  {
    CoveredByMore(ps, out, open, i);
    NextLeader(ps, leaders, i, BlockEnd(open), Limit(open.functionCode));
    PointIsGapFree(ps[i], BlockGroup(open), ps);
  }

  lemma Extend(ps: seq<Point>, out: seq<Block>, open: Block, leaders: seq<nat>, i: nat)
    requires Progress(ps, out, open, leaders, i) && i < |ps| && SortedByAddress(ps)
    requires ps[i].address <= BlockEnd(open) < End(ps[i]) <= open.startAddress + Limit(open.functionCode)
    ensures Progress(ps, out, open.(quantity := End(ps[i]) - open.startAddress), leaders, i + 1)
  {
    assert open in out + [open];
    ExtendsGapFree(open, ps[i], ps);
  }

  lemma Keep(ps: seq<Point>, out: seq<Block>, open: Block, leaders: seq<nat>, i: nat)
    requires Progress(ps, out, open, leaders, i) && i < |ps| && SortedByAddress(ps)
    requires End(ps[i]) <= BlockEnd(open)
    ensures Progress(ps, out, open, leaders, i + 1)
  {
  }

  lemma Finish(ps: seq<Point>, out: seq<Block>, open: Block, leaders: seq<nat>)
    requires Progress(ps, out, open, leaders, |ps|) && SortedByAddress(ps)
    ensures GoodPlan(out + [open], ps, Limit(open.functionCode))
    ensures forall b :: b in out + [open] ==> BlockGroup(b) == BlockGroup(open)
  {
    var limit := Limit(open.functionCode);
    CoveredByMore(ps, out, open, |ps|);
    FitsIfBlocksFit(out + [open], ps, limit);
    forall other | Competes(other, ps, limit)
      ensures |out| + 1 <= |other|
    {
      CompetitorIsNoShorter(ps, leaders, other, limit);
    }
  }

  lemma NextLeader(ps: seq<Point>, leaders: seq<nat>, i: nat, end: int, limit: int)
    requires Leaders(ps, leaders, limit) && leaders != [] && leaders[|leaders| - 1] < i < |ps|
    requires ps[i].address > end || End(ps[i]) - ps[leaders[|leaders| - 1]].address > limit
    requires AllFit(ps, limit) ==> forall k :: 0 <= k < i ==> End(ps[k]) <= end
    requires AllFit(ps, limit) ==> end - ps[leaders[|leaders| - 1]].address <= limit
    ensures Leaders(ps, leaders + [i], limit)
  {
    var more := leaders + [i];
    if AllFit(ps, limit) {
      assert Splits(ps, leaders[|leaders| - 1], i, limit);
      forall j | 0 < j < |more|
        ensures Splits(ps, more[j - 1], more[j], limit)
      {
        if j < |leaders| { assert Splits(ps, leaders[j - 1], leaders[j], limit); }
      }
    }
  }

  lemma CoveredByMore(ps: seq<Point>, out: seq<Block>, open: Block, n: nat)
    requires n <= |ps|
    ensures forall k :: 0 <= k < n && (Covered(ps[k], out) || Inside(ps[k], open)) ==> Covered(ps[k], out + [open])
  {
  }

  lemma PointIsGapFree(p: Point, g: Group, ps: seq<Point>)
    requires p in ps
    ensures GapFree(Block(g.functionCode, p.address, End(p) - p.address, g.interval), ps)
  {
  }

  lemma ExtendsGapFree(b: Block, p: Point, ps: seq<Point>)
    requires p in ps && GapFree(b, ps) && p.address <= BlockEnd(b) <= End(p)
    ensures GapFree(b.(quantity := End(p) - b.startAddress), ps)
  {
  }

  lemma FitsIfBlocksFit(blocks: seq<Block>, ps: seq<Point>, limit: int)
    requires Covers(blocks, ps)
    ensures (forall b :: b in blocks ==> b.quantity <= limit) ==> AllFit(ps, limit)
  {
  }

  // ---------- optimality ----------

  /** Two leaders never share a block of a competing plan. */
  lemma LeadersNeedOwnBlocks(ps: seq<Point>, leaders: seq<nat>, i: nat, j: nat, b: Block, limit: int)
    requires SortedByAddress(ps) && Leaders(ps, leaders, limit) && AllFit(ps, limit)
    requires i < j < |leaders|
    requires GapFree(b, ps) && b.quantity <= limit
    ensures !(Inside(ps[leaders[i]], b) && Inside(ps[leaders[j]], b))
  {
    var first, next, last := ps[leaders[i]], ps[leaders[i + 1]], ps[leaders[j]];
    if Inside(first, b) && Inside(last, b) {
      assert Splits(ps, leaders[i], leaders[i + 1], limit);
      assert End(next) <= End(last) by {
        if i + 1 < j { assert Splits(ps, leaders[j - 1], leaders[j], limit); }
      }
      assert next.address <= last.address;
      // The address just before the next leader is read by the block but belongs to no point.
      if forall k :: 0 <= k < leaders[i + 1] ==> End(ps[k]) < next.address {
        GapBefore(ps, leaders[i + 1]);
      }
      assert false;
    }
  }

  lemma GapBefore(ps: seq<Point>, l: nat)
    requires SortedByAddress(ps) && l < |ps|
    requires forall k :: 0 <= k < l ==> End(ps[k]) < ps[l].address
    ensures !Used(ps[l].address - 1, ps)
  {
  }

  lemma CompetitorIsNoShorter(ps: seq<Point>, leaders: seq<nat>, other: seq<Block>, limit: int)
    requires SortedByAddress(ps) && Leaders(ps, leaders, limit)
    requires Competes(other, ps, limit)
    ensures |leaders| <= |other|
  {
    FitsIfBlocksFit(other, ps, limit);
    var home := seq(|leaders|, j requires 0 <= j < |leaders| => HomeOf(ps[leaders[j]], other, ps));
    forall i, j | 0 <= i < j < |home|
      ensures home[i] != home[j]
    {
      LeadersNeedOwnBlocks(ps, leaders, i, j, other[home[i]], limit);
    }
    Pigeonhole(home, |other|);
  }

  ghost function HomeOf(p: Point, blocks: seq<Block>, ps: seq<Point>): (h: nat)
    requires p in ps && Covers(blocks, ps)
    ensures h < |blocks| && Inside(p, blocks[h])
  {
    var b :| b in blocks && Inside(p, b);
    var h :| 0 <= h < |blocks| && blocks[h] == b;
    h
  }

  lemma {:induction false} Pigeonhole(homes: seq<nat>, n: nat)
    requires forall i :: 0 <= i < |homes| ==> homes[i] < n
    requires forall i, j :: 0 <= i < j < |homes| ==> homes[i] != homes[j]
    ensures |homes| <= n
    decreases n
  {
    if homes == [] {
      return;
    }
    assert homes[0] < n;
    if i :| 0 <= i < |homes| && homes[i] == n - 1 {
      Pigeonhole(homes[..i] + homes[i + 1..], n - 1);
    } else {
      Pigeonhole(homes, n - 1);
    }
  }

  // ---------- the whole table ----------

  /** The points of a group, in table order. */
  function Members(points: seq<Point>, g: Group): (ps: seq<Point>)
    ensures forall p :: p in ps <==> p in points && GroupOf(p) == g
  {
    if points == [] then []
    else
      var last := points[|points| - 1];
      assert points == points[..|points| - 1] + [last];
      Members(points[..|points| - 1], g) + (if GroupOf(last) == g then [last] else [])
  }

  /** The blocks planned for a group. */
  function BlocksOf(blocks: seq<Block>, g: Group): (bs: seq<Block>)
    ensures forall b :: b in bs <==> b in blocks && BlockGroup(b) == g
  {
    if blocks == [] then []
    else
      var last := blocks[|blocks| - 1];
      assert blocks == blocks[..|blocks| - 1] + [last];
      BlocksOf(blocks[..|blocks| - 1], g) + (if BlockGroup(last) == g then [last] else [])
  }

  lemma {:induction false} BlocksOfConcat(a: seq<Block>, b: seq<Block>, g: Group, h: Group)
    requires forall x :: x in b ==> BlockGroup(x) == h
    ensures BlocksOf(a + b, g) == BlocksOf(a, g) + (if g == h then b else [])
  {
    if b == [] {
      assert a + b == a;
    } else {
      assert (a + b)[..|a + b| - 1] == a + b[..|b| - 1];
      BlocksOfConcat(a, b[..|b| - 1], g, h);
      assert b == b[..|b| - 1] + [b[|b| - 1]];
    }
  }

  /** A good plan for some points is a good plan for the same points in any order. */
  lemma SamePointsSamePlan(blocks: seq<Block>, ps: seq<Point>, qs: seq<Point>, limit: int)
    requires GoodPlan(blocks, ps, limit)
    requires forall p :: p in ps <==> p in qs
    ensures GoodPlan(blocks, qs, limit)
  {
    assert forall a :: Used(a, ps) <==> Used(a, qs);
    forall other | Competes(other, qs, limit)
      ensures |blocks| <= |other|
    {
      assert Competes(other, ps, limit);
    }
  }

  function Insert(p: Point, sorted: seq<Point>): (r: seq<Point>)
    requires SortedByAddress(sorted)
    ensures SortedByAddress(r) && |r| == |sorted| + 1
    ensures forall q :: q in r <==> q == p || q in sorted
  {
    if sorted == [] || p.address <= sorted[0].address then [p] + sorted
    else
      var rest := Insert(p, sorted[1..]);
      assert forall j :: 0 <= j < |rest| ==> rest[j] in rest;
      [sorted[0]] + rest
  }

  /** `sort.Slice` by address, as one of its possible outcomes. */
  function SortByAddress(ps: seq<Point>): (sorted: seq<Point>)
    ensures SortedByAddress(sorted) && |sorted| == |ps|
    ensures forall p :: p in sorted <==> p in ps
  {
    if ps == [] then [] else Insert(ps[0], SortByAddress(ps[1..]))
  }

  predicate Supported(p: Point) {
    1 <= p.functionCode <= 4
  }

  method GroupPoints(points: seq<Point>) returns (r: Result<map<Group, seq<Point>>, Point>)
    ensures r.Ok? <==> forall p :: p in points ==> Supported(p)
    ensures r.Err? ==> r.error in points && !Supported(r.error)
    ensures r.Ok? ==> forall g :: g in r.value <==> Members(points, g) != []
    ensures r.Ok? ==> forall g :: g in r.value ==> r.value[g] == Members(points, g)
  {
    var grouped: map<Group, seq<Point>> := map[];
    for i := 0 to |points|
      invariant forall p :: p in points[..i] ==> Supported(p)
      invariant forall g :: g in grouped <==> Members(points[..i], g) != []
      invariant forall g :: g in grouped ==> grouped[g] == Members(points[..i], g)
    {
      var p := points[i];
      assert points[..i + 1][..i] == points[..i] && points[..i + 1] == points[..i] + [p];
      if !Supported(p) {
        return Err(p);
      }
      var k := GroupOf(p);
      grouped := grouped[k := (if k in grouped then grouped[k] else []) + [p]];
    }
    assert points[..|points|] == points;
    return Ok(grouped);
  }

  method PlanSorted(members: seq<Point>, g: Group) returns (planned: seq<Block>)
    requires members != [] && forall p :: p in members ==> GroupOf(p) == g
    ensures forall b :: b in planned ==> BlockGroup(b) == g
    ensures GoodPlan(planned, members, Limit(g.functionCode))
  {
    var ps := SortByAddress(members);
    planned := PlanGroup(ps, g);
    SamePointsSamePlan(planned, ps, members, Limit(g.functionCode));
  }

  /** The plan of every group is good; a table with an unsupported function code has no plan. */
  method CompileModbusReadBlocks(points: seq<Point>) returns (r: Result<seq<Block>, Point>)
    ensures r.Ok? <==> forall p :: p in points ==> Supported(p)
    ensures r.Err? ==> r.error in points && !Supported(r.error)
    ensures r.Ok? ==> forall b :: b in r.value ==> Members(points, BlockGroup(b)) != []
    ensures r.Ok? ==> forall g :: Members(points, g) != [] ==>
      GoodPlan(BlocksOf(r.value, g), Members(points, g), Limit(g.functionCode))
  {
    hide GoodPlan, Members, BlocksOf, Supported;
    var groups := GroupPoints(points);
    if groups.Err? {
      return Err(groups.error);
    }
    var grouped := groups.value;
    var todo := grouped.Keys;
    var out := [];
    NoBlocks();
    while todo != {}
      invariant todo <= grouped.Keys
      invariant forall b :: b in out ==> BlockGroup(b) in grouped
      invariant forall g :: g in todo ==> BlocksOf(out, g) == []
      invariant forall g :: g in grouped && g !in todo ==>
        GoodPlan(BlocksOf(out, g), grouped[g], Limit(g.functionCode))
      decreases todo
    {
      var k :| k in todo;
      var planned := PlanSorted(grouped[k], k);
      JoinPlans(out, planned, k);
      out := out + planned;
      todo := todo - {k};
    }
    return Ok(out);
  }

  lemma JoinPlans(out: seq<Block>, planned: seq<Block>, k: Group)
    requires forall b :: b in planned ==> BlockGroup(b) == k
    ensures forall g :: g != k ==> BlocksOf(out + planned, g) == BlocksOf(out, g)
    ensures BlocksOf(out, k) == [] ==> BlocksOf(out + planned, k) == planned
  {
    hide BlocksOf;
    forall g
      ensures BlocksOf(out + planned, g) == BlocksOf(out, g) + (if g == k then planned else [])
    {
      BlocksOfConcat(out, planned, g, k);
    }
  }

  lemma NoBlocks()
    ensures forall g :: BlocksOf([], g) == []
  {
  }
}
