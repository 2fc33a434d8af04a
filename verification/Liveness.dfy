/**
 * Live ranges and greedy coloring (src/pipeline/dag_coloring.cpp:61-160): what the coloring loop
 * computes, for any processing order, and what follows for aliasing and memory.
 */
module Liveness {
  import opened Values
  import opened Graph
  import opened Sums

  /** Members of a fused group, producer first; its head is `g[0]`. */
  type Group = seq<int>

  datatype LiveRange = LiveRange(born: int, dies: int)

  predicate Overlap(a: LiveRange, b: LiveRange) {
    a.born <= b.dies && b.born <= a.dies
  }

  /** node_level: a missing id reads as 0, as unordered_map::operator[] does. */
  function LevelOrZero(nodes: seq<Node>, i: int): int {
    if 0 <= i < |nodes| then nodes[i].level else 0
  }

  /** The group a node runs in; a node outside every group runs alone. */
  function UnitOf(groups: seq<Group>, i: int): (u: Group)
    ensures i in u
    decreases |groups|
  {
    if groups == [] then [i] else
      var g := groups[|groups| - 1];
      if i in g then g else UnitOf(groups[..|groups| - 1], i)
  }

  /** A member of a fused group counts as running at the level of the group's head. */
  function CollapsedLevel(nodes: seq<Node>, groups: seq<Group>, i: int): int {
    LevelOrZero(nodes, UnitOf(groups, i)[0])
  }

  /** Latest consumer level; ids that name no node are skipped. */
  function LastUse(nodes: seq<Node>, groups: seq<Group>, consumers: seq<int>): int
    decreases |consumers|
  {
    if consumers == [] then 0 else
      var rest := LastUse(nodes, groups, consumers[..|consumers| - 1]);
      var c := consumers[|consumers| - 1];
      if 0 <= c < |nodes| then Max(rest, CollapsedLevel(nodes, groups, c)) else rest
  }

  /** Born at the producer's level, dies at the last consumer's; an output lives to the end. */
  function RangeOf(nodes: seq<Node>, groups: seq<Group>, maxLevel: int, buf: BufferInfo): LiveRange {
    LiveRange(
      if buf.producer < 0 then 0 else CollapsedLevel(nodes, groups, buf.producer),
      if buf.consumers == [] then maxLevel else LastUse(nodes, groups, buf.consumers))
  }

  function Colorable(d: Dag, internal: set<int>): (r: set<int>)
    ensures r <= d.buffers.Keys
    ensures forall b :: b in r <==> b in d.buffers && !d.buffers[b].isExternal && b !in internal
  {
    set b | b in d.buffers && !d.buffers[b].isExternal && b !in internal
  }

  function Ranges(d: Dag, groups: seq<Group>, internal: set<int>, maxLevel: int): (r: map<int, LiveRange>)
    ensures r.Keys == Colorable(d, internal)
    ensures forall b :: b in r ==> r[b] == RangeOf(d.nodes, groups, maxLevel, d.buffers[b])
  {
    map b | b in Colorable(d, internal) :: RangeOf(d.nodes, groups, maxLevel, d.buffers[b])
  }

  lemma {:induction false} LastUseIsMax(nodes: seq<Node>, groups: seq<Group>, consumers: seq<int>)
    ensures forall c :: c in consumers && 0 <= c < |nodes| ==>
      CollapsedLevel(nodes, groups, c) <= LastUse(nodes, groups, consumers)
    ensures LastUse(nodes, groups, consumers) == 0 ||
            exists c :: c in consumers && 0 <= c < |nodes| &&
                CollapsedLevel(nodes, groups, c) == LastUse(nodes, groups, consumers)
    decreases |consumers|
  {
    if consumers != [] {
      var rest, c := consumers[..|consumers| - 1], consumers[|consumers| - 1];
      LastUseIsMax(nodes, groups, rest);
      assert consumers == rest + [c];
      assert c in consumers;
    }
  }

  // ---- the coloring loop, for an arbitrary processing order ----

  ghost predicate Order(order: seq<int>, ranges: map<int, LiveRange>) {
    && (forall i :: 0 <= i < |order| ==> order[i] in ranges)
    && (forall b :: b in ranges ==> b in order)
    && (forall i, j :: 0 <= i < j < |order| ==> order[i] != order[j])
  }

  /** The `i`-th buffer colored so far, and an earlier one it must not share with. */
  ghost predicate EarlierNeighbor(order: seq<int>, ranges: map<int, LiveRange>, k: int, n: int) {
    && 0 <= k < n < |order|
    && order[k] in ranges && order[n] in ranges
    && Overlap(ranges[order[k]], ranges[order[n]])
  }

  /** Each of the first `n` buffers got the lowest color no earlier neighbor has. */
  ghost predicate Greedy(order: seq<int>, n: int, ranges: map<int, LiveRange>, color: map<int, nat>) {
    && 0 <= n <= |order|
    && (forall i :: 0 <= i < n ==> order[i] in color)
    && (forall i, k :: 0 <= i < n && EarlierNeighbor(order, ranges, k, i) ==> color[order[k]] != color[order[i]])
    && (forall i, c :: 0 <= i < n && 0 <= c < color[order[i]] ==> ColorTaken(order, ranges, color, i, c))
  }

  ghost predicate ColorTaken(order: seq<int>, ranges: map<int, LiveRange>, color: map<int, nat>, i: int, c: int) {
    exists k :: EarlierNeighbor(order, ranges, k, i) && order[k] in color && color[order[k]] == c
  }

  /** `sizes` has one entry per color in use: the size of that color's largest buffer. */
  ghost predicate RegionsOf(s: set<int>, size: int -> nat, color: map<int, nat>, sizes: seq<nat>) {
    && (forall b :: b in s ==> b in color && color[b] < |sizes| && size(b) <= sizes[color[b]])
    && (forall c :: 0 <= c < |sizes| ==> ExactFor(s, size, color, c, sizes[c]))
  }

  ghost predicate ExactFor(s: set<int>, size: int -> nat, color: map<int, nat>, c: int, bytes: nat) {
    exists b :: b in s && b in color && color[b] == c && size(b) == bytes
  }

  ghost predicate Colored(ranges: map<int, LiveRange>, color: map<int, nat>, sizes: seq<nat>, size: int -> nat) {
    && color.Keys == ranges.Keys
    && RegionsOf(ranges.Keys, size, color, sizes)
    && exists order :: Order(order, ranges) && Greedy(order, |order|, ranges, color)
  }

  ghost predicate ColorUsed(ranges: map<int, LiveRange>, color: map<int, nat>, c: int) {
    exists b :: b in ranges && b in color && color[b] == c
  }

  ghost predicate Proper(ranges: map<int, LiveRange>, color: map<int, nat>) {
    forall a, b :: a in ranges && b in ranges && a in color && b in color && a != b && color[a] == color[b]
      ==> !Overlap(ranges[a], ranges[b])
  }

  ghost function Neighbors(ranges: map<int, LiveRange>, b: int): set<int>
    requires b in ranges
  {
    set x | x in ranges && x != b && Overlap(ranges[x], ranges[b])
  }

  lemma GreedyIsProper(order: seq<int>, ranges: map<int, LiveRange>, color: map<int, nat>)
    requires Order(order, ranges) && Greedy(order, |order|, ranges, color)
    ensures Proper(ranges, color)
  {
  }

  /** A color is never larger than the number of neighbors. */
  lemma GreedyDegreeBound(order: seq<int>, ranges: map<int, LiveRange>, color: map<int, nat>, b: int)
    requires Order(order, ranges) && Greedy(order, |order|, ranges, color) && b in ranges
    ensures color[b] <= |Neighbors(ranges, b)|
  {
    var i :| 0 <= i < |order| && order[i] == b;
    var nbColors := set x | x in Neighbors(ranges, b) && x in color :: color[x];
    forall c: nat | 0 <= c < color[b]
      ensures c in nbColors
    {
      assert ColorTaken(order, ranges, color, i, c);
      var k :| EarlierNeighbor(order, ranges, k, i) && color[order[k]] == c;
      assert order[k] in Neighbors(ranges, b);
    }
    ImageNoLarger(Neighbors(ranges, b), color, nbColors);
    InitialSegment(color[b], nbColors);
  }

  lemma {:induction false} ImageNoLarger(s: set<int>, color: map<int, nat>, image: set<nat>)
    requires image == set x | x in s && x in color :: color[x]
    ensures |image| <= |s|
    decreases |s|
  {
    if s == {} {
      assert image == {};
    } else {
      var x := Pick(s);
      var rest := set y | y in s - {x} && y in color :: color[y];
      ImageNoLarger(s - {x}, color, rest);
      assert image == if x in color then rest + {color[x]} else rest;
    }
  }

  lemma {:induction false} InitialSegment(n: nat, s: set<nat>)
    requires forall c: nat :: c < n ==> c in s
    ensures n <= |s|
  {
    if n > 0 {
      InitialSegment(n - 1, s - {n - 1});
    }
  }

  /**
   * Whatever order the buffers are processed in: overlapping buffers never share a color, the
   * colors are exactly 0..|sizes|-1 with none empty, and there are at most (maximum degree + 1).
   */
  lemma GreedyColoring(ranges: map<int, LiveRange>, color: map<int, nat>, sizes: seq<nat>, size: int -> nat,
                       maxDegree: nat)
    requires Colored(ranges, color, sizes, size)
    requires forall b :: b in ranges ==> |Neighbors(ranges, b)| <= maxDegree
    ensures Proper(ranges, color)
    ensures forall b :: b in ranges ==> color[b] < |sizes|
    ensures forall c :: 0 <= c < |sizes| ==> ColorUsed(ranges, color, c)
    ensures |sizes| <= maxDegree + 1
  {
    var order :| Order(order, ranges) && Greedy(order, |order|, ranges, color);
    GreedyIsProper(order, ranges, color);
    forall c | 0 <= c < |sizes| ensures ColorUsed(ranges, color, c) {
      assert ExactFor(ranges.Keys, size, color, c, sizes[c]);
    }
    if |sizes| > 0 {
      assert ExactFor(ranges.Keys, size, color, |sizes| - 1, sizes[|sizes| - 1]);
      var b :| b in ranges && color[b] == |sizes| - 1;
      GreedyDegreeBound(order, ranges, color, b);
    }
  }

  ghost function LiveAt(ranges: map<int, LiveRange>, level: int): set<int> {
    set b | b in ranges && ranges[b].born <= level <= ranges[b].dies
  }

  /**
   * Bytes live at any level <= bytes in all regions <= bytes of all colored buffers, and no buffer
   * is larger than the region it is placed in.
   */
  lemma MemorySandwich(ranges: map<int, LiveRange>, color: map<int, nat>, sizes: seq<nat>, size: int -> nat, level: int)
    requires Colored(ranges, color, sizes, size)
    ensures Sum(LiveAt(ranges, level), size) <= SumSeq(sizes) <= Sum(ranges.Keys, size)
    ensures forall b :: b in ranges ==> color[b] < |sizes| && size(b) <= sizes[color[b]]
  {
    assert Proper(ranges, color) by {
      var order :| Order(order, ranges) && Greedy(order, |order|, ranges, color);
      GreedyIsProper(order, ranges, color);
    }
    var c := ColorOrNone(color);
    LiveBuffersFit(ranges, color, sizes, size, level);
    forall k | 0 <= k < |sizes|
      ensures FilledBy(ranges.Keys, size, c, k, sizes[k])
    {
      assert ExactFor(ranges.Keys, size, color, k, sizes[k]);
      var x :| x in ranges.Keys && x in color && color[x] == k && size(x) == sizes[k];
      assert c(x) == k;
    }
    BinsAreFilled(ranges.Keys, size, c, sizes);
  }

  ghost function ColorOrNone(color: map<int, nat>): int -> int {
    x => if x in color then color[x] as int else -1
  }

  lemma LiveBuffersFit(ranges: map<int, LiveRange>, color: map<int, nat>, sizes: seq<nat>, size: int -> nat, level: int)
    requires RegionsOf(ranges.Keys, size, color, sizes) && Proper(ranges, color)
    ensures Sum(LiveAt(ranges, level), size) <= SumSeq(sizes)
  {
    var live, c := LiveAt(ranges, level), ColorOrNone(color);
    forall x, y | x in live && y in live && x != y ensures c(x) != c(y) {
      assert Overlap(ranges[x], ranges[y]);
    }
    DistinctColorsFit(live, size, c, sizes);
  }
}
