/**
 * The mutable DAG object: level assignment, fused groups, buffer coloring and preallocation
 * (src/pipeline/dag.cpp, src/pipeline/dag_coloring.cpp).
 */
module CompressionDag {
  import opened Values
  import opened Graph
  import opened Levels
  import opened Liveness
  import opened Placement
  import opened Sums

  ghost function SizeOf(d: Dag): int -> nat {
    b => if b in d.buffers then d.buffers[b].size else 0
  }

  /** Longer ranges come first (src/pipeline/dag_coloring.cpp:134-137). */
  ghost predicate LongestFirst(order: seq<int>, ranges: map<int, LiveRange>) {
    forall i, j :: 0 <= i < j < |order| && order[i] in ranges && order[j] in ranges ==>
      Length(ranges[order[j]]) <= Length(ranges[order[i]])
  }

  function Length(r: LiveRange): int {
    r.dies - r.born
  }

  /** Buffers of one color are all produced on one stream. */
  ghost predicate OneStreamPerColor(d: Dag, color: map<int, nat>) {
    forall a, b :: a in color && b in color && color[a] == color[b] && HasProducer(d, a) && HasProducer(d, b)
      ==> ProducerStream(d, a) == ProducerStream(d, b)
  }

  predicate HasProducer(d: Dag, b: int) {
    b in d.buffers && 0 <= d.buffers[b].producer < |d.nodes|
  }

  function ProducerStream(d: Dag, b: int): int
    requires HasProducer(d, b)
  {
    d.nodes[d.buffers[b].producer].stream
  }

  /** levels_[l] holds exactly the nodes of level l. */
  ghost predicate ListsLevels(lists: seq<seq<int>>, nodes: seq<Node>, maxLevel: int) {
    && |lists| == maxLevel + 1
    && forall l, i :: 0 <= l <= maxLevel ==> (i in lists[l] <==> OnLevel(nodes, l, i))
  }

  /** Each level lists its nodes in insertion order, so none twice. */
  ghost predicate ListedOnce(lists: seq<seq<int>>) {
    forall l, x, y :: 0 <= l < |lists| && 0 <= x < y < |lists[l]| ==> lists[l][x] < lists[l][y]
  }

  ghost predicate OnLevel(nodes: seq<Node>, l: int, i: int) {
    0 <= i < |nodes| && nodes[i].level == l
  }

  method ListByLevel(nodes: seq<Node>, maxLevel: int) returns (lists: seq<seq<int>>)
    requires maxLevel >= 0 && forall i :: 0 <= i < |nodes| ==> 0 <= nodes[i].level <= maxLevel
    ensures ListsLevels(lists, nodes, maxLevel) && ListedOnce(lists)
  {
    lists := seq(maxLevel + 1, _ => []);
    for i := 0 to |nodes|
      invariant |lists| == maxLevel + 1
      invariant forall l, n :: 0 <= l <= maxLevel ==> (n in lists[l] <==> n < i && OnLevel(nodes, l, n))
      invariant ListedOnce(lists) && forall l, x :: 0 <= l < |lists| && 0 <= x < |lists[l]| ==> lists[l][x] < i
    {
      lists := lists[nodes[i].level := lists[nodes[i].level] + [i]];
    }
  }

  /** How many of the first `n` nodes are on level `l`. */
  function CountOnLevel(nodes: seq<Node>, l: int, n: nat): nat
    requires n <= |nodes|
  {
    if n == 0 then 0 else CountOnLevel(nodes, l, n - 1) + if nodes[n - 1].level == l then 1 else 0
  }

  function StreamAt(streams: seq<int>, turn: nat): int
    requires |streams| > 0
  {
    streams[turn % |streams|]
  }

  /** A node's turn among the nodes of its level decides its stream. */
  ghost predicate TakesTurn(nodes: seq<Node>, i: int, streams: seq<int>) {
    0 <= i < |nodes| && |streams| > 0 && nodes[i].stream == StreamAt(streams, CountOnLevel(nodes, nodes[i].level, i))
  }

  /** Nodes before `i` have been dealt a stream; `counter` counts them by level. */
  ghost predicate Dealt(nodes: seq<Node>, r: seq<Node>, streams: seq<int>, counter: map<int, nat>, i: int) {
    && |r| == |nodes| && 0 <= i <= |nodes| && |streams| > 0
    && (forall n :: 0 <= n < i ==>
          r[n] == nodes[n].(stream := StreamAt(streams, CountOnLevel(nodes, nodes[n].level, n))))
    && (forall n :: i <= n < |nodes| ==> r[n] == nodes[n])
    && Counted(nodes, counter, i)
  }

  ghost predicate Counted(nodes: seq<Node>, counter: map<int, nat>, i: int) {
    0 <= i <= |nodes| && forall l :: Used(counter, l) == CountOnLevel(nodes, l, i)
  }

  lemma CountOne(nodes: seq<Node>, counter: map<int, nat>, i: int, next: int)
    requires Counted(nodes, counter, i) && next == i + 1 <= |nodes|
    ensures Counted(nodes, counter[nodes[i].level := Used(counter, nodes[i].level) + 1], next)
  {
    var counted := counter[nodes[i].level := Used(counter, nodes[i].level) + 1];
    forall l ensures Used(counted, l) == CountOnLevel(nodes, l, next) {
      assert Used(counter, l) == CountOnLevel(nodes, l, i);
      assert CountOnLevel(nodes, l, next) == CountOnLevel(nodes, l, i) + if nodes[i].level == l then 1 else 0;
    }
  }

  function Used(counter: map<int, nat>, l: int): nat {
    if l in counter then counter[l] else 0
  }

  lemma DealOne(nodes: seq<Node>, r: seq<Node>, streams: seq<int>, counter: map<int, nat>, i: int, next: int, s: int)
    requires Dealt(nodes, r, streams, counter, i) && next == i + 1 <= |nodes|
    requires s == StreamAt(streams, Used(counter, nodes[i].level))
    ensures Dealt(nodes, r[i := nodes[i].(stream := s)], streams, counter[nodes[i].level := Used(counter,
        nodes[i].level) + 1], next)
  {
    CountOne(nodes, counter, i, next);
    assert Used(counter, nodes[i].level) == CountOnLevel(nodes, nodes[i].level, i);
  }

  lemma {:induction false} LevelsDecideCount(a: seq<Node>, b: seq<Node>, l: int, n: nat)
    requires |b| == |a| && n <= |a| && forall i :: 0 <= i < n ==> b[i].level == a[i].level
    ensures CountOnLevel(b, l, n) == CountOnLevel(a, l, n)
  {
    if n > 0 {
      LevelsDecideCount(a, b, l, n - 1);
    }
  }

  lemma DealingKeepsLists(before: seq<Node>, after: seq<Node>, lists: seq<seq<int>>, maxLevel: int)
    requires ListsLevels(lists, before, maxLevel) && |after| == |before|
    requires forall i :: 0 <= i < |after| ==> after[i].level == before[i].level
    ensures ListsLevels(lists, after, maxLevel)
  {
    forall l, i | 0 <= l <= maxLevel ensures i in lists[l] <==> OnLevel(after, l, i) {
      assert i in lists[l] <==> OnLevel(before, l, i);
    }
  }

  /** assignStreams(): nodes of one level take the streams in turn. */
  method DealStreams(nodes: seq<Node>, streams: seq<int>) returns (r: seq<Node>)
    requires |streams| > 0
    ensures |r| == |nodes|
    ensures forall i :: 0 <= i < |r| ==> r[i] == nodes[i].(stream := r[i].stream) && TakesTurn(r, i, streams)
  {
    r := nodes;
    var counter: map<int, nat> := map[];
    for i := 0 to |nodes|
      invariant Dealt(nodes, r, streams, counter, i)
    {
      ghost var next := i + 1;
      var used := Used(counter, nodes[i].level);
      var s := StreamAt(streams, used);
      DealOne(nodes, r, streams, counter, i, next, s);
      r := r[i := nodes[i].(stream := s)];
      counter := counter[nodes[i].level := used + 1];
    }
    forall i | 0 <= i < |r| ensures TakesTurn(r, i, streams) {
      LevelsDecideCount(nodes, r, nodes[i].level, i);
    }
  }

  /** getMaxParallelism(): the length of the longest level list. */
  function Widest(levels: seq<seq<int>>): nat {
    if levels == [] then 0 else
      var rest := Widest(levels[..|levels| - 1]);
      if rest < |levels[|levels| - 1]| then |levels[|levels| - 1]| else rest
  }

  method MeasureWidest(levels: seq<seq<int>>) returns (widest: nat)
    ensures widest == Widest(levels)
  {
    widest := 0;
    for l := 0 to |levels|
      invariant widest == Widest(levels[..l])
    {
      assert levels[..l + 1][..l] == levels[..l];
      if widest < |levels[l]| {
        widest := |levels[l]|;
      }
    }
    assert levels[..|levels|] == levels;
  }

  /** Streams created when none are configured: one per node of the widest level, or the default stream 0. */
  function AutoStreams(widest: nat): seq<int> {
    if widest > 1 then seq(widest, i requires 0 <= i < widest => i + 1) else [0]
  }

  /** A buffer after reset(): back at its planned size, and without storage where storage is not kept between runs. */
  function AfterReset(buf: BufferInfo, keep: bool): BufferInfo {
    if buf.isExternal then buf
    else if keep || buf.isPersistent || !buf.isAllocated then buf.(size := buf.initialSize)
    else buf.(size := buf.initialSize, isAllocated := false, ptr := 0, allocatedSize := 0)
  }

  method ResetEach(buffers: map<int, BufferInfo>, keep: bool) returns (after: map<int, BufferInfo>)
    ensures after.Keys == buffers.Keys
    ensures forall b :: b in buffers ==> after[b] == AfterReset(buffers[b], keep)
  {
    after := buffers;
    var todo := buffers.Keys;
    while todo != {}
      invariant after.Keys == buffers.Keys && todo <= buffers.Keys
      invariant forall b :: b in todo ==> after[b] == buffers[b]
      invariant forall b :: b in buffers && b !in todo ==> after[b] == AfterReset(buffers[b], keep)
      decreases |todo|
    {
      var b := AnyOf(todo);
      todo := todo - {b};
      var buf := after[b];
      if !keep && buf.isAllocated && !buf.isPersistent && !buf.isExternal {
        buf := buf.(isAllocated := false, ptr := 0, allocatedSize := 0);
      }
      if !buf.isExternal {
        buf := buf.(size := buf.initialSize);
      }
      after := after[b := buf];
    }
  }

  /** Which pairs of positions the double loop has compared so far. */
  ghost predicate Compared(p: int, q: int, i: int, j: int) {
    Min(p, q) < i || (Min(p, q) == i && Max(p, q) < j)
  }

  function Neighborhood(interference: map<int, set<int>>, b: int): set<int> {
    if b in interference then interference[b] else {}
  }

  ghost predicate InterferenceUpTo(ids: seq<int>, ranges: map<int, LiveRange>, interference: map<int, set<int>>,
                                   i: int, j: int)
    requires forall k :: 0 <= k < |ids| ==> ids[k] in ranges
  {
    forall p, q :: 0 <= p < |ids| && 0 <= q < |ids| ==>
      (ids[q] in Neighborhood(interference, ids[p]) <==>
        p != q && Compared(p, q, i, j) && Overlap(ranges[ids[p]], ranges[ids[q]]))
  }

  /** `after` is `before` with the pair of positions i and j entered on both sides if their ranges overlap. */
  ghost predicate PairEntered(ids: seq<int>, ranges: map<int, LiveRange>, before: map<int, set<int>>,
                              after: map<int, set<int>>, i: nat, j: nat)
    requires i < |ids| && j < |ids| && ids[i] in ranges && ids[j] in ranges
  {
    forall x :: Neighborhood(after, x) ==
      if !Overlap(ranges[ids[i]], ranges[ids[j]]) then Neighborhood(before, x)
      else if x == ids[i] then Neighborhood(before, x) + {ids[j]}
      else if x == ids[j] then Neighborhood(before, x) + {ids[i]}
      else Neighborhood(before, x)
  }

  lemma ComparedOne(ids: seq<int>, ranges: map<int, LiveRange>, before: map<int, set<int>>,
                    after: map<int, set<int>>, i: nat, j: nat, next: nat)
    requires i < j < |ids| && next == j + 1 && (forall k :: 0 <= k < |ids| ==> ids[k] in ranges)
    requires forall p, q :: 0 <= p < q < |ids| ==> ids[p] != ids[q]
    requires InterferenceUpTo(ids, ranges, before, i, j) && PairEntered(ids, ranges, before, after, i, j)
    ensures InterferenceUpTo(ids, ranges, after, i, next)
  {
    forall p, q | 0 <= p < |ids| && 0 <= q < |ids|
      ensures ids[q] in Neighborhood(after, ids[p]) <==>
        p != q && Compared(p, q, i, next) && Overlap(ranges[ids[p]], ranges[ids[q]])
    {
      assert ids[q] in Neighborhood(before, ids[p]) <==>
        p != q && Compared(p, q, i, j) && Overlap(ranges[ids[p]], ranges[ids[q]]);
      assert Compared(p, q, i, next) && !Compared(p, q, i, j) <==> (Min(p, q) == i && Max(p, q) == j);
    }
  }

  lemma BothEntered(before: map<int, set<int>>, a: int, b: int)
    requires a != b
    ensures var once := before[a := Neighborhood(before, a) + {b}];
      forall x :: Neighborhood(once[b := Neighborhood(once, b) + {a}], x) ==
        if x == a then Neighborhood(before, x) + {b}
        else if x == b then Neighborhood(before, x) + {a}
        else Neighborhood(before, x)
  {
  }

  lemma RowCompared(ids: seq<int>, ranges: map<int, LiveRange>, interference: map<int, set<int>>, i: nat)
    requires i < |ids| && (forall k :: 0 <= k < |ids| ==> ids[k] in ranges)
    requires InterferenceUpTo(ids, ranges, interference, i, |ids|)
    ensures InterferenceUpTo(ids, ranges, interference, i + 1, i + 2)
  {
    forall p, q | 0 <= p < |ids| && 0 <= q < |ids|
      ensures p != q ==> (Compared(p, q, i, |ids|) <==> Compared(p, q, i + 1, i + 2))
    {
    }
  }

  /** The double loop over all pairs of colorable buffers (src/pipeline/dag_coloring.cpp:119-130). */
  method BuildInterference(ids: seq<int>, ranges: map<int, LiveRange>) returns (interference: map<int, set<int>>)
    requires forall k :: 0 <= k < |ids| ==> ids[k] in ranges
    requires forall p, q :: 0 <= p < q < |ids| ==> ids[p] != ids[q]
    ensures forall p, q :: 0 <= p < |ids| && 0 <= q < |ids| ==>
      (ids[q] in Neighborhood(interference, ids[p]) <==> p != q && Overlap(ranges[ids[p]], ranges[ids[q]]))
  {
    interference := map[];
    for i := 0 to |ids|
      invariant InterferenceUpTo(ids, ranges, interference, i, i + 1)
    {
      for j := i + 1 to |ids|
        invariant InterferenceUpTo(ids, ranges, interference, i, j)
      {
        var a, b := ids[i], ids[j];
        ghost var before := interference;
        if ranges[a].born <= ranges[b].dies && ranges[b].born <= ranges[a].dies {
          interference := interference[a := Neighborhood(interference, a) + {b}];
          interference := interference[b := Neighborhood(interference, b) + {a}];
        }
        BothEntered(before, a, b);
        ComparedOne(ids, ranges, before, interference, i, j, j + 1);
      }
      RowCompared(ids, ranges, interference, i);
    }
  }

  ghost predicate Distinct(s: seq<int>) {
    forall i, j :: 0 <= i < j < |s| ==> s[i] != s[j]
  }

  ghost predicate AllIn(s: seq<int>, ranges: map<int, LiveRange>) {
    forall i :: 0 <= i < |s| ==> s[i] in ranges
  }

  /** Puts `b` behind every buffer whose range is at least as long. */
  function Insert(order: seq<int>, b: int, ranges: map<int, LiveRange>): seq<int>
    requires b in ranges && AllIn(order, ranges)
  {
    if order == [] || Length(ranges[order[0]]) < Length(ranges[b]) then [b] + order
    else [order[0]] + Insert(order[1..], b, ranges)
  }

  lemma {:induction false} InsertAdds(order: seq<int>, b: int, ranges: map<int, LiveRange>)
    requires b in ranges && AllIn(order, ranges)
    ensures multiset(Insert(order, b, ranges)) == multiset(order) + multiset{b}
    ensures AllIn(Insert(order, b, ranges), ranges)
  {
    if order != [] {
      InsertAdds(order[1..], b, ranges);
      assert order == [order[0]] + order[1..];
    }
  }

  lemma {:induction false} InsertKeepsSorted(order: seq<int>, b: int, ranges: map<int, LiveRange>)
    requires b in ranges && AllIn(order, ranges) && LongestFirst(order, ranges)
    ensures LongestFirst(Insert(order, b, ranges), ranges)
  {
    if order != [] && Length(ranges[b]) <= Length(ranges[order[0]]) {
      var rest := Insert(order[1..], b, ranges);
      InsertKeepsSorted(order[1..], b, ranges);
      InsertAdds(order[1..], b, ranges);
      forall i | 0 <= i < |rest| ensures rest[i] == b || rest[i] in order[1..] {
        assert rest[i] in multiset(rest);
      }
    }
  }

  /** std::sort with the range-length comparator, as insertion into a sorted prefix. */
  method SortLongestFirst(ids: seq<int>, ranges: map<int, LiveRange>) returns (order: seq<int>)
    requires Order(ids, ranges)
    ensures Order(order, ranges) && LongestFirst(order, ranges)
  {
    order := [];
    for n := 0 to |ids|
      invariant multiset(order) == multiset(ids[..n])
      invariant AllIn(order, ranges) && LongestFirst(order, ranges)
    {
      assert ids[..n + 1] == ids[..n] + [ids[n]];
      InsertAdds(order, ids[n], ranges);
      InsertKeepsSorted(order, ids[n], ranges);
      order := Insert(order, ids[n], ranges);
    }
    assert ids[..|ids|] == ids;
    ReorderedIsOrder(ids, order, ranges);
  }

  lemma ReorderedIsOrder(ids: seq<int>, order: seq<int>, ranges: map<int, LiveRange>)
    requires Order(ids, ranges) && multiset(order) == multiset(ids)
    ensures Order(order, ranges)
  {
    forall x ensures multiset(ids)[x] <= 1 {
      AtMostOnce(ids, x);
    }
    assert forall i :: 0 <= i < |order| ==> order[i] in multiset(order);
    forall b | b in ranges ensures b in order {
      assert b in multiset(ids);
    }
    forall i, j | 0 <= i < j < |order| ensures order[i] != order[j] {
      assert order == order[..j] + order[j..] && order[i] == order[..j][i] && order[j] == order[j..][0];
      assert multiset(order)[order[i]] == multiset(order[..j])[order[i]] + multiset(order[j..])[order[i]];
      assert order[i] in multiset(order[..j]) && order[j] in multiset(order[j..]);
    }
  }

  lemma {:induction false} AtMostOnce(ids: seq<int>, x: int)
    requires forall i, j :: 0 <= i < j < |ids| ==> ids[i] != ids[j]
    ensures multiset(ids)[x] <= 1
  {
    if ids != [] {
      AtMostOnce(ids[1..], x);
      assert ids == [ids[0]] + ids[1..];
      assert ids[0] !in ids[1..];
    }
  }

  class CompressionDAG {
    var nodes: seq<Node>
    var buffers: map<int, BufferInfo>
    var nextBuffer: nat
    var levels: seq<seq<int>>
    var maxLevel: int
    var streams: seq<int>
    var fusedGroups: seq<Group>
    var fusedInternal: set<int>
    var isPreallocate: bool
    var coloringDisabled: bool
    var coloringApplied: bool
    var bufferColor: map<int, nat>
    var regionSizes: seq<nat>
    var regionPtrs: seq<int>
    var currentUsage: int
    var peakUsage: int
    var isFinalized: bool

    function Contents(): Dag
      reads this
    {
      Dag(nodes, buffers, nextBuffer)
    }

    constructor (preallocate: bool)
      ensures Contents() == EMPTY_DAG && isPreallocate == preallocate
      ensures !isFinalized && !coloringApplied && !coloringDisabled && fusedGroups == [] && fusedInternal == {}
      ensures streams == []
    {
      nodes, buffers, nextBuffer := [], map[], 0;
      levels, maxLevel, streams := [], 0, [];
      fusedGroups, fusedInternal := [], {};
      isPreallocate, coloringDisabled, coloringApplied := preallocate, false, false;
      bufferColor, regionSizes, regionPtrs := map[], [], [];
      currentUsage, peakUsage, isFinalized := 0, 0, false;
    }

    // ---- construction ----

    method AddStage(stage: int, name: string) returns (id: int)
      requires !isFinalized
      modifies this`nodes
      ensures id == old(|nodes|) && Contents() == WithStage(old(Contents()), stage, name)
    {
      id := |nodes|;
      nodes := nodes + [Node(stage, name, [], [], map[], [], [], -1, 0)];
    }

    method AddUnconnectedOutput(i: int, size: nat, port: int, tag: string) returns (b: int)
      requires !isFinalized && 0 <= i < |nodes|
      modifies this`nodes, this`buffers, this`nextBuffer
      ensures b == old(nextBuffer) && Contents() == WithOutput(old(Contents()), i, size, port, tag)
    {
      b := nextBuffer;
      nextBuffer := nextBuffer + 1;
      buffers := buffers[b := NewBuffer(size, tag, i, port, [], false)];
      nodes := nodes[i := nodes[i].(outputs := nodes[i].outputs + [b])];
      nodes := nodes[i := nodes[i].(ports := nodes[i].ports[port := b])];
    }

    method SetInputBuffer(i: int, size: nat, tag: string)
      requires !isFinalized && 0 <= i < |nodes|
      modifies this`nodes, this`buffers, this`nextBuffer
      ensures Contents() == WithInput(old(Contents()), i, size, tag)
    {
      var b := nextBuffer;
      nextBuffer := nextBuffer + 1;
      buffers := buffers[b := NewBuffer(size, tag, -1, 0, [i], true)];
      nodes := nodes[i := nodes[i].(inputs := nodes[i].inputs + [b])];
    }

    /** False, and no change, when the producer has no such output port. */
    method ConnectExistingOutput(p: int, c: int, port: int) returns (ok: bool)
      requires !isFinalized && 0 <= p < |nodes| && 0 <= c < |nodes|
      requires port in nodes[p].ports ==> nodes[p].ports[port] in buffers
      modifies this`nodes, this`buffers
      ensures ok <==> CanConnect(old(Contents()), p, c, port)
      ensures Contents() == if ok then Connected(old(Contents()), p, c, port) else old(Contents())
    {
      if port !in nodes[p].ports {
        return false;
      }
      var b := nodes[p].ports[port];
      nodes := nodes[c := nodes[c].(inputs := nodes[c].inputs + [b])];
      buffers := buffers[b := buffers[b].(consumers := buffers[b].consumers + [c])];
      nodes := nodes[c := nodes[c].(deps := nodes[c].deps + [p])];
      nodes := nodes[p := nodes[p].(dependents := nodes[p].dependents + [c])];
      buffers := buffers[b := buffers[b].(tag := nodes[p].name + "_to_" + nodes[c].name, isPersistent := false)];
      ok := true;
    }

    method SetBufferPersistent(b: int, persistent: bool)
      requires b in buffers
      modifies this`buffers
      ensures Contents() == WithPersistent(old(Contents()), b, persistent)
    {
      buffers := buffers[b := buffers[b].(isPersistent := persistent)];
    }

    method UpdateBufferTag(b: int, tag: string)
      requires b in buffers
      modifies this`buffers
      ensures buffers == old(buffers)[b := old(buffers[b]).(tag := tag)]
    {
      buffers := buffers[b := buffers[b].(tag := tag)];
    }

    method UpdateBufferSize(b: int, size: nat)
      requires b in buffers
      modifies this`buffers
      ensures Contents() == WithSize(old(Contents()), b, size)
    {
      buffers := buffers[b := buffers[b].(size := size, initialSize := size)];
    }

    /** `b` has storage of its own, outside the regions. */
    predicate GivesBack(b: int)
      reads this
    {
      b in buffers && buffers[b].isAllocated && !buffers[b].isExternal && !(coloringApplied && b in bufferColor)
    }

    /** A colored buffer's region stays with the DAG; an individually allocated one is given back. */
    method SetExternalPointer(b: int, ptr: int)
      requires b in buffers
      modifies this`buffers, this`currentUsage
      ensures Contents() == WithPointer(old(Contents()), b, ptr)
      ensures currentUsage == old(currentUsage) - if old(GivesBack(b)) then old(buffers[b].size) else 0
    {
      if GivesBack(b) {
        currentUsage := currentUsage - buffers[b].size;
      }
      buffers := buffers[b := buffers[b].(ptr := ptr, isExternal := true, isAllocated := true)];
    }

    /**
     * reset(): every size except an external buffer's goes back to its planned value; unless
     * everything is preallocated, storage that is not marked persistent is given back.
     */
    method Reset()
      modifies this`buffers, this`currentUsage
      ensures buffers.Keys == old(buffers.Keys)
      ensures forall b :: b in buffers ==> buffers[b] == AfterReset(old(buffers[b]), isPreallocate)
      ensures currentUsage == if isPreallocate then old(currentUsage) else 0
    {
      buffers := ResetEach(buffers, isPreallocate);
      currentUsage := if isPreallocate then currentUsage else 0;
    }

    // ---- levels ----

    /** assignLevels(): levels in insertion order, then the per-level lists execute() walks. */
    method AssignLevels()
      requires ValidDeps(DepsOf(Contents()))
      requires forall i :: 0 <= i < |nodes| ==> nodes[i].level == -1
      modifies this`nodes, this`levels, this`maxLevel
      ensures |nodes| == old(|nodes|)
      ensures forall i :: 0 <= i < |nodes| ==>
        nodes[i] == old(nodes[i]).(level := InsertionLevel(old(DepsOf(Contents())), i))
      ensures forall i :: 0 <= i < |nodes| ==> 0 <= nodes[i].level <= maxLevel
      ensures maxLevel == 0 || exists i :: 0 <= i < |nodes| && nodes[i].level == maxLevel
      ensures ListsLevels(levels, nodes, maxLevel) && ListedOnce(levels)
    {
      ghost var deps := DepsOf(Contents());
      ghost var before := nodes;
      maxLevel := 0;
      for i := 0 to |nodes|
        invariant |nodes| == |before|
        invariant forall n :: 0 <= n < i ==> nodes[n] == before[n].(level := InsertionLevel(deps, n))
        invariant forall n :: i <= n < |nodes| ==> nodes[n] == before[n]
        invariant maxLevel >= 0 && forall n :: 0 <= n < i ==> 0 <= nodes[n].level <= maxLevel
        invariant maxLevel == 0 || exists n :: 0 <= n < i && nodes[n].level == maxLevel
      {
        var level := 0;
        if nodes[i].deps != [] {
          var highest := -1;
          for k := 0 to |nodes[i].deps|
            invariant highest == MaxAssigned(deps, i, k)
          {
            assert deps[i][k] == nodes[i].deps[k];
            highest := Max(highest, nodes[nodes[i].deps[k]].level);
          }
          level := highest + 1;
          MaxAssignedIsMax(deps, i, |deps[i]|);
        }
        nodes := nodes[i := nodes[i].(level := level)];
        maxLevel := Max(maxLevel, level);
        assert nodes[i].level == level;
      }
      var lists := ListByLevel(nodes, maxLevel);
      levels := lists;
    }

    /** finalize(): levels, then one stream per node of the widest level, dealt out level by level. */
    method Finalize()
      requires ValidDeps(DepsOf(Contents()))
      requires forall i :: 0 <= i < |nodes| ==> nodes[i].level == -1
      modifies this`nodes, this`levels, this`maxLevel, this`streams, this`isFinalized
      ensures |nodes| == old(|nodes|) && isFinalized && |streams| > 0
      ensures forall i :: 0 <= i < |nodes| ==>
        nodes[i] == old(nodes[i]).(level := InsertionLevel(old(DepsOf(Contents())), i), stream := nodes[i].stream)
      ensures forall i :: 0 <= i < |nodes| ==> 0 <= nodes[i].level <= maxLevel
      ensures ListsLevels(levels, nodes, maxLevel) && ListedOnce(levels)
      ensures old(streams) != [] ==> streams == old(streams)
      ensures old(streams) == [] ==> streams == AutoStreams(Widest(levels))
      ensures forall i :: 0 <= i < |nodes| ==> TakesTurn(nodes, i, streams)
    {
      AssignLevels();
      if streams == [] {
        var widest := MeasureWidest(levels);
        streams := AutoStreams(widest);
      }
      ghost var leveled := nodes;
      nodes := DealStreams(nodes, streams);
      DealingKeepsLists(leveled, nodes, levels, maxLevel);
      isFinalized := true;
    }

    // ---- groups and coloring ----

    /** setFusedGroups(): an edge that stays inside a group needs no storage. */
    method SetFusedGroups(groups: seq<Group>)
      requires forall x, m :: 0 <= x < |groups| && m in groups[x] ==> 0 <= m < |nodes|
      requires forall i, b :: 0 <= i < |nodes| && b in nodes[i].outputs ==> b in buffers
      modifies this`fusedGroups, this`fusedInternal
      ensures fusedGroups == groups && fusedInternal == MarkedInternal(Contents(), groups)
    {
      fusedGroups := groups;
      fusedInternal := MarkInternal(Contents(), groups);
    }

    /** The regions and colors are a greedy coloring of the current live ranges. */
    ghost predicate IsColored()
      reads this
    {
      Colored(LiveRanges(), bufferColor, regionSizes, SizeOf(Contents()))
    }

    /**
     * colorBuffers(). With several streams the result is dropped when a color mixes producer
     * streams, and nothing is colored at all when groups are fused.
     */
    method ColorBuffers()
      requires GroupsInRange(Contents(), fusedGroups) && !coloringApplied
      modifies this`bufferColor, this`regionSizes, this`coloringApplied
      ensures coloringApplied ==> IsColored() && LongestFirstGreedy(LiveRanges(), bufferColor)
      ensures coloringApplied && |streams| > 1 ==> fusedGroups == [] && OneStreamPerColor(Contents(), bufferColor)
      ensures !coloringApplied ==> |streams| > 1 && (fusedGroups != [] || MixesStreams(Contents(), LiveRanges()))
      ensures !coloringApplied && fusedGroups != [] ==> unchanged(this)
      ensures !coloringApplied && fusedGroups == [] ==> bufferColor == map[] && regionSizes == []
    {
      if fusedGroups != [] && |streams| > 1 {
        return;
      }
      var applied, color, sizes := ColorOrFallBack(Contents(), fusedGroups, fusedInternal, maxLevel, |streams|);
      bufferColor, regionSizes, coloringApplied := color, sizes, applied;
    }

    function LiveRanges(): map<int, LiveRange>
      reads this
    {
      Ranges(Contents(), fusedGroups, fusedInternal, maxLevel)
    }

    /**
     * preallocateBuffers(). `grant(c)` is the pool's answer for region c (or, uncolored, for buffer
     * c), 0 meaning nullptr. Colored: one region per color, empty regions get no storage.
     */
    method PreallocateBuffers(grant: int -> int) returns (ok: bool)
      requires GroupsInRange(Contents(), fusedGroups)
      requires coloringApplied ==> forall b :: b in bufferColor ==> bufferColor[b] < |regionSizes|
      modifies this`buffers, this`bufferColor, this`regionSizes, this`regionPtrs, this`coloringApplied
      modifies this`currentUsage, this`peakUsage
      ensures buffers.Keys == old(buffers.Keys)
      ensures coloringApplied && !old(coloringApplied) ==>
        Colored(old(LiveRanges()), bufferColor, regionSizes, SizeOf(old(Contents())))
      ensures old(coloringApplied) ==>
        coloringApplied && bufferColor == old(bufferColor) && regionSizes == old(regionSizes)
      ensures coloringApplied ==> ok && RegionsGranted(regionPtrs, regionSizes, grant)
      ensures coloringApplied ==> forall b :: b in buffers ==>
        buffers[b] == Placed(old(buffers[b]), b, bufferColor, regionSizes, regionPtrs)
      ensures coloringApplied ==> currentUsage == old(currentUsage) + SumSeq(regionSizes)
      ensures coloringApplied ==> peakUsage == Max(old(peakUsage), currentUsage)
      ensures !coloringApplied && ok ==>
        forall b :: b in buffers ==> HasStorage(old(buffers[b]), buffers[b], b in fusedInternal, grant(b))
      ensures !coloringApplied ==> (ok <==> AllGranted(old(buffers), fusedInternal, grant))
      ensures !coloringApplied && ok ==>
        currentUsage == old(currentUsage) + TotalChange(old(buffers), old(buffers.Keys) - fusedInternal)
      ensures isPreallocate && !coloringDisabled && !coloringApplied ==>
        StaysUncolored(old(Contents()), fusedGroups, fusedInternal, maxLevel, |streams|)
    {
      ColorIfWanted();
      ok := Allocate(grant);
    }

    /** Storage by regions if there is a coloring, else buffer by buffer. */
    method Allocate(grant: int -> int) returns (ok: bool)
      requires coloringApplied ==> forall b :: b in bufferColor ==> bufferColor[b] < |regionSizes|
      modifies this`buffers, this`regionPtrs, this`currentUsage, this`peakUsage
      ensures buffers.Keys == old(buffers.Keys)
      ensures coloringApplied ==> ok && RegionsGranted(regionPtrs, regionSizes, grant)
      ensures coloringApplied ==> forall b :: b in buffers ==>
        buffers[b] == Placed(old(buffers[b]), b, bufferColor, regionSizes, regionPtrs)
      ensures coloringApplied ==>
        currentUsage == old(currentUsage) + SumSeq(regionSizes) && peakUsage == Max(old(peakUsage), currentUsage)
      ensures !coloringApplied && ok ==>
        forall b :: b in buffers ==> HasStorage(old(buffers[b]), buffers[b], b in fusedInternal, grant(b))
      ensures !coloringApplied ==> (ok <==> AllGranted(old(buffers), fusedInternal, grant))
      ensures !coloringApplied && ok ==>
        currentUsage == old(currentUsage) + TotalChange(old(buffers), old(buffers.Keys) - fusedInternal)
    {
      if coloringApplied {
        AllocateRegions(grant);
        ok := true;
      } else {
        ok := AllocateEach(grant);
      }
    }

    /** preallocateBuffers() colors at most once, and only under the PREALLOCATE strategy. */
    method ColorIfWanted()
      requires GroupsInRange(Contents(), fusedGroups)
      requires coloringApplied ==> forall b :: b in bufferColor ==> bufferColor[b] < |regionSizes|
      modifies this`bufferColor, this`regionSizes, this`coloringApplied
      ensures old(coloringApplied) ==> unchanged(this)
      ensures coloringApplied && !old(coloringApplied) ==>
        Colored(old(LiveRanges()), bufferColor, regionSizes, SizeOf(old(Contents())))
      ensures coloringApplied ==> forall b :: b in bufferColor ==> bufferColor[b] < |regionSizes|
      ensures isPreallocate && !coloringDisabled && !coloringApplied ==>
        StaysUncolored(old(Contents()), fusedGroups, fusedInternal, maxLevel, |streams|)
    {
      if isPreallocate && !coloringDisabled && !coloringApplied {
        ColorBuffers();
        if coloringApplied {
          ColorsInRange(Contents(), LiveRanges(), bufferColor, regionSizes);
        }
      }
    }

    method AllocateRegions(grant: int -> int)
      requires forall b :: b in bufferColor ==> bufferColor[b] < |regionSizes|
      modifies this`buffers, this`regionPtrs, this`currentUsage, this`peakUsage
      ensures RegionsGranted(regionPtrs, regionSizes, grant)
      ensures buffers.Keys == old(buffers.Keys)
      ensures forall b :: b in buffers ==>
        buffers[b] == Placed(old(buffers[b]), b, bufferColor, regionSizes, regionPtrs)
      ensures currentUsage == old(currentUsage) + SumSeq(regionSizes)
      ensures peakUsage == Max(old(peakUsage), currentUsage)
    {
      var ptrs := GrantRegions(regionSizes, grant);
      var placed := PlaceBuffers(buffers, bufferColor, regionSizes, ptrs);
      var total := TotalBytes(regionSizes);
      regionPtrs, buffers := ptrs, placed;
      currentUsage := currentUsage + total;
      peakUsage := Max(peakUsage, currentUsage);
    }

    /** allocateBuffer() for every buffer outside the fused edges; stops at the pool's first refusal. */
    method AllocateEach(grant: int -> int) returns (ok: bool)
      modifies this`buffers, this`currentUsage, this`peakUsage
      ensures buffers.Keys == old(buffers.Keys)
      ensures ok ==> forall b :: b in buffers ==> HasStorage(old(buffers[b]), buffers[b], b in fusedInternal, grant(b))
      ensures ok <==> AllGranted(old(buffers), fusedInternal, grant)
      ensures ok ==> currentUsage == old(currentUsage) + TotalChange(old(buffers), old(buffers.Keys) - fusedInternal)
    {
      var todo := buffers.Keys - fusedInternal;
      ghost var before, all, usage := buffers, todo, currentUsage;
      ok := true;
      while todo != {}
        invariant buffers.Keys == before.Keys && todo <= all
        invariant ok ==> Allocating(before, buffers, all, todo, currentUsage - usage, grant)
        decreases |todo|
      {
        var b := AnyOf(todo);
        ghost var now, used := buffers, currentUsage;
        ok := AllocateBuffer(b, grant(b));
        if !ok {
          return;
        }
        AllocatedOne(before, now, all, todo, used - usage, grant, b, buffers[b]);
        todo := todo - {b};
      }
    }

    /**
     * allocateBuffer(): an edge inside a fused group gets no storage; other storage is kept if it is
     * large enough, otherwise the pool is asked for `granted`.
     */
    method AllocateBuffer(b: int, granted: int) returns (ok: bool)
      requires b in buffers
      modifies this`buffers, this`currentUsage, this`peakUsage
      ensures b in buffers && buffers == old(buffers)[b := buffers[b]]
      ensures ok ==> HasStorage(old(buffers[b]), buffers[b], b in fusedInternal, granted)
      ensures ok <==> b in fusedInternal || !(NeedsGrant(old(buffers[b])) && granted == 0)
      ensures !ok ==> !buffers[b].isAllocated
      ensures b in fusedInternal ==> currentUsage == old(currentUsage) && peakUsage == old(peakUsage)
      ensures b !in fusedInternal ==> currentUsage == old(currentUsage) + UsageChange(old(buffers[b]), granted)
      ensures b !in fusedInternal ==>
        peakUsage == if ok && UsesPool(old(buffers[b])) then Max(old(peakUsage), currentUsage) else old(peakUsage)
    {
      var buf := buffers[b];
      ok := true;
      if b in fusedInternal {
        return;
      }
      if buf.isExternal {
        return;
      }
      if buf.size == 0 {
        if !buf.isAllocated {
          buffers := buffers[b := buf.(isAllocated := true, allocatedSize := 0, ptr := 0)];
        }
        return;
      }
      if buf.isAllocated {
        if buf.size <= buf.allocatedSize {
          currentUsage := currentUsage + buf.size;
          peakUsage := Max(peakUsage, currentUsage);
          return;
        }
        currentUsage := currentUsage - buf.allocatedSize;
        buffers := buffers[b := buf.(isAllocated := false, ptr := 0, allocatedSize := 0)];
      }
      if granted == 0 {
        return false;
      }
      buffers := buffers[b := buf.(ptr := granted, isAllocated := true, allocatedSize := buf.size)];
      currentUsage := currentUsage + buf.size;
      peakUsage := Max(peakUsage, currentUsage);
    }
  }

  /** All of `all` but `todo` have storage, `used` bytes of it newly counted; nothing else has changed. */
  ghost predicate Allocating(before: map<int, BufferInfo>, now: map<int, BufferInfo>, all: set<int>, todo: set<int>,
                             used: int, grant: int -> int) {
    && now.Keys == before.Keys && todo <= all <= before.Keys
    && (forall b :: b in before && (b in todo || b !in all) ==> now[b] == before[b])
    && (forall b :: b in all && b !in todo ==> Provided(before[b], now[b], grant(b)))
    && used + TotalChange(before, todo) == TotalChange(before, all)
  }

  lemma AllocatedOne(before: map<int, BufferInfo>, now: map<int, BufferInfo>, all: set<int>, todo: set<int>,
                     used: int, grant: int -> int,
                     b: int, buf: BufferInfo)
    requires Allocating(before, now, all, todo, used, grant) && b in todo && Provided(before[b], buf, grant(b))
    ensures Allocating(before, now[b := buf], all, todo - {b}, used + UsageChange(before[b], grant(b)), grant)
  {
    TotalWithout(before, todo, b);
  }

  ghost predicate Provided(before: BufferInfo, after: BufferInfo, granted: int) {
    HasStorage(before, after, false, granted) && (NeedsGrant(before) ==> granted != 0)
  }

  predicate UsesPool(buf: BufferInfo) {
    !buf.isExternal && buf.size > 0
  }

  /** The pool has to be asked: there is no storage yet, or too little. */
  predicate NeedsGrant(buf: BufferInfo) {
    UsesPool(buf) && !(buf.isAllocated && buf.size <= buf.allocatedSize)
  }

  /** What allocateBuffer() adds to the usage counter. */
  function UsageChange(buf: BufferInfo, granted: int): int {
    if !UsesPool(buf) then 0
    else if !NeedsGrant(buf) then buf.size
    else (if granted != 0 then buf.size else 0) - (if buf.isAllocated then buf.allocatedSize else 0)
  }

  /** The pool refuses no buffer that has to ask it. */
  ghost predicate AllGranted(buffers: map<int, BufferInfo>, internal: set<int>, grant: int -> int) {
    forall b :: b in buffers && b !in internal && NeedsGrant(buffers[b]) ==> grant(b) != 0
  }

  /** Counter change of allocating all of `ids`, every request granted. */
  ghost function TotalChange(buffers: map<int, BufferInfo>, ids: set<int>): int {
    if ids == {} then 0 else
      var b := Pick(ids);
      (if b in buffers then UsageChange(buffers[b], 1) else 0) + TotalChange(buffers, ids - {b})
  }

  lemma {:induction false} TotalWithout(buffers: map<int, BufferInfo>, ids: set<int>, b: int)
    requires b in ids && b in buffers
    ensures TotalChange(buffers, ids) == UsageChange(buffers[b], 1) + TotalChange(buffers, ids - {b})
    decreases |ids|
  {
    var x := Pick(ids);
    if x != b {
      TotalWithout(buffers, ids - {x}, b);
      if x in buffers {
        TotalWithout(buffers, ids - {b}, x);
      } else {
        TotalSkips(buffers, ids - {b}, x);
      }
      assert ids - {x} - {b} == ids - {b} - {x};
    }
  }

  lemma {:induction false} TotalSkips(buffers: map<int, BufferInfo>, ids: set<int>, b: int)
    requires b in ids && b !in buffers
    ensures TotalChange(buffers, ids) == TotalChange(buffers, ids - {b})
    decreases |ids|
  {
    var x := Pick(ids);
    if x != b {
      TotalSkips(buffers, ids - {x}, b);
      assert ids - {x} - {b} == ids - {b} - {x};
      if x in buffers {
        TotalWithout(buffers, ids - {b}, x);
      } else {
        TotalSkips(buffers, ids - {b}, x);
      }
    }
  }

  /** Region `c` is the pool's answer to its request; an empty region is never requested. */
  ghost predicate RegionsGranted(ptrs: seq<int>, sizes: seq<nat>, grant: int -> int) {
    |ptrs| == |sizes| && forall c :: 0 <= c < |ptrs| ==> ptrs[c] == if sizes[c] > 0 then grant(c) else 0
  }

  /** After allocation a buffer's own storage holds at least its planned size. */
  ghost predicate HasStorage(before: BufferInfo, after: BufferInfo, internal: bool, granted: int) {
    if internal || before.isExternal then after == before
    else
      && after == before.(ptr := after.ptr, isAllocated := true, allocatedSize := after.allocatedSize)
      && (before.size > 0 ==> before.size <= after.allocatedSize)
      && (before.size > 0 && !before.isAllocated ==> after.ptr == granted != 0)
  }

  method GrantRegions(sizes: seq<nat>, grant: int -> int) returns (ptrs: seq<int>)
    ensures RegionsGranted(ptrs, sizes, grant)
  {
    ptrs := [];
    for c := 0 to |sizes|
      invariant |ptrs| == c
      invariant forall k :: 0 <= k < c ==> ptrs[k] == if sizes[k] > 0 then grant(k) else 0
    {
      ptrs := ptrs + [if sizes[c] > 0 then grant(c) else 0];
    }
  }

  /** A colored buffer moves into its region and may fill all of it. */
  function Placed(buf: BufferInfo, b: int, color: map<int, nat>, sizes: seq<nat>, ptrs: seq<int>): BufferInfo {
    if !buf.isExternal && b in color && color[b] < |ptrs| && color[b] < |sizes|
    then buf.(ptr := ptrs[color[b]], isAllocated := true, allocatedSize := sizes[color[b]])
    else buf
  }

  method PlaceBuffers(buffers: map<int, BufferInfo>, color: map<int, nat>, sizes: seq<nat>, ptrs: seq<int>)
    returns (placed: map<int, BufferInfo>)
    requires |ptrs| == |sizes| && forall b :: b in color ==> color[b] < |sizes|
    ensures placed.Keys == buffers.Keys
    ensures forall b :: b in buffers ==> placed[b] == Placed(buffers[b], b, color, sizes, ptrs)
  {
    placed := buffers;
    var todo := buffers.Keys;
    while todo != {}
      invariant placed.Keys == buffers.Keys && todo <= buffers.Keys
      invariant forall b :: b in todo ==> placed[b] == buffers[b]
      invariant forall b :: b in buffers && b !in todo ==> placed[b] == Placed(buffers[b], b, color, sizes, ptrs)
      decreases |todo|
    {
      var b := AnyOf(todo);
      todo := todo - {b};
      if placed[b].isExternal || b !in color {
        continue;
      }
      placed := placed[b := placed[b].(ptr := ptrs[color[b]], isAllocated := true, allocatedSize := sizes[color[b]])];
    }
  }

  method TotalBytes(sizes: seq<nat>) returns (total: nat)
    ensures total == SumSeq(sizes)
  {
    total := 0;
    for c := 0 to |sizes|
      invariant total == SumSeq(sizes[..c])
    {
      assert sizes[..c + 1][..c] == sizes[..c];
      total := total + sizes[c];
    }
    assert sizes[..|sizes|] == sizes;
  }

  /** Outputs of a member that only its own group consumes (src/pipeline/dag.cpp:388-410). */
  method MarkInternal(d: Dag, groups: seq<Group>) returns (marked: set<int>)
    requires forall x, m :: 0 <= x < |groups| && m in groups[x] ==> 0 <= m < |d.nodes|
    requires forall i, b :: 0 <= i < |d.nodes| && b in d.nodes[i].outputs ==> b in d.buffers
    ensures marked == MarkedInternal(d, groups)
  {
    marked := {};
    for x := 0 to |groups|
      invariant marked == MarkedInternal(d, groups[..x])
    {
      var g := groups[x];
      var inGroup: set<int> := {};
      for k := 0 to |g|
        invariant inGroup == MarkedIn(d, g[..k], g)
      {
        assert g[k] in groups[x];
        assert g[..k + 1] == g[..k] + [g[k]];
        inGroup := inGroup + set b | b in d.nodes[g[k]].outputs && OnlyConsumedBy(d, g, b);
      }
      assert g[..|g|] == g && groups[..x + 1] == groups[..x] + [g];
      MarkedSplits(d, groups[..x], g);
      marked := marked + inGroup;
    }
    assert groups[..|groups|] == groups;
  }

  /** Outputs of the nodes in `part` that only `g` consumes. */
  function MarkedIn(d: Dag, part: Group, g: Group): set<int> {
    set m, b | m in part && 0 <= m < |d.nodes| && b in d.nodes[m].outputs && b in d.buffers &&
        OnlyConsumedBy(d, g, b) :: b
  }

  lemma MarkedSplits(d: Dag, groups: seq<Group>, g: Group)
    ensures MarkedInternal(d, groups + [g]) == MarkedInternal(d, groups) + MarkedIn(d, g, g)
  {
    var all := groups + [g];
    assert all[|groups|] == g && forall x :: 0 <= x < |groups| ==> all[x] == groups[x];
    forall b | b in MarkedInternal(d, all) ensures b in MarkedInternal(d, groups) + MarkedIn(d, g, g) {
      var x, m :| 0 <= x < |all| && m in all[x] && 0 <= m < |d.nodes| && b in d.nodes[m].outputs &&
          b in d.buffers && OnlyConsumedBy(d, all[x], b);
      if x < |groups| {
        assert m in groups[x];
      }
    }
    forall b | b in MarkedInternal(d, groups) ensures b in MarkedInternal(d, all) {
      var x, m :| 0 <= x < |groups| && m in groups[x] && 0 <= m < |d.nodes| && b in d.nodes[m].outputs &&
          b in d.buffers && OnlyConsumedBy(d, groups[x], b);
      assert m in all[x];
    }
  }

  /** Step 1: live ranges, with every group collapsed onto its head's level. */
  method ComputeRanges(d: Dag, groups: seq<Group>, internal: set<int>, maxLevel: int)
    returns (ranges: map<int, LiveRange>)
    requires GroupsInRange(d, groups)
    ensures ranges == Ranges(d, groups, internal, maxLevel)
  {
    var nodeLevel := NodeLevels(d.nodes, groups);
    ranges := map[];
    var todo := d.buffers.Keys;
    while todo != {}
      invariant todo <= d.buffers.Keys
      invariant forall b :: b in ranges <==> b in Colorable(d, internal) && b !in todo
      invariant forall b :: b in ranges ==> ranges[b] == RangeOf(d.nodes, groups, maxLevel, d.buffers[b])
      decreases |todo|
    {
      var b := AnyOf(todo);
      todo := todo - {b};
      var buf := d.buffers[b];
      if buf.isExternal || b in internal {
        continue;
      }
      var range := ComputeRange(d, groups, maxLevel, nodeLevel, buf);
      ranges := ranges[b := range];
    }
    ghost var all := Ranges(d, groups, internal, maxLevel);
    assert forall b :: b in all <==> b in ranges;
    assert forall b :: b in all ==> all[b] == RangeOf(d.nodes, groups, maxLevel, d.buffers[b]) == ranges[b];
    SameMap(ranges, all);
  }

  lemma SameMap<K, V>(a: map<K, V>, b: map<K, V>)
    requires forall k :: k in a <==> k in b
    requires forall k :: k in a && k in b ==> a[k] == b[k]
    ensures a == b
  {
  }

  method ComputeRange(d: Dag, groups: seq<Group>, maxLevel: int, nodeLevel: map<int, int>, buf: BufferInfo)
    returns (range: LiveRange)
    requires buf.producer < |d.nodes|
    requires forall n :: n in nodeLevel <==> 0 <= n < |d.nodes|
    requires forall n :: 0 <= n < |d.nodes| ==> nodeLevel[n] == CollapsedLevel(d.nodes, groups, n)
    ensures range == RangeOf(d.nodes, groups, maxLevel, buf)
  {
    var born := if buf.producer < 0 then 0 else nodeLevel[buf.producer];
    var dies := maxLevel;
    if buf.consumers != [] {
      dies := 0;
      for k := 0 to |buf.consumers|
        invariant dies == LastUse(d.nodes, groups, buf.consumers[..k])
      {
        assert buf.consumers[..k + 1][..k] == buf.consumers[..k];
        if buf.consumers[k] in nodeLevel {
          dies := Max(dies, nodeLevel[buf.consumers[k]]);
        }
      }
      assert buf.consumers[..|buf.consumers|] == buf.consumers;
    }
    range := LiveRange(born, dies);
  }

  ghost predicate GroupsInRange(d: Dag, groups: seq<Group>) {
    && (forall x :: 0 <= x < |groups| ==> |groups[x]| > 0)
    && (forall x, m :: 0 <= x < |groups| && m in groups[x] ==> 0 <= m < |d.nodes|)
    && (forall b :: b in d.buffers ==> d.buffers[b].producer < |d.nodes|)
  }

  method NodeLevels(nodes: seq<Node>, groups: seq<Group>) returns (nodeLevel: map<int, int>)
    requires forall x :: 0 <= x < |groups| ==> |groups[x]| > 0
    requires forall x, m :: 0 <= x < |groups| && m in groups[x] ==> 0 <= m < |nodes|
    ensures forall n :: n in nodeLevel <==> 0 <= n < |nodes|
    ensures forall n :: 0 <= n < |nodes| ==> nodeLevel[n] == CollapsedLevel(nodes, groups, n)
  {
    nodeLevel := map[];
    for i := 0 to |nodes|
      invariant forall n :: n in nodeLevel <==> 0 <= n < i
      invariant forall n :: 0 <= n < i ==> nodeLevel[n] == nodes[n].level
    {
      nodeLevel := nodeLevel[i := nodes[i].level];
    }
    for x := 0 to |groups|
      invariant forall n :: n in nodeLevel <==> 0 <= n < |nodes|
      invariant forall n :: 0 <= n < |nodes| ==> nodeLevel[n] == CollapsedLevel(nodes, groups[..x], n)
    {
      var g := groups[x];
      assert g[0] in g && groups[..x + 1][..x] == groups[..x];
      var fusedLevel := nodes[g[0]].level;
      for k := 0 to |g|
        invariant forall n :: n in nodeLevel <==> 0 <= n < |nodes|
        invariant forall n :: 0 <= n < |nodes| ==>
          nodeLevel[n] == if n in g[..k] then fusedLevel else CollapsedLevel(nodes, groups[..x], n)
      {
        assert g[..k + 1] == g[..k] + [g[k]] && g[k] in g;
        nodeLevel := nodeLevel[g[k] := fusedLevel];
      }
      assert g[..|g|] == g;
    }
    assert groups[..|groups|] == groups;
  }

  /** The coloring comes from processing longer ranges first. */
  ghost predicate LongestFirstGreedy(ranges: map<int, LiveRange>, color: map<int, nat>) {
    exists order :: Order(order, ranges) && LongestFirst(order, ranges) && Greedy(order, |order|, ranges, color)
  }

  /** Steps 1 to 3 of colorBuffers(): ranges, interference, sort, greedy colors. */
  method Color(d: Dag, groups: seq<Group>, internal: set<int>, maxLevel: int)
    returns (color: map<int, nat>, sizes: seq<nat>)
    requires GroupsInRange(d, groups)
    ensures Colored(Ranges(d, groups, internal, maxLevel), color, sizes, SizeOf(d))
    ensures LongestFirstGreedy(Ranges(d, groups, internal, maxLevel), color)
  {
    var ranges := ComputeRanges(d, groups, internal, maxLevel);
    var ids := AnyOrder(ranges);
    ids := SortLongestFirst(ids, ranges);
    var interference := BuildInterference(ids, ranges);
    color, sizes := ColorInOrder(d, ids, ranges, interference);
  }

  /** Some greedy coloring of the live ranges puts buffers of two producer streams in one region. */
  ghost predicate MixesStreams(d: Dag, ranges: map<int, LiveRange>) {
    exists color, sizes :: Colored(ranges, color, sizes, SizeOf(d)) && !OneStreamPerColor(d, color)
  }

  /** Why preallocation may go uncolored: several streams, and fused groups or a coloring that mixes producers. */
  ghost predicate StaysUncolored(d: Dag, groups: seq<Group>, internal: set<int>, maxLevel: int, streams: nat) {
    streams > 1 && (groups != [] || MixesStreams(d, Ranges(d, groups, internal, maxLevel)))
  }

  method ColorOrFallBack(d: Dag, groups: seq<Group>, internal: set<int>, maxLevel: int, streams: nat)
    returns (applied: bool, color: map<int, nat>, sizes: seq<nat>)
    requires GroupsInRange(d, groups)
    ensures applied ==> Colored(Ranges(d, groups, internal, maxLevel), color, sizes, SizeOf(d))
    ensures applied ==> LongestFirstGreedy(Ranges(d, groups, internal, maxLevel), color)
    ensures applied && streams > 1 ==> OneStreamPerColor(d, color)
    ensures !applied ==>
      color == map[] && sizes == [] && streams > 1 && MixesStreams(d, Ranges(d, groups, internal, maxLevel))
  {
    color, sizes := Color(d, groups, internal, maxLevel);
    if streams > 1 {
      ColorsInRange(d, Ranges(d, groups, internal, maxLevel), color, sizes);
      var mixed := CrossStreamAlias(d, color, |sizes|);
      if mixed {
        return false, map[], [];
      }
    }
    applied := true;
  }

  lemma ColorsInRange(d: Dag, ranges: map<int, LiveRange>, color: map<int, nat>, sizes: seq<nat>)
    requires Colored(ranges, color, sizes, SizeOf(d))
    ensures forall b :: b in color ==> color[b] < |sizes| && b in ranges
  {
  }

  /** The colorable buffer ids in some order, as iterating an unordered_map yields them. */
  method AnyOrder(ranges: map<int, LiveRange>) returns (ids: seq<int>)
    ensures Order(ids, ranges)
  {
    ids := [];
    var todo := ranges.Keys;
    while todo != {}
      invariant todo <= ranges.Keys
      invariant forall i :: 0 <= i < |ids| ==> ids[i] in ranges && ids[i] !in todo
      invariant forall b :: b in ranges && b !in todo ==> b in ids
      invariant Distinct(ids)
      decreases |todo|
    {
      var b := AnyOf(todo);
      todo := todo - {b};
      ids := ids + [b];
    }
  }

  /** The guard over color groups (src/pipeline/dag_coloring.cpp:167-187). */
  method CrossStreamAlias(d: Dag, color: map<int, nat>, regions: nat) returns (mixed: bool)
    requires forall b :: b in color ==> color[b] < regions && b in d.buffers && d.buffers[b].producer < |d.nodes|
    ensures mixed <==> !OneStreamPerColor(d, color)
  {
    mixed := false;
    var c := 0;
    while c < regions && !mixed
      invariant 0 <= c <= regions
      invariant mixed ==> !OneStreamPerColor(d, color)
      invariant !mixed ==> forall a, b :: SameColorPair(d, color, a, b) && color[a] < c ==>
        ProducerStream(d, a) == ProducerStream(d, b)
      decreases regions - c, !mixed
    {
      var todo := color.Keys;
      ghost var first := -1;
      var firstStream, firstSet := 0, false;
      while todo != {} && !mixed
        invariant todo <= color.Keys
        invariant firstSet ==>
          first in color && color[first] == c && HasProducer(d, first) && ProducerStream(d, first) == firstStream
        invariant mixed ==> !OneStreamPerColor(d, color)
        invariant !mixed ==> forall b :: b in color && b !in todo && color[b] == c && HasProducer(d, b) ==>
          firstSet && ProducerStream(d, b) == firstStream
        decreases |todo|
      {
        var b := AnyOf(todo);
        todo := todo - {b};
        if color[b] != c {
          continue;
        }
        if d.buffers[b].producer >= 0 {
          var stream := d.nodes[d.buffers[b].producer].stream;
          if !firstSet {
            first := b;
            firstStream, firstSet := stream, true;
          } else if stream != firstStream {
            assert HasProducer(d, first) && HasProducer(d, b);
            mixed := true;
          }
        }
      }
      c := c + 1;
    }
  }

  ghost predicate SameColorPair(d: Dag, color: map<int, nat>, a: int, b: int) {
    a in color && b in color && color[a] == color[b] && HasProducer(d, a) && HasProducer(d, b)
  }

  /** Step 3: each buffer in turn gets the lowest color no colored neighbor uses. */
  method ColorInOrder(d: Dag, order: seq<int>, ranges: map<int, LiveRange>, interference: map<int, set<int>>)
    returns (color: map<int, nat>, sizes: seq<nat>)
    requires Order(order, ranges) && ranges.Keys <= d.buffers.Keys
    requires forall p, q :: 0 <= p < |order| && 0 <= q < |order| ==>
      (order[q] in Neighborhood(interference, order[p]) <==> p != q && Overlap(ranges[order[p]], ranges[order[q]]))
    ensures color.Keys == ranges.Keys && Greedy(order, |order|, ranges, color)
    ensures RegionsOf(ranges.Keys, SizeOf(d), color, sizes)
  {
    color, sizes := map[], [];
    for n := 0 to |order|
      invariant Progress(order, n, ranges, SizeOf(d), color, sizes)
    {
      var b := order[n];
      var used := set x | x in Neighborhood(interference, b) && x in color :: color[x];
      var c := LowestFree(used);
      UsedAreNeighborColors(order, n, ranges, interference, color, used);
      var bytes := d.buffers[b].size;
      assert bytes == SizeOf(d)(b);
      var next := GrowRegion(sizes, c, bytes);
      ColorOne(order, n, ranges, SizeOf(d), color, sizes, used, c, next);
      color, sizes := color[b := c], next;
    }
    AllColored(order, ranges, SizeOf(d), color, sizes);
  }

  /** The lowest number not in `used`; the search cannot pass |used| + 1 candidates. */
  method LowestFree(used: set<nat>) returns (c: nat)
    ensures c !in used && forall k: nat :: k < c ==> k in used
  {
    c := 0;
    while c in used
      invariant forall k: nat :: k < c ==> k in used
      decreases |used| - c
    {
      InitialSegment(c + 1, used);
      c := c + 1;
    }
  }

  ghost predicate ColoredPrefix(order: seq<int>, n: nat, ranges: map<int, LiveRange>, color: map<int, nat>) {
    && Order(order, ranges) && n <= |order|
    && color.Keys == (set i | 0 <= i < n :: order[i])
    && Greedy(order, n, ranges, color)
  }

  /** State of the coloring loop after `n` buffers. */
  ghost predicate Progress(order: seq<int>, n: nat, ranges: map<int, LiveRange>, size: int -> nat,
                           color: map<int, nat>, sizes: seq<nat>) {
    ColoredPrefix(order, n, ranges, color) && RegionsOf(color.Keys, size, color, sizes)
  }

  /** Region sizes after color `c` is given to a buffer: a new color opens a zero-sized region first. */
  function RegionsWith(sizes: seq<nat>, c: nat, bytes: nat): seq<nat>
    requires c <= |sizes|
  {
    if c == |sizes| then sizes + [bytes] else sizes[c := Max(sizes[c], bytes)]
  }

  method GrowRegion(sizes: seq<nat>, c: nat, bytes: nat) returns (next: seq<nat>)
    ensures c <= |sizes| ==> next == RegionsWith(sizes, c, bytes)
  {
    next := sizes;
    if c >= |next| {
      next := next + seq(c + 1 - |next|, _ => 0);
    }
    next := next[c := Max(next[c], bytes)];
  }

  lemma AllColored(order: seq<int>, ranges: map<int, LiveRange>, size: int -> nat, color: map<int, nat>,
                   sizes: seq<nat>)
    requires Progress(order, |order|, ranges, size, color, sizes)
    ensures color.Keys == ranges.Keys && Greedy(order, |order|, ranges, color)
    ensures RegionsOf(ranges.Keys, size, color, sizes)
  {
    forall b | b in ranges ensures b in color {
      var i :| 0 <= i < |order| && order[i] == b;
    }
    assert color.Keys == ranges.Keys;
  }

  lemma ColorOne(order: seq<int>, n: nat, ranges: map<int, LiveRange>, size: int -> nat, color: map<int, nat>,
                 sizes: seq<nat>,
                 used: set<nat>, c: nat, next: seq<nat>)
    requires Progress(order, n, ranges, size, color, sizes) && n < |order|
    requires forall x :: x in used <==> ColorTaken(order, ranges, color, n, x)
    requires c !in used && forall k: nat :: k < c ==> k in used
    requires c <= |sizes| ==> next == RegionsWith(sizes, c, size(order[n]))
    ensures c <= |sizes|
    ensures Progress(order, n + 1, ranges, size, color[order[n] := c], next)
  {
    GreedyExtended(order, n, ranges, color, used, c);
    ColorsStayContiguous(order, n, ranges, color, sizes, used, c, size);
    assert order[n] !in color;
    RegionsExtended(color, sizes, order[n], c, size);
    assert color[order[n] := c].Keys == color.Keys + {order[n]};
    assert (set i | 0 <= i < n + 1 :: order[i]) == (set i | 0 <= i < n :: order[i]) + {order[n]};
  }

  lemma UsedAreNeighborColors(order: seq<int>, n: nat, ranges: map<int, LiveRange>, interference: map<int, set<int>>,
                              color: map<int, nat>, used: set<nat>)
    requires ColoredPrefix(order, n, ranges, color) && n < |order|
    requires forall p, q :: 0 <= p < |order| && 0 <= q < |order| ==>
      (order[q] in Neighborhood(interference, order[p]) <==> p != q && Overlap(ranges[order[p]], ranges[order[q]]))
    requires used == set x | x in Neighborhood(interference, order[n]) && x in color :: color[x]
    ensures forall c :: c in used <==> ColorTaken(order, ranges, color, n, c)
  {
  }

  lemma GreedyExtended(order: seq<int>, n: nat, ranges: map<int, LiveRange>, color: map<int, nat>, used: set<nat>,
                       c: nat)
    requires ColoredPrefix(order, n, ranges, color) && n < |order|
    requires forall x :: x in used <==> ColorTaken(order, ranges, color, n, x)
    requires c !in used && forall k: nat :: k < c ==> k in used
    ensures Greedy(order, n + 1, ranges, color[order[n] := c])
  {
    var next := color[order[n] := c];
    forall i, k | 0 <= i < n + 1 && EarlierNeighbor(order, ranges, k, i) ensures next[order[k]] != next[order[i]] {
      assert order[k] != order[n];
      if i == n {
        assert ColorTaken(order, ranges, color, n, color[order[k]]);
      }
    }
    forall i, x | 0 <= i < n + 1 && 0 <= x < next[order[i]] ensures ColorTaken(order, ranges, next, i, x) {
      assert ColorTaken(order, ranges, color, i, x);
      var k :| EarlierNeighbor(order, ranges, k, i) && order[k] in color && color[order[k]] == x;
      assert order[k] != order[n];
    }
  }

  /** A new color is at most one past the colors in use. */
  lemma ColorsStayContiguous(order: seq<int>, n: nat, ranges: map<int, LiveRange>, color: map<int, nat>,
                             sizes: seq<nat>,
                             used: set<nat>, c: nat, size: int -> nat)
    requires RegionsOf(color.Keys, size, color, sizes)
    requires forall x :: x in used <==> ColorTaken(order, ranges, color, n, x)
    requires forall k: nat :: k < c ==> k in used
    ensures c <= |sizes|
  {
    if c > 0 {
      var top := c - 1;
      assert top in used;
      assert ColorTaken(order, ranges, color, n, top);
      var k :| EarlierNeighbor(order, ranges, k, n) && order[k] in color && color[order[k]] == top;
      var w := order[k];
      assert w in color.Keys && size(w) <= sizes[color[w]];
    }
  }

  lemma RegionsExtended(color: map<int, nat>, sizes: seq<nat>, b: int, c: nat, size: int -> nat)
    requires RegionsOf(color.Keys, size, color, sizes) && b !in color && c <= |sizes|
    ensures RegionsOf(color.Keys + {b}, size, color[b := c], RegionsWith(sizes, c, size(b)))
  {
  }
}
