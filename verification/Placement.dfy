/**
 * From the coloring to the run: colored regions are a safe placement, redirecting a result buffer
 * to caller storage keeps it safe, and exactly when a fused runner covers its group's outputs.
 */
module Placement {
  import opened Values
  import opened Graph
  import opened Liveness
  import opened Execution
  import opened Sums

  ghost function InternalBuffers(d: Dag, groups: seq<Group>): set<int> {
    set b | b in d.buffers && d.buffers[b].producer >= 0 && IsInternal(d, groups, b)
  }

  /** What setFusedGroups() marks: outputs of a member that are consumed, and only by its own group. */
  function MarkedInternal(d: Dag, groups: seq<Group>): set<int> {
    set x, m, b | 0 <= x < |groups| && m in groups[x] && 0 <= m < |d.nodes| && b in d.nodes[m].outputs &&
      b in d.buffers && OnlyConsumedBy(d, groups[x], b) :: b
  }

  predicate OnlyConsumedBy(d: Dag, g: Group, b: int)
    requires b in d.buffers
  {
    d.buffers[b].consumers != [] && forall c :: c in d.buffers[b].consumers ==> c in g
  }

  lemma MarkedIsInternal(d: Dag, groups: seq<Group>)
    requires Sound(d) && GroupsOK(d, groups)
    ensures MarkedInternal(d, groups) == InternalBuffers(d, groups)
  {
    forall b | b in MarkedInternal(d, groups) ensures b in InternalBuffers(d, groups) {
      var x, m :| 0 <= x < |groups| && m in groups[x] && 0 <= m < |d.nodes| && b in d.nodes[m].outputs &&
          OnlyConsumedBy(d, groups[x], b);
      var k :| 0 <= k < |d.nodes[m].outputs| && d.nodes[m].outputs[k] == b;
      assert Made(d, m, k, b);
      GroupIsUnit(d, groups, x, m);
    }
    forall b | b in InternalBuffers(d, groups) ensures b in MarkedInternal(d, groups) {
      InternalIsMarked(d, groups, b);
    }
  }

  lemma {:induction false} GroupIsUnit(d: Dag, groups: seq<Group>, x: int, m: int)
    requires GroupsOK(d, groups) && 0 <= x < |groups| && m in groups[x]
    ensures UnitOf(groups, m) == groups[x]
    decreases |groups|
  {
    var last := |groups| - 1;
    if x < last {
      assert m !in groups[last];
      assert GroupsOK(d, groups[..last]);
      GroupIsUnit(d, groups[..last], x, m);
    }
  }

  lemma InternalIsMarked(d: Dag, groups: seq<Group>, b: int)
    requires Sound(d) && GroupsOK(d, groups) && b in InternalBuffers(d, groups)
    ensures b in MarkedInternal(d, groups)
  {
    var p := d.buffers[b].producer;
    var u := UnitOf(groups, p);
    assert BufferWired(d, b);
    UnitIsListed(groups, p);
    var c := d.buffers[b].consumers[0];
    assert c in d.buffers[b].consumers;
    var j :| 0 <= j < |d.nodes[c].inputs| && d.nodes[c].inputs[j] == b;
    InputsReadable(d, c, j);
    assert u != [p];
    var x :| 0 <= x < |groups| && groups[x] == u;
    assert OnlyConsumedBy(d, groups[x], b);
  }

  /** Buffers fed from outside are exactly the external ones, as setInputBuffer() leaves them. */
  ghost predicate InputsAreExternal(d: Dag) {
    forall b :: b in d.buffers ==> (d.buffers[b].isExternal <==> d.buffers[b].producer < 0)
  }

  /**
   * One region per color: the main result on coloring. Any coloring the greedy loop can produce,
   * fused groups included, gives a run in which every read is right and every output survives.
   */
  lemma ColoredRunIsFaithful(r: Run, color: map<int, nat>, sizes: seq<nat>, size: int -> nat,
                             mems: seq<map<int, Value>>, trace: seq<Event>)
    requires Sound(r.d) && GroupsOK(r.d, r.groups) && InputsAreExternal(r.d)
    requires forall i :: IsNode(r.d, i) ==> r.d.nodes[i].level <= r.maxLevel
    requires Colored(Ranges(r.d, r.groups, InternalBuffers(r.d, r.groups), r.maxLevel), color, sizes, size)
    requires r.place == color
    ensures r.Valid()
    ensures r.IsTrace(trace) && r.IsHistory(mems, trace) ==>
      && (forall n :: 0 <= n < |trace| ==> Agrees(r.d, r.sem, r.ext, r.Inputs(mems[n], trace[n].lead)))
      && (forall b :: Written(r.d, b) && r.d.buffers[b].consumers == [] ==> r.Holds(mems[|trace|], b))
  {
    ColorsAreAliasSafe(r, color, sizes, size);
    if r.IsTrace(trace) && r.IsHistory(mems, trace) {
      r.AliasedRunIsFaithful(mems, trace);
    }
  }

  lemma ColorsAreAliasSafe(r: Run, color: map<int, nat>, sizes: seq<nat>, size: int -> nat)
    requires InputsAreExternal(r.d) && r.place == color
    requires Colored(Ranges(r.d, r.groups, InternalBuffers(r.d, r.groups), r.maxLevel), color, sizes, size)
    ensures r.AliasSafe()
  {
    var ranges := Ranges(r.d, r.groups, InternalBuffers(r.d, r.groups), r.maxLevel);
    var order :| Order(order, ranges) && Greedy(order, |order|, ranges, color);
    GreedyIsProper(order, ranges, color);
    forall b | r.Stored(b) ensures b in ranges && ranges[b] == r.Range(b) {
    }
  }

  /** setExternalPointer() on a result buffer: its own fresh location in place of the region. */
  lemma RedirectKeepsAliasSafe(r: Run, b: int, callerBuf: int)
    requires r.AliasSafe() && callerBuf !in r.place.Values
    ensures r.(place := r.place[b := callerBuf]).AliasSafe()
  {
  }

  // ---- what a fused runner writes (src/pipeline/dag.cpp:435-465, 485-509) ----

  /** The runner writes the tail's first output and every unconsumed output of a member. */
  ghost function RunnerWrites(d: Dag, g: Group): set<int>
    requires LinearGroup(d, g) && d.nodes[g[|g| - 1]].outputs != []
  {
    {d.nodes[g[|g| - 1]].outputs[0]} +
    set b | b in d.buffers && Written(d, b) && d.buffers[b].producer in g && d.buffers[b].consumers == []
  }

  ghost function EscapingSet(d: Dag, g: Group): set<int> {
    set b | b in d.buffers && Escapes(d, g, b)
  }

  /**
   * The runner fills every buffer that leaves the group if and only if the tail feeds later stages
   * from its first output port alone; a consumed second port of the tail would never be written.
   */
  lemma RunnerCoversGroupIff(d: Dag, g: Group)
    requires Sound(d) && LinearGroup(d, g) && d.nodes[g[|g| - 1]].outputs != []
    ensures var tail := d.nodes[g[|g| - 1]];
      RunnerWrites(d, g) == EscapingSet(d, g) <==>
      forall k :: 1 <= k < |tail.outputs| && tail.outputs[k] in d.buffers ==> d.buffers[tail.outputs[k]].consumers == []
  {
    var t := g[|g| - 1];
    var tail := d.nodes[t];
    forall k | 0 <= k < |tail.outputs| ensures Made(d, t, k, tail.outputs[k]) && Escapes(d, g, tail.outputs[k]) {
      TailOutputEscapes(d, g, k);
    }
    assert RunnerWrites(d, g) <= EscapingSet(d, g);
    forall b | b in EscapingSet(d, g) && d.buffers[b].consumers != []
      ensures b in tail.outputs
    {
      OnlyTailFeedsOthers(d, g, b);
    }
    if k :| 1 <= k < |tail.outputs| && d.buffers[tail.outputs[k]].consumers != [] {
      assert Made(d, t, 0, tail.outputs[0]);
      assert tail.outputs[k] in EscapingSet(d, g) && tail.outputs[k] !in RunnerWrites(d, g);
    } else {
      forall b | b in EscapingSet(d, g) ensures b in RunnerWrites(d, g) {
      }
    }
  }

  /** Stages 0 -> 1 -> 2 where 1 has two outputs and 2 reads the second. */
  function TwoOutputTail(): Dag {
    Dag([Node(0, "a", [0], [1], map[0 := 1], [], [1], 0, 0),
         Node(1, "b", [1], [2, 3], map[0 := 2, 1 := 3], [0], [2], 1, 0),
         Node(2, "c", [3], [4], map[0 := 4], [1], [], 2, 0)],
        map[0 := NewBuffer(8, "in", -1, 0, [0], true), 1 := NewBuffer(8, "ab", 0, 0, [1], false),
            2 := NewBuffer(8, "b0", 1, 0, [], false), 3 := NewBuffer(8, "bc", 1, 1, [2], false),
            4 := NewBuffer(8, "c0", 2, 0, [], false)],
        5)
  }

  lemma TwoOutputTailIsSound()
    ensures Sound(TwoOutputTail()) && LinearGroup(TwoOutputTail(), [0, 1])
  {
    var d := TwoOutputTail();
    assert d.nodes[0].inputs == [0] && d.nodes[1].inputs == [1] && d.nodes[2].inputs == [3];
    forall i, k | IsNode(d, i) && 0 <= k < |d.nodes[i].inputs| ensures Fed(d, i, d.nodes[i].inputs[k]) {
      assert i == 0 || i == 1 || i == 2;
    }
    forall i, k | IsNode(d, i) && 0 <= k < |d.nodes[i].outputs| ensures Made(d, i, k, d.nodes[i].outputs[k]) {
      assert i == 0 || i == 1 || i == 2;
    }
    forall b | b in d.buffers ensures BufferWired(d, b) {
      assert b == 0 || b == 1 || b == 2 || b == 3 || b == 4;
    }
    assert Linked(d, 0, 1);
  }

  /** Fusing 0 and 1 leaves the buffer stage 2 reads unwritten. */
  lemma SecondTailOutputIsMissed()
    ensures var d, g := TwoOutputTail(), [0, 1];
      && LinearGroup(d, g) && d.nodes[g[|g| - 1]].outputs != []
      && 3 in EscapingSet(d, g) && 3 in d.nodes[2].inputs && 3 !in RunnerWrites(d, g)
  {
    TwoOutputTailIsSound();
    var d, g := TwoOutputTail(), [0, 1];
    TailOutputEscapes(d, g, 1);
    assert d.nodes[2].inputs[0] == 3;
  }

  lemma TailOutputEscapes(d: Dag, g: Group, k: int)
    requires Sound(d) && LinearGroup(d, g) && 0 <= k < |d.nodes[g[|g| - 1]].outputs|
    ensures Made(d, g[|g| - 1], k, d.nodes[g[|g| - 1]].outputs[k])
    ensures Escapes(d, g, d.nodes[g[|g| - 1]].outputs[k])
  {
    var t := g[|g| - 1];
    var b := d.nodes[t].outputs[k];
    assert Made(d, t, k, b);
    if d.buffers[b].consumers != [] {
      var c := d.buffers[b].consumers[0];
      assert BufferWired(d, b) && c in d.buffers[b].consumers;
      var j :| 0 <= j < |d.nodes[c].inputs| && d.nodes[c].inputs[j] == b;
      InputsReadable(d, c, j);
      if c in g {
        var x :| 0 <= x < |g| && g[x] == c;
        var y := |g| - 1;
        if x < y {
          ChainClimbs(d, g, x, y);
        }
      }
    }
  }

  lemma OnlyTailFeedsOthers(d: Dag, g: Group, b: int)
    requires Sound(d) && LinearGroup(d, g) && Escapes(d, g, b) && d.buffers[b].consumers != []
    ensures b in d.nodes[g[|g| - 1]].outputs
  {
    var p := d.buffers[b].producer;
    var x :| 0 <= x < |g| && g[x] == p;
    if x < |g| - 1 {
      InteriorFeedsNext(d, g, x, b);
    }
  }

  lemma InteriorFeedsNext(d: Dag, g: Group, x: int, b: int)
    requires Sound(d) && LinearGroup(d, g) && 0 <= x < |g| - 1
    requires Written(d, b) && d.buffers[b].producer == g[x]
    ensures forall c :: c in d.buffers[b].consumers ==> c == g[x + 1]
  {
  }

  // ---- execute() walks the levels, so its writes form a trace ----

  ghost function ToSeq(s: set<Event>): (r: seq<Event>)
    ensures forall e :: e in r <==> e in s
    decreases |s|
  {
    if s == {} then [] else
      var e := Pick(s);
      ToSeq(s - {e}) + [e]
  }

  ghost function LevelEvents(r: Run, level: int): set<Event> {
    set i, b | 0 <= i < |r.d.nodes| && b in r.d.buffers && r.IsEvent(Event(i, b)) &&
        r.LevelOf(Event(i, b)) == level :: Event(i, b)
  }

  /** All writes of levels 0..n-1, level by level. */
  ghost function LevelByLevel(r: Run, n: nat): seq<Event> {
    if n == 0 then [] else LevelByLevel(r, n - 1) + ToSeq(LevelEvents(r, n - 1))
  }

  ghost predicate CoversLevels(r: Run, t: seq<Event>, n: int) {
    && (forall i :: 0 <= i < |t| ==> r.IsEvent(t[i]))
    && (forall i :: 0 <= i < |t| ==> r.LevelOf(t[i]) < n)
    && (forall i, j :: 0 <= i < j < |t| ==> r.LevelOf(t[i]) <= r.LevelOf(t[j]))
    && (forall e :: r.IsEvent(e) && 0 <= r.LevelOf(e) < n ==> e in t)
  }

  lemma {:induction false} LevelByLevelSorted(r: Run, n: nat)
    ensures CoversLevels(r, LevelByLevel(r, n), n)
  {
    if n > 0 {
      var m := n - 1;
      LevelByLevelSorted(r, m);
      var s, x := LevelByLevel(r, m), ToSeq(LevelEvents(r, m));
      assert LevelByLevel(r, n) == s + x;
      forall e | e in x ensures r.IsEvent(e) && r.LevelOf(e) == m {
        assert e in LevelEvents(r, m);
      }
      forall i | |s| <= i < |s + x| ensures (s + x)[i] in x {
      }
      forall e | r.IsEvent(e) && r.LevelOf(e) == m ensures e in x {
        assert e == Event(e.lead, e.buf);
        assert e in LevelEvents(r, m);
      }
    }
  }

  /** The order execute() follows is one of the traces the theorems range over. */
  lemma ExecuteIsATrace(r: Run)
    requires r.Valid() && r.maxLevel >= 0
    ensures r.IsTrace(LevelByLevel(r, r.maxLevel + 1))
  {
    var n := r.maxLevel + 1;
    LevelByLevelSorted(r, n);
    var t := LevelByLevel(r, n);
    forall e | r.IsEvent(e) ensures e in t {
      EventLevelInRange(r, e);
    }
    assert r.IsTrace(t);
  }

  lemma EventLevelInRange(r: Run, e: Event)
    requires r.Valid() && r.IsEvent(e)
    ensures 0 <= r.LevelOf(e) <= r.maxLevel
  {
  }
}
