/**
 * Running a DAG over shared storage (src/pipeline/dag.cpp:419-650). Work is a trace of single-buffer
 * writes ordered by level; inside a level, kernels and their output ports interleave freely.
 * The central theorem: when buffers with overlapping live ranges have different locations, every
 * kernel reads exactly the values the wiring stands for, and every pipeline output survives.
 */
module Execution {
  import opened Values
  import opened Graph
  import opened Liveness

  /** `g` is a linear chain: each member's only successor is the next one, and conversely. */
  ghost predicate LinearGroup(d: Dag, g: Group) {
    && |g| >= 1
    && (forall k :: 0 <= k < |g| ==> IsNode(d, g[k]))
    && (forall k :: 0 < k < |g| ==> Linked(d, g[k - 1], g[k]))
  }

  ghost predicate Linked(d: Dag, p: int, c: int) {
    IsNode(d, p) && IsNode(d, c) && d.nodes[c].deps == [p] && d.nodes[p].dependents == [c]
  }

  ghost predicate GroupsOK(d: Dag, groups: seq<Group>) {
    && (forall x :: 0 <= x < |groups| ==> LinearGroup(d, groups[x]))
    && (forall x, y, i :: 0 <= x < y < |groups| && i in groups[x] ==> i !in groups[y])
  }

  /** Buffers entering the unit from outside it. */
  ghost function Entering(d: Dag, u: Group): set<int> {
    set k, j, b | 0 <= k < |u| && IsNode(d, u[k]) && 0 <= j < |d.nodes[u[k]].inputs| && b == d.nodes[u[k]].inputs[j]
      && b in d.buffers && d.buffers[b].producer !in u :: b
  }

  /** An edge wholly inside a unit: consumed, and only by members (src/pipeline/dag.cpp:397-410). */
  ghost predicate InternalTo(d: Dag, u: Group, b: int)
    requires b in d.buffers
  {
    && d.buffers[b].producer in u
    && d.buffers[b].consumers != []
    && forall c :: c in d.buffers[b].consumers ==> c in u
  }

  ghost predicate IsInternal(d: Dag, groups: seq<Group>, b: int)
    requires b in d.buffers
  {
    InternalTo(d, UnitOf(groups, d.buffers[b].producer), b)
  }

  ghost predicate Escapes(d: Dag, u: Group, b: int) {
    Written(d, b) && d.buffers[b].producer in u && !InternalTo(d, u, b)
  }

  lemma {:induction false} UnitFacts(d: Dag, groups: seq<Group>, i: int)
    requires GroupsOK(d, groups) && IsNode(d, i)
    ensures LinearGroup(d, UnitOf(groups, i))
    ensures forall m :: m in UnitOf(groups, i) ==> UnitOf(groups, m) == UnitOf(groups, i)
    decreases |groups|
  {
    if groups != [] {
      var last := |groups| - 1;
      assert LinearGroup(d, groups[last]);
      if i !in groups[last] {
        assert GroupsOK(d, groups[..last]);
        UnitFacts(d, groups[..last], i);
        UnitIsListed(groups[..last], i);
      }
    }
  }

  lemma {:induction false} UnitIsListed(groups: seq<Group>, i: int)
    ensures UnitOf(groups, i) == [i] || exists x :: 0 <= x < |groups| && groups[x] == UnitOf(groups, i)
    decreases |groups|
  {
    if groups != [] {
      var last := |groups| - 1;
      if i in groups[last] {
        assert groups[last] == UnitOf(groups, i);
      } else {
        UnitIsListed(groups[..last], i);
        if UnitOf(groups, i) != [i] {
          var x :| 0 <= x < last && groups[..last][x] == UnitOf(groups[..last], i);
          assert groups[x] == UnitOf(groups, i);
        }
      }
    }
  }

  lemma {:induction false} ChainClimbs(d: Dag, u: Group, a: int, b: int)
    requires Sound(d) && LinearGroup(d, u) && 0 <= a < b < |u|
    ensures d.nodes[u[a]].level < d.nodes[u[b]].level
    decreases b
  {
    assert Linked(d, u[b - 1], u[b]);
    assert NodeLeveled(d, u[b]);
    if a < b - 1 {
      ChainClimbs(d, u, a, b - 1);
    }
  }

  lemma HeadIsLowest(d: Dag, u: Group, m: int)
    requires Sound(d) && LinearGroup(d, u) && m in u
    ensures d.nodes[u[0]].level <= d.nodes[m].level
  {
    var k :| 0 <= k < |u| && u[k] == m;
    if k > 0 {
      ChainClimbs(d, u, 0, k);
    }
  }

  /** Past the head, a produced input comes from the previous member. */
  lemma ProducedInputsEnterAtHead(d: Dag, u: Group, k: int, j: int)
    requires Sound(d) && LinearGroup(d, u) && 0 <= k < |u| && 0 <= j < |d.nodes[u[k]].inputs|
    ensures var p := d.buffers[d.nodes[u[k]].inputs[j]].producer;
      0 <= p && (0 < k || p in u) ==> 0 < k && p == u[k - 1]
  {
    var p := d.buffers[d.nodes[u[k]].inputs[j]].producer;
    InputsReadable(d, u[k], j);
    if k > 0 {
      assert Linked(d, u[k - 1], u[k]);
    } else if p in u {
      HeadIsLowest(d, u, p);
    }
  }

  /** Where a unit's inputs come from: produced ones enter at the head, from a unit on a lower level. */
  lemma EnteringFromBelow(d: Dag, groups: seq<Group>, maxLevel: int, l: int, b: int)
    requires Sound(d) && GroupsOK(d, groups) && IsNode(d, l)
    requires b in Entering(d, UnitOf(groups, l)) && d.buffers[b].producer >= 0
    ensures Readable(d, b)
    ensures var p := d.buffers[b].producer;
      && Escapes(d, UnitOf(groups, p), b)
      && CollapsedLevel(d.nodes, groups, p) < CollapsedLevel(d.nodes, groups, l)
    ensures CollapsedLevel(d.nodes, groups, l) <= RangeOf(d.nodes, groups, maxLevel, d.buffers[b]).dies
  {
    var u := UnitOf(groups, l);
    UnitFacts(d, groups, l);
    var k, j :| 0 <= k < |u| && 0 <= j < |d.nodes[u[k]].inputs| && b == d.nodes[u[k]].inputs[j];
    InputsReadable(d, u[k], j);
    var p := d.buffers[b].producer;
    ProducedInputsEnterAtHead(d, u, k, j);
    UnitFacts(d, groups, p);
    HeadIsLowest(d, UnitOf(groups, p), p);
    assert u[0] !in UnitOf(groups, p);
    LastUseIsMax(d.nodes, groups, d.buffers[b].consumers);
    assert u[0] in d.buffers[b].consumers && UnitOf(groups, u[0]) == u;
  }

  // ---- running one unit ----

  ghost function StageOutputs(d: Dag, sem: StageSem, i: int, env: map<int, Value>): map<int, Value>
    requires IsNode(d, i)
  {
    var ins := seq(|d.nodes[i].inputs|, k requires 0 <= k < |d.nodes[i].inputs| =>
      if d.nodes[i].inputs[k] in env then env[d.nodes[i].inputs[k]] else []);
    map b | b in d.nodes[i].outputs && b in d.buffers :: sem(d.nodes[i].stage, ins, d.buffers[b].port)
  }

  /** The members from the `k`-th on, one after another; the fused kernel computes the same composition. */
  ghost function RunMembers(d: Dag, sem: StageSem, u: Group, k: int, env: map<int, Value>): map<int, Value>
    requires 0 <= k <= |u| && forall x :: 0 <= x < |u| ==> IsNode(d, u[x])
    decreases |u| - k
  {
    if k == |u| then env else RunMembers(d, sem, u, k + 1, env + StageOutputs(d, sem, u[k], env))
  }

  ghost predicate Agrees(d: Dag, sem: StageSem, ext: int -> Value, env: map<int, Value>)
    requires Sound(d)
  {
    forall b :: b in env ==> Readable(d, b) && env[b] == ValueOf(d, sem, ext, b)
  }

  ghost predicate HasOutputs(d: Dag, u: Group, k: int, env: map<int, Value>) {
    forall x, b :: 0 <= x < k && x < |u| && IsNode(d, u[x]) && b in d.nodes[u[x]].outputs ==> b in env
  }

  lemma StageOutputsAgree(d: Dag, sem: StageSem, ext: int -> Value, i: int, env: map<int, Value>)
    requires Sound(d) && IsNode(d, i) && Agrees(d, sem, ext, env)
    requires forall j :: 0 <= j < |d.nodes[i].inputs| ==> d.nodes[i].inputs[j] in env
    ensures Agrees(d, sem, ext, StageOutputs(d, sem, i, env))
    ensures forall b :: b in d.nodes[i].outputs ==> b in StageOutputs(d, sem, i, env)
  {
    var n := d.nodes[i];
    var ins := seq(|n.inputs|, k requires 0 <= k < |n.inputs| => if n.inputs[k] in env then env[n.inputs[k]] else []);
    assert ins == InputValues(d, sem, ext, i);
    forall b | b in n.outputs
      ensures b in d.buffers && Readable(d, b) && ValueOf(d, sem, ext, b) == sem(n.stage, ins, d.buffers[b].port)
    {
      var k :| 0 <= k < |n.outputs| && n.outputs[k] == b;
      assert Made(d, i, k, b);
    }
  }

  lemma {:induction false} RunMembersAgrees(d: Dag, sem: StageSem, ext: int -> Value, u: Group, k: int,
                                            env: map<int, Value>)
    requires Sound(d) && LinearGroup(d, u) && 0 <= k <= |u|
    requires Agrees(d, sem, ext, env) && Entering(d, u) <= env.Keys && HasOutputs(d, u, k, env)
    ensures var r := RunMembers(d, sem, u, k, env);
      Agrees(d, sem, ext, r) && HasOutputs(d, u, |u|, r)
    decreases |u| - k
  {
    if k < |u| {
      forall j | 0 <= j < |d.nodes[u[k]].inputs|
        ensures d.nodes[u[k]].inputs[j] in env
      {
        MemberInputAvailable(d, u, k, j, env);
      }
      StageOutputsAgree(d, sem, ext, u[k], env);
      RunMembersAgrees(d, sem, ext, u, k + 1, env + StageOutputs(d, sem, u[k], env));
    }
  }

  lemma MemberInputAvailable(d: Dag, u: Group, k: int, j: int, env: map<int, Value>)
    requires Sound(d) && LinearGroup(d, u) && 0 <= k < |u| && 0 <= j < |d.nodes[u[k]].inputs|
    requires Entering(d, u) <= env.Keys && HasOutputs(d, u, k, env)
    ensures d.nodes[u[k]].inputs[j] in env
  {
    var b := d.nodes[u[k]].inputs[j];
    InputsReadable(d, u[k], j);
    var p := d.buffers[b].producer;
    ProducedInputsEnterAtHead(d, u, k, j);
    if p !in u {
      assert b in Entering(d, u);
    }
  }

  // ---- running a trace over placed buffers ----

  /** One write: the unit led by `lead` writes its escaping buffer `buf`. */
  datatype Event = Event(lead: int, buf: int)

  /** A DAG with its groups, the location of every buffer, stage semantics and external inputs. */
  datatype Run = Run(d: Dag, groups: seq<Group>, maxLevel: int, place: map<int, int>, sem: StageSem,
                     ext: int -> Value) {

    ghost predicate Valid() {
      && Sound(d) && GroupsOK(d, groups)
      && (forall i :: IsNode(d, i) ==> d.nodes[i].level <= maxLevel)
      && AliasSafe()
    }

    function Range(b: int): LiveRange
      requires b in d.buffers
    {
      RangeOf(d.nodes, groups, maxLevel, d.buffers[b])
    }

    ghost predicate Stored(b: int) {
      Written(d, b) && !IsInternal(d, groups, b)
    }

    /** Every stored buffer has a location, and buffers live at a common level have different ones. */
    ghost predicate AliasSafe() {
      && (forall b :: Stored(b) ==> b in place)
      && (forall a, b :: Stored(a) && Stored(b) && a != b && Overlap(Range(a), Range(b)) ==> place[a] != place[b])
    }

    ghost predicate IsEvent(e: Event) {
      IsNode(d, e.lead) && UnitOf(groups, e.lead)[0] == e.lead && Escapes(d, UnitOf(groups, e.lead), e.buf)
    }

    function LevelOf(e: Event): int {
      CollapsedLevel(d.nodes, groups, e.lead)
    }

    /** Levels never go back, and every unit writes every one of its escaping buffers at least once. */
    ghost predicate IsTrace(trace: seq<Event>) {
      && (forall t :: 0 <= t < |trace| ==> IsEvent(trace[t]))
      && (forall s, t :: 0 <= s < t < |trace| ==> LevelOf(trace[s]) <= LevelOf(trace[t]))
      && (forall e :: IsEvent(e) ==> e in trace)
    }

    /** What a kernel finds when it reads buffer `b`. */
    ghost function Fetch(mem: map<int, Value>, b: int): Value
      requires b in d.buffers
    {
      if d.buffers[b].producer < 0 then ext(b)
      else if b in place && place[b] in mem then mem[place[b]] else []
    }

    ghost function Inputs(mem: map<int, Value>, lead: int): map<int, Value> {
      map b | b in Entering(d, UnitOf(groups, lead)) :: Fetch(mem, b)
    }

    ghost function Step(mem: map<int, Value>, e: Event): map<int, Value>
      requires Valid() && IsEvent(e)
    {
      UnitFacts(d, groups, e.lead);
      var outs := RunMembers(d, sem, UnitOf(groups, e.lead), 0, Inputs(mem, e.lead));
      if e.buf in place && e.buf in outs then mem[place[e.buf] := outs[e.buf]] else mem
    }

    /** `mems[n]` is the memory before event `n`; `mems[0]` is whatever the storage held at the start. */
    ghost predicate IsHistory(mems: seq<map<int, Value>>, trace: seq<Event>)
      requires Valid() && IsTrace(trace)
    {
      && |mems| == |trace| + 1
      && forall n, n1 :: 0 <= n < |trace| && n1 == n + 1 ==> StepTaken(mems, trace, n, n1)
    }

    ghost predicate StepTaken(mems: seq<map<int, Value>>, trace: seq<Event>, n: int, n1: int)
      requires Valid() && IsTrace(trace) && 0 <= n < |trace| && n1 == n + 1 < |mems|
    {
      mems[n1] == Step(mems[n], trace[n])
    }

    /** The location of `b` holds the value `b` stands for. */
    ghost predicate Holds(mem: map<int, Value>, b: int)
      requires Sound(d)
    {
      Readable(d, b) && b in place && place[b] in mem && mem[place[b]] == ValueOf(d, sem, ext, b)
    }

    lemma EventFacts(e: Event)
      requires Valid() && IsEvent(e)
      ensures Stored(e.buf) && Readable(d, e.buf) && UnitOf(groups, d.buffers[e.buf].producer) == UnitOf(groups, e.lead)
      ensures Range(e.buf).born == LevelOf(e) <= Range(e.buf).dies
      ensures LevelOf(e) <= maxLevel
    {
      var p, b := d.buffers[e.buf].producer, e.buf;
      UnitFacts(d, groups, e.lead);
      assert BufferWired(d, b);
      var cs := d.buffers[b].consumers;
      if cs != [] {
        LastUseIsMax(d.nodes, groups, cs);
        var c :| c in cs && c !in UnitOf(groups, e.lead);
        OutsideConsumerIsHigher(c, b);
      }
    }

    lemma OutsideConsumerIsHigher(c: int, b: int)
      requires Sound(d) && GroupsOK(d, groups)
      requires b in d.buffers && c in d.buffers[b].consumers && d.buffers[b].producer >= 0
      requires c !in UnitOf(groups, d.buffers[b].producer)
      ensures IsNode(d, c)
      ensures CollapsedLevel(d.nodes, groups, d.buffers[b].producer) < CollapsedLevel(d.nodes, groups, c)
    {
      assert BufferWired(d, b);
      var p := d.buffers[b].producer;
      var j :| 0 <= j < |d.nodes[c].inputs| && d.nodes[c].inputs[j] == b;
      InputsReadable(d, c, j);
      UnitFacts(d, groups, c);
      UnitFacts(d, groups, p);
      assert b in Entering(d, UnitOf(groups, c)) by {
        var u := UnitOf(groups, c);
        var k :| 0 <= k < |u| && u[k] == c;
        assert p !in u;
      }
      EnteringFromBelow(d, groups, maxLevel, c, b);
    }

    /** Any input a unit needs has been written, by an earlier event, and is still live. */
    lemma InputWasWritten(trace: seq<Event>, n: nat, b: int) returns (t: nat)
      requires Valid() && IsTrace(trace) && n < |trace|
      requires b in Entering(d, UnitOf(groups, trace[n].lead)) && d.buffers[b].producer >= 0
      ensures t < n && trace[t].buf == b && LevelOf(trace[n]) <= Range(b).dies
    {
      var p := d.buffers[b].producer;
      EnteringFromBelow(d, groups, maxLevel, trace[n].lead, b);
      UnitFacts(d, groups, p);
      var e := Event(UnitOf(groups, p)[0], b);
      assert IsEvent(e);
      t :| 0 <= t < |trace| && trace[t] == e;
      assert LevelOf(e) < LevelOf(trace[n]);
    }

    /** Buffers written so far whose range reaches the current level still hold their value. */
    ghost predicate LiveIntact(mem: map<int, Value>, trace: seq<Event>, n: nat)
      requires Valid() && IsTrace(trace) && n <= |trace|
    {
      forall t :: 0 <= t < n && trace[t].buf in d.buffers && LevelOf(trace[n - 1]) <= Range(trace[t].buf).dies ==>
          Holds(mem, trace[t].buf)
    }

    lemma ReadsAreRight(mem: map<int, Value>, trace: seq<Event>, n: nat)
      requires Valid() && IsTrace(trace) && n < |trace| && LiveIntact(mem, trace, n)
      ensures Agrees(d, sem, ext, Inputs(mem, trace[n].lead))
    {
      var l := trace[n].lead;
      UnitFacts(d, groups, l);
      forall b | b in Entering(d, UnitOf(groups, l))
        ensures Readable(d, b) && Fetch(mem, b) == ValueOf(d, sem, ext, b)
      {
        var u := UnitOf(groups, l);
        var k, j :| 0 <= k < |u| && 0 <= j < |d.nodes[u[k]].inputs| && b == d.nodes[u[k]].inputs[j];
        InputsReadable(d, u[k], j);
        if d.buffers[b].producer >= 0 {
          var t := InputWasWritten(trace, n, b);
          assert LevelOf(trace[n - 1]) <= LevelOf(trace[n]);
          assert Holds(mem, trace[t].buf);
        }
      }
    }

    /** The event stores the value its buffer stands for, and changes no other location. */
    lemma StepWritesValue(mems: seq<map<int, Value>>, trace: seq<Event>, n: nat, n1: nat)
      requires Valid() && IsTrace(trace) && n < |trace| && n1 == n + 1 < |mems|
      requires LiveIntact(mems[n], trace, n) && StepTaken(mems, trace, n, n1)
      ensures Holds(mems[n1], trace[n].buf)
      ensures mems[n1] == mems[n][place[trace[n].buf] := ValueOf(d, sem, ext, trace[n].buf)]
    {
      var e := trace[n];
      var u := UnitOf(groups, e.lead);
      UnitFacts(d, groups, e.lead);
      ReadsAreRight(mems[n], trace, n);
      RunMembersAgrees(d, sem, ext, u, 0, Inputs(mems[n], e.lead));
      EventFacts(e);
      var p :| 0 <= p < |u| && u[p] == d.buffers[e.buf].producer;
    }

    /** A buffer live across the event is placed elsewhere, so it is left alone. */
    lemma LiveAcrossEvent(trace: seq<Event>, n: nat, t: nat)
      requires Valid() && IsTrace(trace) && t < n < |trace|
      requires LevelOf(trace[n]) <= Range(trace[t].buf).dies && trace[t].buf != trace[n].buf
      ensures trace[t].buf in place && trace[n].buf in place && place[trace[t].buf] != place[trace[n].buf]
    {
      EventFacts(trace[n]);
      EventFacts(trace[t]);
      assert Overlap(Range(trace[t].buf), Range(trace[n].buf));
    }

    lemma StepKeepsLive(mems: seq<map<int, Value>>, trace: seq<Event>, n: nat, n1: nat)
      requires Valid() && IsTrace(trace) && n < |trace| && n1 == n + 1 < |mems|
      requires LiveIntact(mems[n], trace, n) && StepTaken(mems, trace, n, n1)
      ensures LiveIntact(mems[n1], trace, n1)
    {
      StepWritesValue(mems, trace, n, n1);
      forall t | 0 <= t < n1 && trace[t].buf in d.buffers && LevelOf(trace[n]) <= Range(trace[t].buf).dies
        ensures Holds(mems[n1], trace[t].buf)
      {
        if trace[t].buf != trace[n].buf {
          LiveAcrossEvent(trace, n, t);
          var last := n - 1;
          assert LevelOf(trace[last]) <= LevelOf(trace[n]);
          assert Holds(mems[n], trace[t].buf);
        }
      }
    }

    lemma {:induction false} LiveIntactAlways(mems: seq<map<int, Value>>, trace: seq<Event>, n: nat)
      requires Valid() && IsTrace(trace) && IsHistory(mems, trace) && n <= |trace|
      ensures LiveIntact(mems[n], trace, n)
    {
      if n > 0 {
        var m := n - 1;
        LiveIntactAlways(mems, trace, m);
        assert StepTaken(mems, trace, m, n);
        StepKeepsLive(mems, trace, m, n);
      }
    }

    /**
     * Whatever the storage held before and however kernels of one level interleave: every event
     * reads, for each buffer entering its unit, the value that buffer stands for, and after the
     * run every unconsumed buffer (a pipeline output) holds its value.
     */
    lemma AliasedRunIsFaithful(mems: seq<map<int, Value>>, trace: seq<Event>)
      requires Valid() && IsTrace(trace) && IsHistory(mems, trace)
      ensures forall n :: 0 <= n < |trace| ==> Agrees(d, sem, ext, Inputs(mems[n], trace[n].lead))
      ensures forall b :: Written(d, b) && d.buffers[b].consumers == [] ==> Holds(mems[|trace|], b)
    {
      forall n | 0 <= n < |trace|
        ensures Agrees(d, sem, ext, Inputs(mems[n], trace[n].lead))
      {
        LiveIntactAlways(mems, trace, n);
        ReadsAreRight(mems[n], trace, n);
      }
      LiveIntactAlways(mems, trace, |trace|);
      forall b | Written(d, b) && d.buffers[b].consumers == []
        ensures Holds(mems[|trace|], b)
      {
        UnitFacts(d, groups, d.buffers[b].producer);
        var e := Event(UnitOf(groups, d.buffers[b].producer)[0], b);
        assert IsEvent(e);
        var t :| 0 <= t < |trace| && trace[t] == e;
        EventFacts(trace[|trace| - 1]);
      }
    }
  }

  /**
   * The same DAG and groups with two placements (say one region per color, and one location per
   * buffer), any two traces and any initial memories: each unit reads the same inputs in both runs
   * and the pipeline outputs end up equal.
   */
  lemma PlacementDoesNotMatter(r: Run, s: Run, mr: seq<map<int, Value>>, ms: seq<map<int, Value>>, tr: seq<Event>,
                               ts: seq<Event>)
    requires s == r.(place := s.place) && r.Valid() && s.Valid()
    requires r.IsTrace(tr) && r.IsHistory(mr, tr) && s.IsTrace(ts) && s.IsHistory(ms, ts)
    ensures forall n, m :: 0 <= n < |tr| && 0 <= m < |ts| && tr[n].lead == ts[m].lead ==>
      r.Inputs(mr[n], tr[n].lead) == s.Inputs(ms[m], ts[m].lead)
    ensures forall b :: Written(r.d, b) && r.d.buffers[b].consumers == [] ==>
      r.Fetch(mr[|tr|], b) == s.Fetch(ms[|ts|], b)
  {
    r.AliasedRunIsFaithful(mr, tr);
    s.AliasedRunIsFaithful(ms, ts);
    forall n, m | 0 <= n < |tr| && 0 <= m < |ts| && tr[n].lead == ts[m].lead
      ensures r.Inputs(mr[n], tr[n].lead) == s.Inputs(ms[m], ts[m].lead)
    {
      SameInputs(r, s, mr[n], ms[m], tr[n].lead);
    }
  }

  lemma SameInputs(r: Run, s: Run, mr: map<int, Value>, ms: map<int, Value>, lead: int)
    requires Sound(r.d) && s == r.(place := s.place)
    requires Agrees(r.d, r.sem, r.ext, r.Inputs(mr, lead)) && Agrees(s.d, s.sem, s.ext, s.Inputs(ms, lead))
    ensures r.Inputs(mr, lead) == s.Inputs(ms, lead)
  {
  }
}
