/** buildInverseDAG() on a mutable CompressionDAG (src/pipeline/compressor_inverse_dag.cpp:14-231). */
module InverseBuilder {
  import opened Values
  import opened Graph
  import opened Building
  import opened Levels
  import opened Liveness
  import opened Execution
  import opened Placement
  import opened Sums
  import opened InverseDag
  import opened FusedGroups
  import opened CompressionDag
  import opened Tags

  /** estimateOutputSizes(): stage and input sizes give one size per output port it knows about. */
  type Estimator = (int, seq<nat>) -> seq<nat>

  // ---- edits that leave the wiring alone ----

  /** Same nodes and edges, same external inputs; levels, streams and planned sizes may differ. */
  ghost predicate SameWiring(d: Dag, e: Dag) {
    && |e.nodes| == |d.nodes|
    && (forall i :: IsNode(d, i) ==> e.nodes[i] == d.nodes[i].(level := e.nodes[i].level, stream := e.nodes[i].stream))
    && e.buffers.Keys == d.buffers.Keys
    && (forall b :: b in d.buffers ==> Resized(d.buffers[b], e.buffers[b]))
  }

  /** The same edge, fed from the same side; only a produced buffer's sizes and storage may differ. */
  ghost predicate Resized(a: BufferInfo, b: BufferInfo) {
    && SameEdge(a, b) && b.isExternal == a.isExternal && (a.isExternal ==> b == a)
    && (a.size == a.initialSize ==> b.size == b.initialSize)
  }

  lemma SameWiringIsSound(d: Dag, e: Dag)
    requires SameWiring(d, e) && Sound(d)
    requires forall i :: IsNode(d, i) ==> e.nodes[i].level == d.nodes[i].level
    ensures Sound(e)
  {
  }

  /** Buffers stand for the same values whatever their sizes, pointers and streams. */
  lemma {:induction false} SameWiringSameValue(d: Dag, e: Dag, sem: StageSem, ext: int -> Value, b: int)
    requires SameWiring(d, e) && Sound(d) && Sound(e) && Readable(d, b)
    ensures Readable(e, b) && ValueOf(e, sem, ext, b) == ValueOf(d, sem, ext, b)
    decreases Rank(d, b)
  {
    assert Resized(d.buffers[b], e.buffers[b]);
    var p := d.buffers[b].producer;
    if p >= 0 {
      assert NodeLeveled(d, p);
      var x, y := InputValues(d, sem, ext, p), InputValues(e, sem, ext, p);
      forall k | 0 <= k < |x| ensures x[k] == y[k] {
        InputsReadable(d, p, k);
        SameWiringSameValue(d, e, sem, ext, d.nodes[p].inputs[k]);
      }
      assert x == y;
    }
  }

  // ---- steps 1 and 2 ----

  method BuildConsumers(fwd: seq<FwdStage>) returns (m: map<int, (int, int)>)
    ensures m == Consumers(fwd, |fwd|)
  {
    m := map[];
    for i := 0 to |fwd|
      invariant m == Consumers(fwd, i)
    {
      for j := 0 to |fwd[i].inputs|
        invariant m == ConsumersOfInputs(Consumers(fwd, i), i, fwd[i].inputs, j)
      {
        if fwd[i].inputs[j] >= 0 {
          m := m[fwd[i].inputs[j] := (i, j)];
        }
      }
    }
  }

  method AddNodes(dag: CompressionDAG, fwd: seq<FwdStage>, info: StageInfo, hint: nat)
    requires dag.Contents() == EMPTY_DAG && !dag.isFinalized
    modifies dag`nodes, dag`buffers, dag`nextBuffer
    ensures dag.Contents() == AddStages(fwd, info, hint, 0)
  {
    var i := |fwd|;
    while i > 0
      invariant 0 <= i <= |fwd|
      invariant dag.Contents() == AddStages(fwd, info, hint, i)
    {
      i := i - 1;
      ghost var before := dag.Contents();
      var s := fwd[i].stage;
      var id := dag.AddStage(s, info.name(s));
      ghost var goal := AddPorts(dag.Contents(), id, info, s, hint, 0);
      assert goal == AddStages(fwd, info, hint, i);
      var j := 0;
      while j < info.numOutputs(s)
        invariant 0 <= j <= info.numOutputs(s) && 0 <= id < |dag.nodes|
        invariant AddPorts(dag.Contents(), id, info, s, hint, j) == goal
      {
        var _ := dag.AddUnconnectedOutput(id, hint, j, PortTag(info, s, j));
        j := j + 1;
      }
    }
  }

  /** One inverse input; false where the source throws. */
  method WireInput(dag: CompressionDAG, ghost info: StageInfo, fwd: seq<FwdStage>, po: map<int, Segment>,
                   cons: map<int, (int, int)>, i: nat, k: nat) returns (ok: bool)
    requires i < |fwd| && k < |fwd[i].outputs| && Topological(fwd) && cons == Consumers(fwd, |fwd|)
    requires WiredUpTo(fwd, info, po, dag.Contents(), i, k) && !dag.isFinalized && !dag.coloringApplied
    modifies dag`nodes, dag`buffers, dag`nextBuffer, dag`currentUsage
    ensures ok <==> WireOne(fwd, po, old(dag.Contents()), i, k).Ok?
    ensures ok ==> WireOne(fwd, po, old(dag.Contents()), i, k) == Ok(dag.Contents())
  {
    var b, n := fwd[i].outputs[k], |fwd| - 1 - i;
    ConsumersFacts(fwd, |fwd|, b);
    if b in cons {
      var p := |fwd| - 1 - cons[b].0;
      assert NodeFor(fwd, info, dag.Contents(), cons[b].0);
      ok := dag.ConnectExistingOutput(p, n, cons[b].1);
    } else if b !in po {
      ok := false;
    } else {
      ghost var d := dag.Contents();
      dag.SetInputBuffer(n, po[b].size, InvTag(b));
      var ext := dag.nodes[n].inputs[|dag.nodes[n].inputs| - 1];
      assert ext == d.nextBuffer;
      dag.SetExternalPointer(ext, po[b].ptr);
      ok := true;
    }
  }

  lemma NextInput(fwd: seq<FwdStage>, info: StageInfo, po: map<int, Segment>, e: Dag, d: Dag, i: nat, k: nat, next: nat)
    requires i < |fwd| && k < |fwd[i].outputs| && next == k + 1 && Topological(fwd) && WiredUpTo(fwd, info, po, e, i, 0)
    requires WireStage(fwd, po, e, i, k) == Ok(d)
    ensures WiredUpTo(fwd, info, po, d, i, k) && WireStage(fwd, po, e, i, next) == WireOne(fwd, po, d, i, k)
  {
    WireStageKeeps(fwd, info, po, e, i, k);
  }

  method WireStageInputs(dag: CompressionDAG, ghost info: StageInfo, fwd: seq<FwdStage>, po: map<int, Segment>,
                         cons: map<int, (int, int)>, i: nat) returns (ok: bool)
    requires i < |fwd| && Topological(fwd) && cons == Consumers(fwd, |fwd|)
    requires WiredUpTo(fwd, info, po, dag.Contents(), i, 0) && !dag.isFinalized && !dag.coloringApplied
    modifies dag`nodes, dag`buffers, dag`nextBuffer, dag`currentUsage
    ensures var r := WireStage(fwd, po, old(dag.Contents()), i, |fwd[i].outputs|);
      if ok then r == Ok(dag.Contents()) else r.Err?
  {
    ghost var e := dag.Contents();
    var k, count := 0, |fwd[i].outputs|;
    while k < count
      invariant 0 <= k <= count && WireStage(fwd, po, e, i, k) == Ok(dag.Contents())
    {
      var k1 := k + 1;
      ghost var before := dag.Contents();
      NextInput(fwd, info, po, e, before, i, k, k1);
      var wired := WireInput(dag, info, fwd, po, cons, i, k);
      if !wired {
        WireStageErr(fwd, po, e, i, k1, count);
        return false;
      }
      k := k1;
    }
    ok := true;
  }

  lemma NextStage(fwd: seq<FwdStage>, info: StageInfo, po: map<int, Segment>, d: Dag, e: Dag, i: nat)
    requires i <= |fwd| && Topological(fwd) && WiredUpTo(fwd, info, po, d, 0, 0) && WireAll(fwd, po, d, i) == Ok(e)
    ensures WiredUpTo(fwd, info, po, e, i, 0)
  {
    WireAllKeeps(fwd, info, po, d, i);
  }

  method WireInputs(dag: CompressionDAG, ghost info: StageInfo, fwd: seq<FwdStage>, po: map<int, Segment>)
    returns (ok: bool)
    requires Topological(fwd) && WiredUpTo(fwd, info, po, dag.Contents(), 0, 0) && !dag.isFinalized
    requires !dag.coloringApplied
    modifies dag`nodes, dag`buffers, dag`nextBuffer, dag`currentUsage
    ensures var r := WireAll(fwd, po, old(dag.Contents()), |fwd|);
      if ok then r == Ok(dag.Contents()) else r.Err?
  {
    var cons := BuildConsumers(fwd);
    ghost var d := dag.Contents();
    for i := 0 to |fwd|
      invariant WireAll(fwd, po, d, i) == Ok(dag.Contents())
    {
      NextStage(fwd, info, po, d, dag.Contents(), i);
      var wired := WireStageInputs(dag, info, fwd, po, cons, i);
      if !wired {
        ghost var i1 := i + 1;
        WireAllErr(fwd, po, d, i1, |fwd|);
        return false;
      }
    }
    ok := true;
  }

  // ---- step 3: result buffers ----

  ghost predicate HasSource(fwd: seq<FwdStage>, sources: map<int, nat>) {
    exists i :: 0 <= i < |fwd| && fwd[i].stage in sources
  }

  ghost predicate SourcesHaveOutputs(fwd: seq<FwdStage>, info: StageInfo, sources: map<int, nat>, count: int) {
    forall i :: 0 <= i < count && i < |fwd| && fwd[i].stage in sources ==> info.numOutputs(fwd[i].stage) > 0
  }

  /** Each source stage's result is its inverse node's first output. */
  ghost predicate ResultsOf(fwd: seq<FwdStage>, sources: map<int, nat>, d: Dag, results: map<int, int>, count: int)
    requires |d.nodes| == |fwd|
  {
    && (forall i :: 0 <= i < count && i < |fwd| && fwd[i].stage in sources ==>
          && fwd[i].stage in results && d.nodes[InvNode(fwd, i)].outputs != []
          && results[fwd[i].stage] == d.nodes[InvNode(fwd, i)].outputs[0])
    && (forall s :: s in results ==> s in sources && exists i :: 0 <= i < count && i < |fwd| && fwd[i].stage == s)
  }

  lemma PersistentKeepsWiring(d: Dag, e: Dag, b: int)
    requires SameWiring(d, e) && b in d.buffers && !d.buffers[b].isExternal
    ensures b in e.buffers && SameWiring(d, WithPersistent(e, b, true))
  {
  }

  lemma MoreResults(fwd: seq<FwdStage>, sources: map<int, nat>, d: Dag, results: map<int, int>, i: int)
    requires DistinctStages(fwd) && |d.nodes| == |fwd| && ResultsOf(fwd, sources, d, results, i)
    requires 0 <= i < |fwd| && fwd[i].stage in sources && d.nodes[InvNode(fwd, i)].outputs != []
    ensures ResultsOf(fwd, sources, d, results[fwd[i].stage := d.nodes[InvNode(fwd, i)].outputs[0]], i + 1)
  {
  }

  method MarkResults(dag: CompressionDAG, ghost info: StageInfo, ghost po: map<int, Segment>, fwd: seq<FwdStage>,
                     sources: map<int, nat>)
    returns (ok: bool, results: map<int, int>)
    requires DistinctStages(fwd) && WiredUpTo(fwd, info, po, dag.Contents(), |fwd|, 0)
    modifies dag`buffers
    ensures SameWiring(old(dag.Contents()), dag.Contents())
    ensures ok <==> SourcesHaveOutputs(fwd, info, sources, |fwd|) && HasSource(fwd, sources)
    ensures ok ==> ResultsOf(fwd, sources, dag.Contents(), results, |fwd|)
  {
    results := map[];
    ghost var d := dag.Contents();
    for i := 0 to |fwd|
      invariant SameWiring(d, dag.Contents()) && dag.nodes == d.nodes
      invariant SourcesHaveOutputs(fwd, info, sources, i)
      invariant ResultsOf(fwd, sources, d, results, i)
    {
      assert NodeFor(fwd, info, d, i);
      var s, sink := fwd[i].stage, |fwd| - 1 - i;
      if s in sources {
        if dag.nodes[sink].outputs == [] {
          return false, results;
        }
        var res := dag.nodes[sink].outputs[0];
        assert Made(d, sink, 0, d.nodes[sink].outputs[0]);
        PersistentKeepsWiring(d, dag.Contents(), res);
        dag.SetBufferPersistent(res, true);
        MoreResults(fwd, sources, d, results, i);
        results := results[s := res];
      }
    }
    ok := results.Keys != {};
    SomeResultIff(fwd, sources, d, results);
  }

  lemma SomeResultIff(fwd: seq<FwdStage>, sources: map<int, nat>, d: Dag, results: map<int, int>)
    requires |d.nodes| == |fwd| && ResultsOf(fwd, sources, d, results, |fwd|)
    ensures results.Keys != {} <==> HasSource(fwd, sources)
  {
    if results.Keys != {} {
      var s := Pick(results.Keys);
      assert s in results;
    }
    if HasSource(fwd, sources) {
      var i :| 0 <= i < |fwd| && fwd[i].stage in sources;
      assert fwd[i].stage in results.Keys;
    }
  }

  // ---- step 5: planned sizes ----

  function InSizes(d: Dag, i: int): seq<nat>
    requires 0 <= i < |d.nodes|
  {
    seq(|d.nodes[i].inputs|, k requires 0 <= k < |d.nodes[i].inputs| =>
      if d.nodes[i].inputs[k] in d.buffers then d.buffers[d.nodes[i].inputs[k]].size else 0)
  }

  /** Every output port the stage has an estimate for is planned at that estimate. */
  ghost predicate EstimatedAt(d: Dag, est: Estimator, i: int)
    requires IsNode(d, i)
  {
    var e := est(d.nodes[i].stage, InSizes(d, i));
    forall k :: 0 <= k < |d.nodes[i].outputs| && k < |e| ==>
      d.nodes[i].outputs[k] in d.buffers && d.buffers[d.nodes[i].outputs[k]].size == e[k]
  }

  ghost predicate PlannedFrom(d: Dag, e: Dag) {
    SameWiring(d, e) && e.nodes == d.nodes
  }

  /** Only outputs of node `i` change size. */
  ghost predicate OnlyOutputsOf(d: Dag, e: Dag, i: int) {
    && PlannedFrom(d, e)
    && forall b :: b in d.buffers && d.buffers[b].producer != i ==> e.buffers[b].size == d.buffers[b].size
  }

  /** Resizing output `k` of node `i` touches no other output and nothing else. */
  lemma OutputResized(d: Dag, e: Dag, i: int, k: nat, size: nat)
    requires Sound(d) && IsNode(d, i) && k < |d.nodes[i].outputs| && OnlyOutputsOf(d, e, i)
    requires forall b :: b in d.buffers && d.buffers[b].isExternal ==> d.buffers[b].producer < 0
    ensures d.nodes[i].outputs[k] in e.buffers && OnlyOutputsOf(d, WithSize(e, d.nodes[i].outputs[k], size), i)
    ensures forall x :: 0 <= x < k ==> d.nodes[i].outputs[x] != d.nodes[i].outputs[k]
  {
    var b := d.nodes[i].outputs[k];
    assert Made(d, i, k, b);
    assert Resized(d.buffers[b], e.buffers[b]);
    forall x | 0 <= x < k ensures d.nodes[i].outputs[x] != b {
      assert Made(d, i, x, d.nodes[i].outputs[x]);
    }
  }

  method EstimateNode(dag: CompressionDAG, est: Estimator, i: nat)
    requires Sound(dag.Contents()) && i < |dag.nodes|
    requires forall b :: b in dag.buffers && dag.buffers[b].isExternal ==> dag.buffers[b].producer < 0
    modifies dag`buffers
    ensures OnlyOutputsOf(old(dag.Contents()), dag.Contents(), i) && EstimatedAt(dag.Contents(), est, i)
  {
    ghost var d := dag.Contents();
    var ins := InSizes(dag.Contents(), i);
    var e := est(dag.nodes[i].stage, ins);
    var outs := dag.nodes[i].outputs;
    var k := 0;
    while k < |outs| && k < |e|
      invariant 0 <= k <= |outs| && k <= |e|
      invariant OnlyOutputsOf(d, dag.Contents(), i)
      invariant forall x :: 0 <= x < k ==> outs[x] in dag.buffers && dag.buffers[outs[x]].size == e[x]
    {
      OutputResized(d, dag.Contents(), i, k, e[k]);
      dag.UpdateBufferSize(outs[k], e[k]);
      k := k + 1;
    }
    InputsKeepSize(d, dag.Contents(), i, i);
  }

  /** Resizing node `n`'s outputs leaves the inputs of a node on the same or a lower level alone. */
  lemma InputsKeepSize(d: Dag, e: Dag, n: int, i: int)
    requires Sound(d) && OnlyOutputsOf(d, e, n) && IsNode(d, n) && IsNode(d, i) && d.nodes[i].level <= d.nodes[n].level
    ensures InSizes(e, i) == InSizes(d, i)
  {
  }

  /** Walking the levels upwards leaves every node at its estimate: inputs are final when they are read. */
  method PropagateSizes(dag: CompressionDAG, est: Estimator)
    requires Sound(dag.Contents()) && ListsLevels(dag.levels, dag.nodes, dag.maxLevel)
    requires forall b :: b in dag.buffers && dag.buffers[b].isExternal ==> dag.buffers[b].producer < 0
    requires forall i :: 0 <= i < |dag.nodes| ==> dag.nodes[i].level <= dag.maxLevel
    modifies dag`buffers
    ensures PlannedFrom(old(dag.Contents()), dag.Contents())
    ensures forall i :: IsNode(dag.Contents(), i) ==> EstimatedAt(dag.Contents(), est, i)
  {
    ghost var d := dag.Contents();
    for l := 0 to |dag.levels|
      invariant PlannedFrom(d, dag.Contents()) && Sound(dag.Contents())
      invariant forall i :: IsNode(d, i) && d.nodes[i].level < l ==> EstimatedAt(dag.Contents(), est, i)
    {
      var level := dag.levels[l];
      for x := 0 to |level|
        invariant PlannedFrom(d, dag.Contents()) && Sound(dag.Contents())
        invariant forall i :: IsNode(d, i) && (d.nodes[i].level < l || i in level[..x]) ==>
          EstimatedAt(dag.Contents(), est, i)
      {
        ghost var before := dag.Contents();
        assert level[x] in dag.levels[l] && OnLevel(d.nodes, l, level[x]);
        forall b | b in before.buffers && before.buffers[b].isExternal ensures before.buffers[b].producer < 0 {
          assert Resized(d.buffers[b], before.buffers[b]);
        }
        EstimateNode(dag, est, level[x]);
        SameWiringIsSound(before, dag.Contents());
        PlannedFromTransitive(d, before, dag.Contents());
        forall i | IsNode(d, i) && i != level[x] && (d.nodes[i].level < l || i in level[..x])
          ensures EstimatedAt(dag.Contents(), est, i)
        {
          assert i in level[..x] ==> i in dag.levels[l] && OnLevel(d.nodes, l, i);
          EstimateKept(before, dag.Contents(), est, level[x], i);
        }
        assert level[..x + 1] == level[..x] + [level[x]];
      }
      assert level[..|level|] == level;
      forall i | IsNode(d, i) && d.nodes[i].level == l ensures i in level {
        assert OnLevel(d.nodes, l, i);
      }
    }
  }

  lemma PlannedFromTransitive(d: Dag, e: Dag, f: Dag)
    requires PlannedFrom(d, e) && PlannedFrom(e, f)
    ensures PlannedFrom(d, f)
  {
  }

  /** Re-estimating `n` does not disturb a node on the same or a lower level. */
  lemma EstimateKept(d: Dag, e: Dag, est: Estimator, n: int, i: int)
    requires Sound(d) && OnlyOutputsOf(d, e, n) && IsNode(d, n) && IsNode(d, i) && i != n
    requires d.nodes[i].level <= d.nodes[n].level && EstimatedAt(d, est, i)
    ensures EstimatedAt(e, est, i)
  {
    InputsKeepSize(d, e, n, i);
    forall k | 0 <= k < |d.nodes[i].outputs| ensures Made(d, i, k, d.nodes[i].outputs[k]) {
    }
  }

  /** Result buffers grow to the recorded source size but never shrink below the estimate. */
  ghost predicate ResultsGrown(planned: Dag, d: Dag, sources: map<int, nat>, results: map<int, int>) {
    && PlannedFrom(planned, d)
    && (forall s :: s in results && s in sources && results[s] in planned.buffers ==>
          d.buffers[results[s]].size == Max(planned.buffers[results[s]].size, sources[s]))
    && (forall b :: b in planned.buffers && b !in results.Values ==> d.buffers[b].size == planned.buffers[b].size)
  }

  lemma ResizedAt(d: Dag, e: Dag, b: int)
    requires SameWiring(d, e) && b in d.buffers
    ensures b in e.buffers && Resized(d.buffers[b], e.buffers[b])
  {
  }

  method GrowResults(dag: CompressionDAG, fwd: seq<FwdStage>, sources: map<int, nat>, results: map<int, int>)
    requires forall s :: s in results ==> results[s] in dag.buffers && !dag.buffers[results[s]].isExternal
    requires forall s, t :: s in results && t in results && s != t ==> results[s] != results[t]
    requires forall i, j :: 0 <= i < j < |fwd| ==> fwd[i].stage != fwd[j].stage
    requires forall s :: s in results && s in sources ==> exists i :: 0 <= i < |fwd| && fwd[i].stage == s
    modifies dag`buffers
    ensures ResultsGrown(old(dag.Contents()), dag.Contents(), sources, results)
  {
    ghost var planned := dag.Contents();
    for i := 0 to |fwd|
      invariant PlannedFrom(planned, dag.Contents())
      invariant forall x :: 0 <= x < |fwd| && fwd[x].stage in results && fwd[x].stage in sources ==>
        dag.buffers[results[fwd[x].stage]].size == GrownSize(planned, sources, results, fwd[x].stage, x < i)
      invariant forall b :: b in planned.buffers && b !in results.Values ==>
        dag.buffers[b].size == planned.buffers[b].size
    {
      var s := fwd[i].stage;
      if s in sources && s in results {
        ghost var before := dag.Contents();
        ResizedAt(planned, before, results[s]);
        dag.UpdateBufferSize(results[s], Max(dag.buffers[results[s]].size, sources[s]));
      }
    }
  }

  function GrownSize(planned: Dag, sources: map<int, nat>, results: map<int, int>, s: int, grown: bool): nat
    requires s in results && s in sources && results[s] in planned.buffers
  {
    if grown then Max(planned.buffers[results[s]].size, sources[s]) else planned.buffers[results[s]].size
  }

  // ---- the whole builder ----

  /** Total bytes of all sources, at least 1: the first size every inverse output gets. */
  ghost function HintOf(sources: map<int, nat>): nat {
    Max(1, Sum(sources.Keys, SizeIn(sources)))
  }

  ghost function SizeIn(sources: map<int, nat>): int -> nat {
    s => if s in sources then sources[s] else 0
  }

  method ComputeHint(sources: map<int, nat>) returns (hint: nat)
    ensures hint == HintOf(sources)
  {
    hint := 0;
    var todo := sources.Keys;
    while todo != {}
      invariant todo <= sources.Keys
      invariant hint + Sum(todo, SizeIn(sources)) == Sum(sources.Keys, SizeIn(sources))
      decreases |todo|
    {
      var s := AnyOf(todo);
      SumRemove(todo, s, SizeIn(sources));
      todo := todo - {s};
      hint := hint + sources[s];
    }
    if hint == 0 {
      hint := 1;
    }
  }

  ghost predicate Buildable(fwd: seq<FwdStage>, info: StageInfo, po: map<int, Segment>, sources: map<int, nat>) {
    && AllWirable(fwd, info, po, |fwd|)
    && HasSource(fwd, sources) && SourcesHaveOutputs(fwd, info, sources, |fwd|)
  }

  /** Marking results persistent leaves a DAG the chain walk and assignLevels() accept. */
  lemma MarkedFacts(fwd: seq<FwdStage>, info: StageInfo, po: map<int, Segment>, w: Dag, m: Dag)
    requires WiredUpTo(fwd, info, po, w, |fwd|, 0) && PlannedFrom(w, m) && m.nextBuffer == w.nextBuffer
    ensures Growing(m) && Ascending(m) && ValidDeps(DepsOf(m)) && DepsOf(m) == DepsOf(w)
    ensures forall i :: IsNode(m, i) ==> m.nodes[i].level == -1
  {
    forall b | b in w.buffers ensures Resized(w.buffers[b], m.buffers[b]) {
    }
    forall i, k | IsNode(m, i) && 0 <= k < |m.nodes[i].inputs| ensures Fed(m, i, m.nodes[i].inputs[k]) {
      assert Fed(w, i, w.nodes[i].inputs[k]);
    }
    forall i, k | IsNode(m, i) && 0 <= k < |m.nodes[i].outputs| ensures Made(m, i, k, m.nodes[i].outputs[k]) {
      assert Made(w, i, k, w.nodes[i].outputs[k]);
    }
    forall b | b in m.buffers ensures BufferWired(m, b) {
      assert BufferWired(w, b);
    }
    forall i | IsNode(m, i) ensures PortsListed(m.nodes[i]) && m.nodes[i].level == -1 {
      assert PortsListed(w.nodes[i]);
      var x := |fwd| - 1 - i;
      assert NodeFor(fwd, info, w, x) && InvNode(fwd, x) == i;
    }
    forall p, c | IsNode(m, p) && c in m.nodes[p].dependents ensures DependsOn(m, c, p) {
      assert DependsOn(w, c, p);
    }
    assert DepsOf(m) == DepsOf(w);
    forall i, k | 0 <= i < |DepsOf(m)| && 0 <= k < |DepsOf(m)[i]| ensures 0 <= DepsOf(m)[i][k] < |DepsOf(m)| {
      assert m.nodes[i].deps[k] in m.nodes[i].deps;
    }
  }

  /** finalize() turns the marked wiring into a leveled one. */
  lemma LeveledFacts(fwd: seq<FwdStage>, info: StageInfo, po: map<int, Segment>, w: Dag, m: Dag, l: Dag)
    requires WiredUpTo(fwd, info, po, w, |fwd|, 0) && PlannedFrom(w, m) && DepsOf(m) == DepsOf(w)
    requires ValidDeps(DepsOf(m))
    requires FinalizedAs(m, l)
    ensures Sound(Finalized(w)) && SameWiring(Finalized(w), l) && Sound(l)
    ensures forall i :: IsNode(l, i) ==> l.nodes[i].level == Finalized(w).nodes[i].level
  {
    FinalizedIsSound(fwd, info, po, w);
    SameWiringIsSound(Finalized(w), l);
  }

  /** Groups and internal edges depend on the wiring only. */
  lemma GroupsCarryOver(d: Dag, e: Dag, groups: seq<Group>)
    requires SameWiring(d, e) && GroupsOK(d, groups)
    ensures GroupsOK(e, groups) && MarkedInternal(e, groups) == MarkedInternal(d, groups)
  {
  }

  lemma SameWiringTransitive(d: Dag, e: Dag, f: Dag)
    requires SameWiring(d, e) && SameWiring(e, f)
    ensures SameWiring(d, f)
  {
  }

  /** Results are distinct output buffers of distinct nodes. */
  lemma ResultsAreDistinct(fwd: seq<FwdStage>, sources: map<int, nat>, d: Dag, results: map<int, int>)
    requires |d.nodes| == |fwd| && Wired(d) && ResultsOf(fwd, sources, d, results, |fwd|)
    requires forall b :: b in d.buffers ==> (d.buffers[b].isExternal <==> d.buffers[b].producer < 0)
    ensures forall s :: s in results ==> results[s] in d.buffers && !d.buffers[results[s]].isExternal && s in sources
    ensures forall s, t :: s in results && t in results && s != t ==> results[s] != results[t]
    ensures forall s :: s in results ==> exists i :: 0 <= i < |fwd| && fwd[i].stage == s
  {
    forall s, t | s in results && t in results ensures s != t ==> results[s] != results[t] {
      var i :| 0 <= i < |fwd| && fwd[i].stage == s;
      var j :| 0 <= j < |fwd| && fwd[j].stage == t;
      assert Made(d, InvNode(fwd, i), 0, d.nodes[InvNode(fwd, i)].outputs[0]);
      assert Made(d, InvNode(fwd, j), 0, d.nodes[InvNode(fwd, j)].outputs[0]);
    }
    forall s | s in results ensures results[s] in d.buffers && !d.buffers[results[s]].isExternal {
      var i :| 0 <= i < |fwd| && fwd[i].stage == s;
      assert Made(d, InvNode(fwd, i), 0, d.nodes[InvNode(fwd, i)].outputs[0]);
    }
  }

  /** Steps 1 to 3: false where the source throws, otherwise the marked wiring. */
  method WireAndMark(dag: CompressionDAG, fwd: seq<FwdStage>, po: map<int, Segment>, info: StageInfo,
                     sources: map<int, nat>)
    returns (ok: bool, results: map<int, int>, ghost w: Dag)
    requires DistinctStages(fwd) && Topological(fwd)
    requires dag.Contents() == EMPTY_DAG && !dag.isFinalized && !dag.coloringApplied
    modifies dag`nodes, dag`buffers, dag`nextBuffer, dag`currentUsage
    ensures ok <==> Buildable(fwd, info, po, sources)
    ensures ok ==> Wiring(fwd, info, po, HintOf(sources)) == Ok(w) && WiredUpTo(fwd, info, po, w, |fwd|, 0)
    ensures ok ==>
      PlannedFrom(w, dag.Contents()) && dag.nextBuffer == w.nextBuffer && ResultsOf(fwd, sources, w, results, |fwd|)
  {
    var hint := ComputeHint(sources);
    AddNodes(dag, fwd, info, hint);
    NothingWiredYet(fwd, info, po, hint);
    WiringIsTotalIff(fwd, info, po, hint);
    ok := WireInputs(dag, info, fwd, po);
    w := dag.Contents();
    results := map[];
    if ok {
      ok, results := MarkResults(dag, info, po, fwd, sources);
    }
  }

  /**
   * The finished inverse DAG `d` (sizes planned, not yet placed in storage): wired as `Wiring` says,
   * leveled, each result the first output of its source's inverse node and sized
   * max(estimate, recorded source size).
   */
  ghost predicate Built(fwd: seq<FwdStage>, info: StageInfo, po: map<int, Segment>, sources: map<int, nat>,
                        est: Estimator,
                        results: map<int, int>, planned: Dag, d: Dag) {
    var w := Wiring(fwd, info, po, HintOf(sources));
    w.Ok? && ResultsOf(fwd, sources, w.value, results, |fwd|) &&
        BuiltOn(fwd, info, po, w.value, sources, est, results, planned, d)
  }

  ghost predicate BuiltOn(fwd: seq<FwdStage>, info: StageInfo, po: map<int, Segment>, w: Dag, sources: map<int, nat>,
                          est: Estimator,
                          results: map<int, int>, planned: Dag, d: Dag) {
    && WiredUpTo(fwd, info, po, w, |fwd|, 0) && ValidDeps(DepsOf(w)) && Sound(Finalized(w))
    && SameWiring(Finalized(w), d) && Sound(d)
    && (forall i :: IsNode(d, i) ==> d.nodes[i].level == Finalized(w).nodes[i].level)
    && ResultsGrown(planned, d, sources, results)
    && (forall i :: IsNode(planned, i) ==> EstimatedAt(planned, est, i))
  }

  /** Steps 4 and 5: levels, then sizes. */
  method LevelAndSize(dag: CompressionDAG, fwd: seq<FwdStage>, ghost po: map<int, Segment>, ghost info: StageInfo,
                      est: Estimator,
                      sources: map<int, nat>, results: map<int, int>, ghost w: Dag) returns (ghost planned: Dag)
    requires DistinctStages(fwd) && WiredUpTo(fwd, info, po, w, |fwd|, 0) && ResultsOf(fwd, sources, w, results, |fwd|)
    requires PlannedFrom(w, dag.Contents()) && dag.nextBuffer == w.nextBuffer
    modifies dag`nodes, dag`buffers, dag`levels, dag`maxLevel, dag`streams, dag`isFinalized
    ensures BuiltOn(fwd, info, po, w, sources, est, results, planned, dag.Contents())
    ensures SameWiring(old(dag.Contents()), dag.Contents())
    ensures forall i :: 0 <= i < |dag.nodes| ==> dag.nodes[i].level <= dag.maxLevel
  {
    ghost var marked := dag.Contents();
    MarkedFacts(fwd, info, po, w, marked);
    dag.Finalize();
    ghost var leveled := dag.Contents();
    LeveledFacts(fwd, info, po, w, marked, leveled);
    ExternalsHaveNoProducer(w, leveled);
    PropagateSizes(dag, est);
    planned := dag.Contents();
    ResultsAreDistinct(fwd, sources, w, results);
    forall s | s in results ensures results[s] in dag.buffers && !dag.buffers[results[s]].isExternal {
      assert Resized(leveled.buffers[results[s]], planned.buffers[results[s]]);
    }
    GrowResults(dag, fwd, sources, results);
    SizedFacts(Finalized(w), marked, leveled, planned, dag.Contents());
  }

  lemma SizedFacts(f: Dag, marked: Dag, leveled: Dag, planned: Dag, d: Dag)
    requires SameWiring(f, leveled) && SameWiring(marked, leveled) && Sound(leveled)
    requires PlannedFrom(leveled, planned) && PlannedFrom(planned, d)
    ensures SameWiring(f, d) && SameWiring(marked, d) && Sound(d)
  {
    PlannedFromTransitive(leveled, planned, d);
    SameWiringIsSound(leveled, d);
    SameWiringTransitive(f, leveled, d);
    SameWiringTransitive(marked, leveled, d);
  }

  lemma ExternalsHaveNoProducer(w: Dag, l: Dag)
    requires Growing(w) && SameWiring(w.(nodes := l.nodes), l)
    ensures forall b :: b in l.buffers && l.buffers[b].isExternal ==> l.buffers[b].producer < 0
  {
  }

  /** Same nodes and edges, sizes as planned: only pointers and allocation marks differ. */
  ghost predicate SameButStorage(d: Dag, e: Dag) {
    && e.nodes == d.nodes && e.buffers.Keys == d.buffers.Keys
    && forall b :: b in e.buffers && b in d.buffers ==> OnlyStorageDiffers(d.buffers[b], e.buffers[b])
  }

  /** What fusion, coloring and execution rely on: levels climb, groups are disjoint linear chains. */
  ghost predicate ReadyToRun(d: Dag, groups: seq<Group>, internal: set<int>, maxLevel: int) {
    && Sound(d) && GroupsOK(d, groups) && internal == MarkedInternal(d, groups)
    && (forall i :: IsNode(d, i) ==> d.nodes[i].level <= maxLevel)
    && (forall x :: 0 <= x < |groups| ==> |groups[x]| >= 2)
  }

  ghost predicate ColoredFor(d: Dag, groups: seq<Group>, internal: set<int>, maxLevel: int, color: map<int, nat>,
                             sizes: seq<nat>) {
    Colored(Ranges(d, groups, internal, maxLevel), color, sizes, SizeOf(d))
  }

  lemma PlacedIsStored(d: Dag, e: Dag, color: map<int, nat>, sizes: seq<nat>, ptrs: seq<int>)
    requires e.nodes == d.nodes && e.buffers.Keys == d.buffers.Keys
    requires forall b :: b in e.buffers ==> e.buffers[b] == Placed(d.buffers[b], b, color, sizes, ptrs)
    ensures SameButStorage(d, e)
  {
  }

  lemma GrantedIsStored(d: Dag, e: Dag, internal: set<int>, grant: int -> int)
    requires e.nodes == d.nodes && e.buffers.Keys == d.buffers.Keys
    requires forall b :: b in e.buffers ==> HasStorage(d.buffers[b], e.buffers[b], b in internal, grant(b))
    ensures SameButStorage(d, e)
  {
  }

  /** Step 6 (preallocateBuffers on the inverse DAG): storage changes neither edges nor planned sizes. */
  method PlaceInStorage(dag: CompressionDAG, ghost d: Dag, grant: int -> int) returns (ok: bool)
    requires d == dag.Contents() && GroupsInRange(d, dag.fusedGroups)
    requires !dag.coloringApplied && !dag.coloringDisabled
    modifies dag`buffers, dag`bufferColor, dag`regionSizes, dag`regionPtrs, dag`coloringApplied, dag`currentUsage
    modifies dag`peakUsage
    ensures Stored(d, dag, ok, grant)
  {
    ok := true;
    if dag.isPreallocate {
      ok := dag.PreallocateBuffers(grant);
      if dag.coloringApplied {
        PlacedIsStored(d, dag.Contents(), dag.bufferColor, dag.regionSizes, dag.regionPtrs);
      } else if ok {
        GrantedIsStored(d, dag.Contents(), dag.fusedInternal, grant);
      }
    }
  }

  /**
   * The outcome of step 6 on the finished DAG `d`: uncolored preallocation succeeds if and only if
   * the pool grants every buffer; storage is a coloring wherever one could be applied.
   */
  ghost predicate Stored(d: Dag, dag: CompressionDAG, ok: bool, grant: int -> int)
    reads dag
  {
    && (ok <==> (dag.isPreallocate && !dag.coloringApplied ==> AllGranted(d.buffers, dag.fusedInternal, grant)))
    && (ok ==> SameButStorage(d, dag.Contents()))
    && (dag.coloringApplied ==>
          ColoredFor(d, dag.fusedGroups, dag.fusedInternal, dag.maxLevel, dag.bufferColor, dag.regionSizes))
    && (dag.isPreallocate && !dag.coloringApplied ==>
          StaysUncolored(d, dag.fusedGroups, dag.fusedInternal, dag.maxLevel, |dag.streams|))
  }

  /** Groups are selected on the wiring before finalize(): greedily, on every maximal chain. */
  method FuseIfAsked(dag: CompressionDAG, fuse: bool, reg: StageRegistry)
    requires Growing(dag.Contents()) && Ascending(dag.Contents()) && dag.fusedGroups == [] && dag.fusedInternal == {}
    modifies dag`fusedGroups, dag`fusedInternal
    ensures dag.fusedGroups == if fuse then InverseGroups(dag.Contents(), reg) else []
    ensures GroupsOK(dag.Contents(), dag.fusedGroups)
    ensures dag.fusedInternal == MarkedInternal(dag.Contents(), dag.fusedGroups)
    ensures forall x :: 0 <= x < |dag.fusedGroups| ==> |dag.fusedGroups[x]| >= 2
  {
    if fuse {
      var groups := SelectInverseGroups(dag.Contents(), reg);
      OutputsExist(dag.Contents());
      GroupsStayInRange(dag.Contents(), groups);
      dag.SetFusedGroups(groups);
    }
  }

  lemma GroupsStayInRange(d: Dag, groups: seq<Group>)
    requires GroupsOK(d, groups)
    ensures forall x, m :: 0 <= x < |groups| && m in groups[x] ==> 0 <= m < |d.nodes|
  {
  }

  lemma BuiltFrom(fwd: seq<FwdStage>, info: StageInfo, po: map<int, Segment>, w: Dag, sources: map<int, nat>,
                  est: Estimator,
                  results: map<int, int>, planned: Dag, d: Dag)
    requires Wiring(fwd, info, po, HintOf(sources)) == Ok(w) && ResultsOf(fwd, sources, w, results, |fwd|)
    requires BuiltOn(fwd, info, po, w, sources, est, results, planned, d)
    ensures Built(fwd, info, po, sources, est, results, planned, d)
  {
  }

  /** A built DAG is at its planned sizes: every resize sets both. */
  lemma BuiltAtPlannedSizes(fwd: seq<FwdStage>, info: StageInfo, po: map<int, Segment>, sources: map<int, nat>,
                            est: Estimator,
                            results: map<int, int>, planned: Dag, d: Dag)
    requires Built(fwd, info, po, sources, est, results, planned, d)
    ensures AtPlannedSizes(d)
  {
    var w := Wiring(fwd, info, po, HintOf(sources)).value;
    WiringAtPlannedSizes(fwd, info, po, HintOf(sources));
    forall b | b in d.buffers ensures d.buffers[b].size == d.buffers[b].initialSize {
      assert Resized(w.buffers[b], d.buffers[b]);
    }
  }

  /** Groups selected on the wiring are those of the leveled and sized DAG. */
  lemma FusedFacts(m: Dag, d: Dag, groups: seq<Group>, internal: set<int>, maxLevel: int, fuse: bool,
                   reg: StageRegistry)
    requires SameWiring(m, d) && GroupsOK(m, groups) && internal == MarkedInternal(m, groups) && Sound(d)
    requires groups == (if fuse then InverseGroups(m, reg) else [])
    requires (forall i :: IsNode(d, i) ==> d.nodes[i].level <= maxLevel)
    requires (forall x :: 0 <= x < |groups| ==> |groups[x]| >= 2)
    ensures ReadyToRun(d, groups, internal, maxLevel)
    ensures groups == if fuse then InverseGroups(d, reg) else []
  {
    ShapeDecidesGroups(m, d, reg);
    GroupsCarryOver(m, d, groups);
  }

  /** Steps 4 to 6a on the marked wiring: groups, levels, sizes. */
  method FuseLevelAndSize(dag: CompressionDAG, fwd: seq<FwdStage>, ghost po: map<int, Segment>, ghost info: StageInfo,
                          est: Estimator,
                          sources: map<int, nat>, results: map<int, int>, ghost w: Dag, fuse: bool, reg: StageRegistry)
    returns (ghost planned: Dag)
    requires DistinctStages(fwd) && WiredUpTo(fwd, info, po, w, |fwd|, 0) && ResultsOf(fwd, sources, w, results, |fwd|)
    requires Wiring(fwd, info, po, HintOf(sources)) == Ok(w)
    requires PlannedFrom(w, dag.Contents()) && dag.nextBuffer == w.nextBuffer && dag.fusedGroups == []
    requires dag.fusedInternal == {}
    modifies dag`nodes, dag`buffers, dag`levels, dag`maxLevel, dag`streams, dag`isFinalized, dag`fusedGroups
    modifies dag`fusedInternal
    ensures Finished(fwd, info, po, sources, est, dag.fusedGroups, dag.fusedInternal, dag.maxLevel, results, planned,
                     dag.Contents())
    ensures dag.fusedGroups == if fuse then InverseGroups(dag.Contents(), reg) else []
  {
    ghost var marked := dag.Contents();
    MarkedFacts(fwd, info, po, w, marked);
    FuseIfAsked(dag, fuse, reg);
    planned := LevelAndSize(dag, fwd, po, info, est, sources, results, w);
    FusedFacts(marked, dag.Contents(), dag.fusedGroups, dag.fusedInternal, dag.maxLevel, fuse, reg);
    BuiltFrom(fwd, info, po, w, sources, est, results, planned, dag.Contents());
  }

  /** Everything up to storage: false where a step throws. */
  method BuildUnplaced(dag: CompressionDAG, fwd: seq<FwdStage>, po: map<int, Segment>, info: StageInfo, est: Estimator,
                       sources: map<int, nat>, fuse: bool, reg: StageRegistry)
    returns (ok: bool, results: map<int, int>, ghost planned: Dag)
    requires DistinctStages(fwd) && Topological(fwd)
    requires dag.Contents() == EMPTY_DAG && !dag.isFinalized && !dag.coloringApplied && !dag.coloringDisabled
    requires dag.fusedGroups == [] && dag.fusedInternal == {}
    modifies dag`nodes, dag`buffers, dag`nextBuffer, dag`currentUsage, dag`levels, dag`maxLevel, dag`streams
    modifies dag`isFinalized
    modifies dag`fusedGroups, dag`fusedInternal
    ensures ok <==> Buildable(fwd, info, po, sources)
    ensures ok ==> Finished(fwd, info, po, sources, est, dag.fusedGroups, dag.fusedInternal, dag.maxLevel, results,
                            planned, dag.Contents())
    ensures ok ==> dag.fusedGroups == if fuse then InverseGroups(dag.Contents(), reg) else []
    ensures !dag.coloringApplied && !dag.coloringDisabled && dag.isPreallocate == old(dag.isPreallocate)
  {
    ghost var w;
    ok, results, w := WireAndMark(dag, fwd, po, info, sources);
    if ok {
      planned := FuseLevelAndSize(dag, fwd, po, info, est, sources, results, w, fuse, reg);
    } else {
      planned := EMPTY_DAG;
    }
  }

  /** The inverse DAG up to storage: `grown` is wired, leveled, sized and ready to run with these groups. */
  ghost predicate Finished(fwd: seq<FwdStage>, info: StageInfo, po: map<int, Segment>, sources: map<int, nat>,
                           est: Estimator, groups: seq<Group>, internal: set<int>, maxLevel: int,
                           results: map<int, int>, planned: Dag, grown: Dag) {
    && Built(fwd, info, po, sources, est, results, planned, grown)
    && ReadyToRun(grown, groups, internal, maxLevel)
  }

  /**
   * In a finished inverse DAG every registered run of at least two consecutive nodes, on a chain that
   * starts at a dependency-free node, shares a node with an installed group.
   */
  lemma BuiltGroupsAreMaximal(fwd: seq<FwdStage>, info: StageInfo, po: map<int, Segment>, sources: map<int, nat>,
                              est: Estimator, results: map<int, int>, planned: Dag, d: Dag,
                              reg: StageRegistry, start: int, begin: nat, end: nat)
    requires Built(fwd, info, po, sources, est, results, planned, d)
    requires IsNode(d, start) && d.nodes[start].deps == [] && begin + 2 <= end <= |ChainFrom(d, start, {})|
    requires reg(StagesOf(d, ChainFrom(d, start, {})[begin..end]))
    ensures Touched(ChainFrom(d, start, {})[begin..end], InverseGroups(d, reg))
  {
    var w := Wiring(fwd, info, po, HintOf(sources)).value;
    MarkedFacts(fwd, info, po, w, w);
    forall i | IsNode(w, i) ensures SameNode(w.nodes[i], d.nodes[i]) {
      assert d.nodes[i] ==
        Finalized(w).nodes[i].(level := d.nodes[i].level, stream := d.nodes[i].stream);
    }
    ShapeDecidesChain(w, d, start);
    SameStages(w, d, ChainFrom(w, start, {})[begin..end]);
    ShapeDecidesGroups(w, d, reg);
    assert SameNode(w.nodes[start], d.nodes[start]);
    InverseSelectionIsMaximal(w, reg, start, begin, end);
  }

  /** A source's result is planned at the larger of its recorded size and its stage's estimate, where there is one. */
  lemma ResultPlannedAt(fwd: seq<FwdStage>, info: StageInfo, po: map<int, Segment>, sources: map<int, nat>,
                        est: Estimator, results: map<int, int>, planned: Dag, d: Dag, i: int)
    requires Built(fwd, info, po, sources, est, results, planned, d)
    requires 0 <= i < |fwd| && fwd[i].stage in sources
    ensures fwd[i].stage in results && IsNode(planned, InvNode(fwd, i))
    ensures var b, e := results[fwd[i].stage], est(fwd[i].stage, InSizes(planned, InvNode(fwd, i)));
      && b in d.buffers && b in planned.buffers
      && d.buffers[b].size == Max(planned.buffers[b].size, sources[fwd[i].stage])
      && (e != [] ==> planned.buffers[b].size == e[0])
  {
    var w, n := Wiring(fwd, info, po, HintOf(sources)).value, InvNode(fwd, i);
    var b := w.nodes[n].outputs[0];
    assert NodeFor(fwd, info, w, i) && results[fwd[i].stage] == b;
    assert Made(w, n, 0, w.nodes[n].outputs[0]);
    assert d.nodes[n] == Finalized(w).nodes[n].(level := d.nodes[n].level, stream := d.nodes[n].stream);
    ResizedAt(Finalized(w), d, b);
    assert EstimatedAt(planned, est, n);
  }

  /**
   * buildInverseDAG(); `ok` is false where it throws: exactly when the wiring lacks something, or
   * uncolored preallocation meets a refusing pool. `grown` is the DAG just before storage is placed.
   */
  method BuildInverseDAG(fwd: seq<FwdStage>, po: map<int, Segment>, info: StageInfo, est: Estimator,
                         sources: map<int, nat>,
                         preallocate: bool, fuse: bool, reg: StageRegistry, grant: int -> int)
    returns (ok: bool, dag: CompressionDAG, results: map<int, int>, ghost planned: Dag, ghost grown: Dag)
    requires DistinctStages(fwd) && Topological(fwd)
    ensures fresh(dag) && dag.isPreallocate == preallocate
    ensures ok ==> Buildable(fwd, info, po, sources)
    ensures Buildable(fwd, info, po, sources) ==>
        && Finished(fwd, info, po, sources, est, dag.fusedGroups, dag.fusedInternal, dag.maxLevel, results, planned,
                    grown)
        && dag.fusedGroups == (if fuse then InverseGroups(grown, reg) else []) && Stored(grown, dag, ok, grant)
  {
    dag := new CompressionDAG(preallocate);
    ok, results, planned, grown := BuildInto(dag, fwd, po, info, est, sources, fuse, reg, grant);
  }

  /** The whole builder on an empty DAG object. */
  method BuildInto(dag: CompressionDAG, fwd: seq<FwdStage>, po: map<int, Segment>, info: StageInfo, est: Estimator,
                   sources: map<int, nat>, fuse: bool, reg: StageRegistry, grant: int -> int)
    returns (ok: bool, results: map<int, int>, ghost planned: Dag, ghost grown: Dag)
    requires DistinctStages(fwd) && Topological(fwd)
    requires dag.Contents() == EMPTY_DAG && !dag.isFinalized && !dag.coloringApplied && !dag.coloringDisabled
    requires dag.fusedGroups == [] && dag.fusedInternal == {}
    modifies dag
    ensures dag.isPreallocate == old(dag.isPreallocate)
    ensures ok ==> Buildable(fwd, info, po, sources)
    ensures Buildable(fwd, info, po, sources) ==>
        && Finished(fwd, info, po, sources, est, dag.fusedGroups, dag.fusedInternal, dag.maxLevel, results, planned,
                    grown)
        && dag.fusedGroups == (if fuse then InverseGroups(grown, reg) else []) && Stored(grown, dag, ok, grant)
  {
    ok, results, planned := BuildUnplaced(dag, fwd, po, info, est, sources, fuse, reg);
    grown := dag.Contents();
    if ok {
      InGroupRange(grown, dag.fusedGroups);
      ok := PlaceInStorage(dag, grown, grant);
    }
  }

  /** Placing a buffer in storage changes neither its edge nor its planned size. */
  ghost predicate OnlyStorageDiffers(a: BufferInfo, b: BufferInfo) {
    Resized(a, b) && b.size == a.size && b.initialSize == a.initialSize
  }

  lemma OutputsExist(d: Dag)
    requires Wired(d)
    ensures forall i, b :: 0 <= i < |d.nodes| && b in d.nodes[i].outputs ==> b in d.buffers
  {
  }

  lemma InGroupRange(d: Dag, groups: seq<Group>)
    requires Wired(d) && GroupsOK(d, groups)
    ensures GroupsInRange(d, groups)
  {
  }
}
