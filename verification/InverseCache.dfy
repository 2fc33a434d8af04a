/**
 * Reusing the inverse DAG across decompress() calls (src/pipeline/compressor_exec.cpp:638-713): a
 * cached DAG is wired and fed exactly like one built from the current output map.
 */
module InverseCache {
  import opened Values
  import opened Graph
  import opened Building
  import opened Levels
  import opened Placement
  import opened Tags
  import opened InverseDag
  import opened FusedGroups
  import opened CompressionDag
  import opened InverseBuilder

  // ---- wiring depends on the output map only through the injected pointers and sizes ----

  ghost predicate AlikeBuffer(a: BufferInfo, b: BufferInfo) {
    b == if a.isExternal then a.(ptr := b.ptr, size := b.size, initialSize := b.initialSize) else a
  }

  ghost predicate Alike(d: Dag, e: Dag) {
    && e.nodes == d.nodes && e.nextBuffer == d.nextBuffer && e.buffers.Keys == d.buffers.Keys
    && forall b :: b in d.buffers && b in e.buffers ==> AlikeBuffer(d.buffers[b], e.buffers[b])
  }

  lemma WireOneAlike(fwd: seq<FwdStage>, po: map<int, Segment>, qo: map<int, Segment>, d: Dag, e: Dag, i: nat, k: nat)
    requires i < |fwd| && k < |fwd[i].outputs| && |d.nodes| == |fwd| && Alike(d, e)
    requires WireOne(fwd, po, d, i, k).Ok? && WireOne(fwd, qo, e, i, k).Ok?
    ensures Alike(WireOne(fwd, po, d, i, k).value, WireOne(fwd, qo, e, i, k).value)
  {
  }

  lemma {:induction false} WireStageAlike(fwd: seq<FwdStage>, po: map<int, Segment>, qo: map<int, Segment>, d: Dag,
                                          e: Dag, i: nat, k: nat)
    requires i < |fwd| && k <= |fwd[i].outputs| && |d.nodes| == |fwd| && Alike(d, e)
    requires WireStage(fwd, po, d, i, k).Ok? && WireStage(fwd, qo, e, i, k).Ok?
    ensures Alike(WireStage(fwd, po, d, i, k).value, WireStage(fwd, qo, e, i, k).value)
    decreases k
  {
    if k > 0 {
      var last := k - 1;
      WireStageAlike(fwd, po, qo, d, e, i, last);
      WireOneAlike(fwd, po, qo, WireStage(fwd, po, d, i, last).value, WireStage(fwd, qo, e, i, last).value, i, last);
    }
  }

  lemma {:induction false} WireAllAlike(fwd: seq<FwdStage>, po: map<int, Segment>, qo: map<int, Segment>, d: Dag,
                                        e: Dag, i: nat)
    requires i <= |fwd| && |d.nodes| == |fwd| && Alike(d, e)
    requires WireAll(fwd, po, d, i).Ok? && WireAll(fwd, qo, e, i).Ok?
    ensures Alike(WireAll(fwd, po, d, i).value, WireAll(fwd, qo, e, i).value)
    decreases i
  {
    if i > 0 {
      var last := i - 1;
      WireAllAlike(fwd, po, qo, d, e, last);
      WireStageAlike(fwd, po, qo, WireAll(fwd, po, d, last).value, WireAll(fwd, qo, e, last).value, last,
                     |fwd[last].outputs|);
    }
  }

  // ---- a DAG that still has the edges of a fresh build ----

  /** The same edge; an external input may point at another segment. */
  ghost predicate Refed(a: BufferInfo, b: BufferInfo) {
    SameEdge(a, b) && (a.isExternal ==> b == a.(ptr := b.ptr, size := b.size, initialSize := b.initialSize))
  }

  /** `d` is the finalized wiring `f` after sizing, placement and any number of runs. */
  ghost predicate Follows(f: Dag, d: Dag) {
    && |d.nodes| == |f.nodes|
    && (forall i :: IsNode(f, i) ==> d.nodes[i] == f.nodes[i].(stream := d.nodes[i].stream))
    && d.buffers.Keys == f.buffers.Keys
    && (forall b :: b in f.buffers && b in d.buffers ==> Refed(f.buffers[b], d.buffers[b]))
  }

  /** Input `k` of node `n` is fed from outside. */
  ghost predicate ExternalInput(f: Dag, n: int, k: int) {
    && IsNode(f, n) && 0 <= k < |f.nodes[n].inputs| && f.nodes[n].inputs[k] in f.buffers
    && f.buffers[f.nodes[n].inputs[k]].isExternal
  }

  /** Same wiring as a fresh build, and every external input identical to the fresh one, pointer and size included. */
  ghost predicate AgreesWithFresh(f: Dag, d: Dag) {
    && Follows(f, d)
    && forall n, k :: ExternalInput(f, n, k) ==> SameBuffer(f, d, f.nodes[n].inputs[k])
  }

  ghost predicate SameBuffer(f: Dag, d: Dag, x: int) {
    x in f.buffers && x in d.buffers && d.buffers[x] == f.buffers[x]
  }

  /** What the pipeline guarantees about the forward topology it caches for. */
  ghost predicate Cacheable(fwd: seq<FwdStage>) {
    && DistinctStages(fwd) && Topological(fwd)
    && (forall i, k :: 0 <= i < |fwd| && 0 <= k < |fwd[i].outputs| ==> 0 <= fwd[i].outputs[k] <= INT_MAX)
    && (forall i, k, j, m, b :: IsOutput(fwd, i, k, b) && IsOutput(fwd, j, m, b) ==> i == j && k == m)
  }

  ghost predicate IsOutput(fwd: seq<FwdStage>, i: int, k: int, b: int) {
    0 <= i < |fwd| && 0 <= k < |fwd[i].outputs| && fwd[i].outputs[k] == b
  }

  /** Inverse input `x` carries forward buffer `id`. */
  ghost predicate InjectedAs(fwd: seq<FwdStage>, d: Dag, i: int, k: int, id: int, x: int) {
    && |d.nodes| == |fwd| && 0 <= i < |fwd| && 0 <= k < |fwd[i].outputs| && IsInjected(fwd, d, i, k)
    && fwd[i].outputs[k] == id && d.nodes[InvNode(fwd, i)].inputs[k] == x
  }

  /** An external input of a wired DAG is the injected one with that tag, and conversely. */
  lemma ExternalInputIsInjected(fwd: seq<FwdStage>, info: StageInfo, po: map<int, Segment>, w: Dag, n: int, k: int)
    requires WiredUpTo(fwd, info, po, w, |fwd|, 0) && IsNode(w, n) && 0 <= k < |w.nodes[n].inputs|
    ensures var i := |fwd| - 1 - n;
      && 0 <= i < |fwd| && k < |fwd[i].outputs| && w.nodes[n].inputs[k] in w.buffers
      && (w.buffers[w.nodes[n].inputs[k]].isExternal <==> IsInjected(fwd, w, i, k))
      && (IsInjected(fwd, w, i, k) ==>
            && fwd[i].outputs[k] in po
            && w.buffers[w.nodes[n].inputs[k]] == InjectedBuffer(po[fwd[i].outputs[k]], fwd[i].outputs[k], n))
  {
    var i := |fwd| - 1 - n;
    assert InvNode(fwd, i) == n && StageRight(fwd, po, w, i, |fwd[i].outputs|) && InputRight(fwd, po, w, i, k);
    var b, cons := fwd[i].outputs[k], Consumers(fwd, |fwd|);
    if b in cons {
      assert NodeFor(fwd, info, w, cons[b].0);
    }
  }

  function InjectedBuffer(s: Segment, id: int, n: int): BufferInfo {
    NewBuffer(s.size, InvTag(id), -1, 0, [n], true).(ptr := s.ptr, isAllocated := true)
  }

  // ---- the tag scan ----

  ghost predicate TaggedInput(d: Dag, n: int, k: int, id: int) {
    ExternalInput(d, n, k) && ParseTag(d.buffers[d.nodes[n].inputs[k]].tag) == Some(id)
  }

  ghost predicate FoundAt(d: Dag, id: int, x: int) {
    exists n, k :: TaggedInput(d, n, k, id) && d.nodes[n].inputs[k] == x
  }

  /** Nodes before `n` and the first `k` inputs of node `n` are scanned. */
  ghost predicate Scanned(d: Dag, m: map<int, int>, n: int, k: int) {
    && (forall id :: id in m ==> FoundAt(d, id, m[id]))
    && (forall a, c, id :: TaggedInput(d, a, c, id) && (a < n || (a == n && c < k)) ==> id in m)
  }

  method CollectExternals(d: Dag) returns (m: map<int, int>)
    requires forall n, k :: IsNode(d, n) && 0 <= k < |d.nodes[n].inputs| ==> d.nodes[n].inputs[k] in d.buffers
    ensures Scanned(d, m, |d.nodes|, 0)
  {
    m := map[];
    for n := 0 to |d.nodes|
      invariant Scanned(d, m, n, 0)
    {
      for k := 0 to |d.nodes[n].inputs|
        invariant Scanned(d, m, n, k)
      {
        var x := d.nodes[n].inputs[k];
        var id := if d.buffers[x].isExternal then ParseTag(d.buffers[x].tag) else None;
        ScanOne(d, m, n, k, k + 1, id);
        if id.Some? {
          m := m[id.value := x];
        }
      }
    }
  }

  lemma ScanOne(d: Dag, m: map<int, int>, n: int, k: int, next: int, id: Option<int>)
    requires IsNode(d, n) && 0 <= k < |d.nodes[n].inputs| && next == k + 1 && d.nodes[n].inputs[k] in d.buffers
    requires Scanned(d, m, n, k)
    requires id == if d.buffers[d.nodes[n].inputs[k]].isExternal then ParseTag(d.buffers[d.nodes[n].inputs[k]].tag)
        else None
    ensures Scanned(d, if id.Some? then m[id.value := d.nodes[n].inputs[k]] else m, n, next)
  {
  }

  /** Forward ids map to exactly the inverse inputs injected for them. */
  ghost predicate MapsInjected(fwd: seq<FwdStage>, d: Dag, m: map<int, int>) {
    && (forall i, k, id, x :: InjectedAs(fwd, d, i, k, id, x) ==> id in m && m[id] == x)
    && (forall id :: id in m ==> exists i, k :: InjectedAs(fwd, d, i, k, id, m[id]))
  }

  /** Input `k` of node `n` in a DAG that follows a wiring: produced inside, or injected with its tag. */
  lemma InputOf(fwd: seq<FwdStage>, info: StageInfo, po: map<int, Segment>, w: Dag, d: Dag, n: int, k: int)
    requires WiredUpTo(fwd, info, po, w, |fwd|, 0) && ValidDeps(DepsOf(w)) && Follows(Finalized(w), d)
    requires IsNode(d, n) && 0 <= k < |d.nodes[n].inputs|
    ensures var i, x := |fwd| - 1 - n, d.nodes[n].inputs[k];
      && 0 <= i < |fwd| && InvNode(fwd, i) == n && k < |fwd[i].outputs| && x in d.buffers
      && (IsInjected(fwd, d, i, k) <==> d.buffers[x].producer < 0)
      && (IsInjected(fwd, d, i, k) ==> fwd[i].outputs[k] in po && IsCarrier(d.buffers[x], fwd[i].outputs[k]))
  {
    var i, x := |fwd| - 1 - n, d.nodes[n].inputs[k];
    assert d.nodes[n].inputs == w.nodes[n].inputs;
    ExternalInputIsInjected(fwd, info, po, w, n, k);
    assert Refed(Finalized(w).buffers[x], d.buffers[x]);
    assert w.buffers[x].isExternal <==> w.buffers[x].producer < 0;
  }

  /** An external input tagged for forward buffer `id`. */
  ghost predicate IsCarrier(b: BufferInfo, id: int) {
    b.tag == InvTag(id) && b.isExternal && b.isAllocated
  }

  lemma CarriesOneId(b: BufferInfo, x: int, y: int)
    requires IsCarrier(b, x) && IsCarrier(b, y) && 0 <= x <= INT_MAX && 0 <= y <= INT_MAX
    ensures x == y
  {
    TagRoundTrip(x);
    TagRoundTrip(y);
  }

  lemma CarrierParses(b: BufferInfo, id: int)
    requires IsCarrier(b, id) && 0 <= id <= INT_MAX
    ensures ParseTag(b.tag) == Some(id)
  {
    TagRoundTrip(id);
  }

  /** Because tags print and parse one-to-one, the scan recovers exactly the injected inputs. */
  lemma ScanFindsInjected(fwd: seq<FwdStage>, info: StageInfo, po: map<int, Segment>, w: Dag, d: Dag, m: map<int, int>)
    requires Cacheable(fwd) && WiredUpTo(fwd, info, po, w, |fwd|, 0) && ValidDeps(DepsOf(w)) && Follows(Finalized(w), d)
    requires Scanned(d, m, |d.nodes|, 0)
    requires forall b :: b in d.buffers && d.buffers[b].isExternal ==> d.buffers[b].producer < 0
    ensures MapsInjected(fwd, d, m)
  {
    forall i, k, id, x | InjectedAs(fwd, d, i, k, id, x) ensures id in m && m[id] == x {
      InjectedIsTagged(fwd, info, po, w, d, i, k);
      assert TaggedInput(d, InvNode(fwd, i), k, id);
      MappedIsInjected(fwd, info, po, w, d, m, id);
      var j, c :| InjectedAs(fwd, d, j, c, id, m[id]);
      assert IsOutput(fwd, i, k, id) && IsOutput(fwd, j, c, id);
    }
    forall id | id in m ensures exists i, k :: InjectedAs(fwd, d, i, k, id, m[id]) {
      MappedIsInjected(fwd, info, po, w, d, m, id);
    }
  }

  lemma MappedIsInjected(fwd: seq<FwdStage>, info: StageInfo, po: map<int, Segment>, w: Dag, d: Dag, m: map<int, int>,
                         id: int)
    requires Cacheable(fwd) && WiredUpTo(fwd, info, po, w, |fwd|, 0) && ValidDeps(DepsOf(w)) && Follows(Finalized(w), d)
    requires Scanned(d, m, |d.nodes|, 0) && id in m
    requires forall b :: b in d.buffers && d.buffers[b].isExternal ==> d.buffers[b].producer < 0
    ensures exists i, k :: InjectedAs(fwd, d, i, k, id, m[id])
  {
    assert FoundAt(d, id, m[id]);
    var n, c :| TaggedInput(d, n, c, id) && d.nodes[n].inputs[c] == m[id];
    TaggedIsInjected(fwd, info, po, w, d, n, c, id);
  }

  lemma TaggedIsInjected(fwd: seq<FwdStage>, info: StageInfo, po: map<int, Segment>, w: Dag, d: Dag, n: int, c: int,
                         id: int)
    requires Cacheable(fwd) && WiredUpTo(fwd, info, po, w, |fwd|, 0) && ValidDeps(DepsOf(w)) && Follows(Finalized(w), d)
    requires TaggedInput(d, n, c, id) && d.buffers[d.nodes[n].inputs[c]].producer < 0
    ensures InjectedAs(fwd, d, |fwd| - 1 - n, c, id, d.nodes[n].inputs[c])
  {
    InputOf(fwd, info, po, w, d, n, c);
    CarrierParses(d.buffers[d.nodes[n].inputs[c]], fwd[|fwd| - 1 - n].outputs[c]);
  }

  lemma InjectedIsTagged(fwd: seq<FwdStage>, info: StageInfo, po: map<int, Segment>, w: Dag, d: Dag, i: int, k: int)
    requires Cacheable(fwd) && WiredUpTo(fwd, info, po, w, |fwd|, 0) && ValidDeps(DepsOf(w)) && Follows(Finalized(w), d)
    requires 0 <= i < |fwd| && 0 <= k < |fwd[i].outputs| && IsInjected(fwd, d, i, k)
    ensures TaggedInput(d, InvNode(fwd, i), k, fwd[i].outputs[k])
  {
    InputOf(fwd, info, po, w, d, InvNode(fwd, i), k);
    CarrierParses(d.buffers[d.nodes[InvNode(fwd, i)].inputs[k]], fwd[i].outputs[k]);
  }

  // ---- after a build, after a run, after a hit ----

  lemma BuiltFollows(fwd: seq<FwdStage>, info: StageInfo, po: map<int, Segment>, w: Dag, grown: Dag, d: Dag)
    requires WiredUpTo(fwd, info, po, w, |fwd|, 0) && ValidDeps(DepsOf(w)) && SameWiring(Finalized(w), grown)
    requires SameButStorage(grown, d)
    requires forall i :: IsNode(grown, i) ==> grown.nodes[i].level == Finalized(w).nodes[i].level
    ensures AgreesWithFresh(Finalized(w), d)
    ensures forall b :: b in d.buffers && d.buffers[b].isExternal ==> d.buffers[b].producer < 0
  {
  }

  /** What using the DAG may change: produced buffers, in anything but their edges. */
  ghost predicate Used(d: Dag, e: Dag) {
    && e.nodes == d.nodes && e.buffers.Keys == d.buffers.Keys
    && forall b :: b in d.buffers && b in e.buffers ==> UsedBuffer(d.buffers[b], e.buffers[b])
  }

  ghost predicate UsedBuffer(a: BufferInfo, b: BufferInfo) {
    if a.producer < 0 then b == a else Refed(a.(isExternal := false), b)
  }

  /** Every injected input points at the current segment. */
  ghost predicate FedFrom(fwd: seq<FwdStage>, d: Dag, po: map<int, Segment>) {
    forall i, k, id, x :: InjectedAs(fwd, d, i, k, id, x) && id in po ==>
        x in d.buffers && Carries(d.buffers[x], po[id])
  }

  predicate Carries(b: BufferInfo, s: Segment) {
    b.ptr == s.ptr && b.size == s.size && b.initialSize == s.size
  }

  lemma UsedFollows(f: Dag, d: Dag, e: Dag)
    requires Follows(f, d) && Used(d, e)
    requires forall b :: b in f.buffers ==> (f.buffers[b].isExternal <==> f.buffers[b].producer < 0)
    ensures Follows(f, e)
  {
  }

  /**
   * The heart of reuse: a DAG built for one output map and since used any number of times, once its
   * injected inputs carry the segments of another map, agrees with a build from that other map.
   */
  lemma RefedAgrees(fwd: seq<FwdStage>, info: StageInfo, po: map<int, Segment>, qo: map<int, Segment>, hint: nat,
                    w: Dag, d: Dag)
    requires Cacheable(fwd) && AllWirable(fwd, info, qo, |fwd|)
    requires Wiring(fwd, info, po, hint) == Ok(w) && ValidDeps(DepsOf(w)) && Follows(Finalized(w), d)
    requires FedFrom(fwd, d, qo)
    ensures var r := Wiring(fwd, info, qo, hint);
      r.Ok? && ValidDeps(DepsOf(r.value)) && AgreesWithFresh(Finalized(r.value), d)
  {
    WiringIsTotalIff(fwd, info, po, hint);
    WiringIsTotalIff(fwd, info, qo, hint);
    var v := Wiring(fwd, info, qo, hint).value;
    AddStagesFacts(fwd, info, hint, 0);
    WireAllAlike(fwd, po, qo, AddStages(fwd, info, hint, 0), AddStages(fwd, info, hint, 0), |fwd|);
    assert Alike(w, v);
    assert DepsOf(v) == DepsOf(w);
    var f := Finalized(v);
    assert f.nodes == Finalized(w).nodes;
    forall b | b in f.buffers ensures Refed(f.buffers[b], d.buffers[b]) {
      assert AlikeBuffer(w.buffers[b], v.buffers[b]) && Refed(w.buffers[b], d.buffers[b]);
    }
    forall n, k | ExternalInput(f, n, k) ensures SameBuffer(f, d, f.nodes[n].inputs[k]) {
      InputIsFresh(fwd, info, qo, v, d, n, k);
    }
  }

  lemma InputIsFresh(fwd: seq<FwdStage>, info: StageInfo, qo: map<int, Segment>, v: Dag, d: Dag, n: int, k: int)
    requires WiredUpTo(fwd, info, qo, v, |fwd|, 0) && ValidDeps(DepsOf(v)) && Follows(Finalized(v), d)
    requires FedFrom(fwd, d, qo)
    requires ExternalInput(Finalized(v), n, k)
    ensures SameBuffer(Finalized(v), d, v.nodes[n].inputs[k])
  {
    var i, x := |fwd| - 1 - n, v.nodes[n].inputs[k];
    ExternalInputIsInjected(fwd, info, qo, v, n, k);
    assert d.nodes[n].inputs == v.nodes[n].inputs;
    assert InjectedAs(fwd, d, i, k, fwd[i].outputs[k], x);
    assert Refed(v.buffers[x], d.buffers[x]);
  }

  /** A DAG that agrees with a fresh build has every injected input pointing at its current segment. */
  lemma AgreesIsFed(fwd: seq<FwdStage>, info: StageInfo, po: map<int, Segment>, w: Dag, d: Dag)
    requires WiredUpTo(fwd, info, po, w, |fwd|, 0) && ValidDeps(DepsOf(w)) && AgreesWithFresh(Finalized(w), d)
    ensures FedFrom(fwd, d, po)
  {
    var f := Finalized(w);
    forall i, k, id, x | InjectedAs(fwd, d, i, k, id, x) && id in po
      ensures x in d.buffers && Carries(d.buffers[x], po[id])
    {
      var n := InvNode(fwd, i);
      assert d.nodes[n].inputs == w.nodes[n].inputs;
      ExternalInputIsInjected(fwd, info, po, w, n, k);
      assert ExternalInput(f, n, k) && SameBuffer(f, d, f.nodes[n].inputs[k]);
    }
  }

  // ---- the cache ----

  /** Everything about the finalized pipeline that buildInverseDAG() needs besides the output map. */
  datatype Plan = Plan(fwd: seq<FwdStage>, info: StageInfo, est: Estimator, preallocate: bool, fuse: bool,
                       reg: StageRegistry)

  /** buildOrReuseInvCache()'s hit branch: point each known input at its segment. */
  method Refresh(dag: CompressionDAG, extOf: map<int, int>, po: map<int, Segment>)
    requires forall id :: id in extOf ==> extOf[id] in dag.buffers
    requires forall a, b :: a in extOf && b in extOf && extOf[a] == extOf[b] ==> a == b
    modifies dag`buffers, dag`currentUsage
    ensures dag.buffers.Keys == old(dag.buffers.Keys)
    ensures forall id :: id in extOf ==> dag.buffers[extOf[id]] == Refreshed(old(dag.buffers[extOf[id]]), id, po)
    ensures forall b :: b in dag.buffers && b !in extOf.Values ==> dag.buffers[b] == old(dag.buffers[b])
  {
    var todo := extOf.Keys;
    ghost var before := dag.buffers;
    while todo != {}
      invariant dag.buffers.Keys == before.Keys && todo <= extOf.Keys
      invariant forall id :: id in extOf ==>
        dag.buffers[extOf[id]] == if id in todo then before[extOf[id]] else Refreshed(before[extOf[id]], id, po)
      invariant forall b :: b in dag.buffers && b !in extOf.Values ==> dag.buffers[b] == before[b]
      decreases |todo|
    {
      var id := AnyOf(todo);
      todo := todo - {id};
      if id in po {
        dag.SetExternalPointer(extOf[id], po[id].ptr);
        dag.UpdateBufferSize(extOf[id], po[id].size);
      }
    }
  }

  function Refreshed(b: BufferInfo, id: int, po: map<int, Segment>): BufferInfo {
    if id in po
    then b.(ptr := po[id].ptr, isExternal := true, isAllocated := true, size := po[id].size, initialSize := po[id].size)
    else b
  }

  ghost predicate CacheHolds(plan: Plan, builtFrom: map<int, Segment>, sources: map<int, nat>, d: Dag,
                             extOf: map<int, int>) {
    var r := Wiring(plan.fwd, plan.info, builtFrom, HintOf(sources));
    r.Ok? && ValidDeps(DepsOf(r.value)) && Follows(Finalized(r.value), d) && MapsInjected(plan.fwd, d, extOf)
  }

  /** Each recorded result is a buffer the DAG itself produces. */
  ghost predicate ResultsKnown(d: Dag, results: map<int, int>) {
    forall s :: s in results ==> results[s] in d.buffers && d.buffers[results[s]].producer >= 0
  }

  lemma BuiltResultsKnown(fwd: seq<FwdStage>, info: StageInfo, po: map<int, Segment>, sources: map<int, nat>,
                          est: Estimator,
                          results: map<int, int>, planned: Dag, grown: Dag, d: Dag)
    requires Built(fwd, info, po, sources, est, results, planned, grown) && SameButStorage(grown, d)
    ensures ResultsKnown(d, results) && AtPlannedSizes(d) && HoldsSources(d, results, sources)
  {
    var w := Wiring(fwd, info, po, HintOf(sources)).value;
    BuiltAtPlannedSizes(fwd, info, po, sources, est, results, planned, grown);
    forall b | b in grown.buffers
      ensures OnlyStorageDiffers(grown.buffers[b], d.buffers[b]) && Resized(w.buffers[b], grown.buffers[b])
    {
    }
    forall s | s in results
      ensures results[s] in d.buffers && d.buffers[results[s]].producer >= 0
      ensures s in sources ==> sources[s] <= d.buffers[results[s]].size
    {
      var i :| 0 <= i < |fwd| && fwd[i].stage == s;
      var b := results[s];
      assert Made(w, InvNode(fwd, i), 0, w.nodes[InvNode(fwd, i)].outputs[0]);
      assert OnlyStorageDiffers(grown.buffers[b], d.buffers[b]);
    }
  }

  /** A source's result buffer is planned to hold at least the recorded source size. */
  ghost predicate HoldsSources(d: Dag, results: map<int, int>, sources: map<int, nat>) {
    forall s :: s in results && s in sources && results[s] in d.buffers ==> sources[s] <= d.buffers[results[s]].size
  }

  /** The wiring a build from `po` would have now. */
  ghost predicate FreshAgrees(plan: Plan, po: map<int, Segment>, sources: map<int, nat>, d: Dag) {
    var r := Wiring(plan.fwd, plan.info, po, HintOf(sources));
    r.Ok? && ValidDeps(DepsOf(r.value)) && AgreesWithFresh(Finalized(r.value), d)
  }

  lemma InjectedIsMapped(fwd: seq<FwdStage>, info: StageInfo, po: map<int, Segment>, w: Dag, d: Dag, i: int, k: int)
    requires Cacheable(fwd) && WiredUpTo(fwd, info, po, w, |fwd|, 0) && ValidDeps(DepsOf(w)) && Follows(Finalized(w), d)
    requires 0 <= i < |fwd| && 0 <= k < |fwd[i].outputs| && IsInjected(fwd, d, i, k)
    ensures MappedTo(d, d.nodes[InvNode(fwd, i)].inputs[k], fwd[i].outputs[k]) && 0 <= fwd[i].outputs[k] <= INT_MAX
  {
    InputOf(fwd, info, po, w, d, InvNode(fwd, i), k);
  }

  /** The mapped buffers are the injected inputs, one per forward id. */
  lemma MappedBuffers(plan: Plan, builtFrom: map<int, Segment>, sources: map<int, nat>, d: Dag, extOf: map<int, int>)
    requires Cacheable(plan.fwd) && CacheHolds(plan, builtFrom, sources, d, extOf)
    ensures forall id :: id in extOf ==> MappedTo(d, extOf[id], id)
    ensures forall a, b :: a in extOf && b in extOf && extOf[a] == extOf[b] ==> a == b
  {
    var w := Wiring(plan.fwd, plan.info, builtFrom, HintOf(sources)).value;
    WiringIsTotalIff(plan.fwd, plan.info, builtFrom, HintOf(sources));
    forall id | id in extOf ensures MappedTo(d, extOf[id], id) && 0 <= id <= INT_MAX {
      var i, k :| InjectedAs(plan.fwd, d, i, k, id, extOf[id]);
      InjectedIsMapped(plan.fwd, plan.info, builtFrom, w, d, i, k);
    }
    forall a, b | a in extOf && b in extOf && extOf[a] == extOf[b] ensures a == b {
      CarriesOneId(d.buffers[extOf[a]], a, b);
    }
  }

  ghost predicate MappedTo(d: Dag, x: int, id: int) {
    x in d.buffers && d.buffers[x].producer < 0 && IsCarrier(d.buffers[x], id)
  }

  lemma MapsCarryOver(fwd: seq<FwdStage>, d: Dag, e: Dag, m: map<int, int>)
    requires MapsInjected(fwd, d, m) && e.nodes == d.nodes
    ensures MapsInjected(fwd, e, m)
  {
    forall i, k, id, x | InjectedAs(fwd, e, i, k, id, x) ensures id in m && m[id] == x {
      assert InjectedAs(fwd, d, i, k, id, x);
    }
    forall id | id in m ensures exists i, k :: InjectedAs(fwd, e, i, k, id, m[id]) {
      var i, k :| InjectedAs(fwd, d, i, k, id, m[id]);
      assert InjectedAs(fwd, e, i, k, id, m[id]);
    }
  }

  /** Refreshing and resetting a held DAG leaves it held, and fed from the new segments. */
  lemma RefreshKeeps(plan: Plan, builtFrom: map<int, Segment>, po: map<int, Segment>, sources: map<int, nat>, d: Dag,
                     e: Dag, extOf: map<int, int>, keep: bool)
    requires Cacheable(plan.fwd) && CacheHolds(plan, builtFrom, sources, d, extOf)
    requires e.nodes == d.nodes && e.buffers.Keys == d.buffers.Keys
    requires forall id :: id in extOf && extOf[id] in d.buffers ==>
      e.buffers[extOf[id]] == Refreshed(d.buffers[extOf[id]], id, po)
    requires forall b :: b in d.buffers && b !in extOf.Values ==> e.buffers[b] == AfterReset(d.buffers[b], keep)
    ensures CacheHolds(plan, builtFrom, sources, e, extOf) && FedFrom(plan.fwd, e, po)
  {
    MappedBuffers(plan, builtFrom, sources, d, extOf);
    RefreshFollows(Finalized(Wiring(plan.fwd, plan.info, builtFrom, HintOf(sources)).value), d, e, extOf, po, keep);
    MapsCarryOver(plan.fwd, d, e, extOf);
    forall i, k, id, x | InjectedAs(plan.fwd, e, i, k, id, x) && id in po
      ensures x in e.buffers && Carries(e.buffers[x], po[id])
    {
      assert id in extOf && extOf[id] == x;
      assert MappedTo(d, extOf[id], id);
    }
  }

  lemma RefreshFollows(f: Dag, d: Dag, e: Dag, extOf: map<int, int>, po: map<int, Segment>, keep: bool)
    requires Follows(f, d) && e.nodes == d.nodes && e.buffers.Keys == d.buffers.Keys
    requires forall id :: id in extOf ==> MappedTo(d, extOf[id], id)
    requires forall id :: id in extOf && extOf[id] in d.buffers ==>
      e.buffers[extOf[id]] == Refreshed(d.buffers[extOf[id]], id, po)
    requires forall b :: b in d.buffers && b !in extOf.Values ==> e.buffers[b] == AfterReset(d.buffers[b], keep)
    ensures Follows(f, e)
  {
  }

  lemma UseKeeps(plan: Plan, builtFrom: map<int, Segment>, sources: map<int, nat>, d: Dag, e: Dag, extOf: map<int, int>)
    requires CacheHolds(plan, builtFrom, sources, d, extOf) && Used(d, e) && Topological(plan.fwd)
    ensures CacheHolds(plan, builtFrom, sources, e, extOf)
  {
    var w := Wiring(plan.fwd, plan.info, builtFrom, HintOf(sources)).value;
    WiringIsTotalIff(plan.fwd, plan.info, builtFrom, HintOf(sources));
    UsedFollows(Finalized(w), d, e);
    MapsCarryOver(plan.fwd, d, e, extOf);
  }

  function RunEffect(b: BufferInfo, id: int, res: int, caller: int, actual: map<int, nat>,
                     keep: bool): BufferInfo {
    var c := if id == res then b.(ptr := caller, isExternal := true, isAllocated := true) else b;
    AfterReset(c.(size := if id in actual then actual[id] else c.size), keep)
  }

  /** An external input is untouched by a run; a produced buffer keeps its edge and its planned size. */
  lemma RunEffectOn(b: BufferInfo, id: int, res: int, caller: int, actual: map<int, nat>, keep: bool)
    ensures RunEffect(b, id, res, caller, actual, keep).initialSize == b.initialSize
    ensures Refed(b.(isExternal := false), RunEffect(b, id, res, caller, actual, keep))
    ensures b.isExternal && id != res && id !in actual ==> RunEffect(b, id, res, caller, actual, keep) == b
    ensures id == res ==>
      RunEffect(b, id, res, caller, actual, keep).size == if id in actual then actual[id] else b.size
  {
  }

  lemma RunIsUse(plan: Plan, builtFrom: map<int, Segment>, sources: map<int, nat>, d: Dag, e: Dag, extOf: map<int, int>,
                 res: int, caller: int, actual: map<int, nat>, keep: bool)
    requires CacheHolds(plan, builtFrom, sources, d, extOf) && Topological(plan.fwd)
    requires e.nodes == d.nodes && e.buffers.Keys == d.buffers.Keys
    requires forall b :: b in d.buffers ==> e.buffers[b] == RunEffect(d.buffers[b], b, res, caller, actual, keep)
    requires forall b :: b in d.buffers && (b == res || b in actual) ==> d.buffers[b].producer >= 0
    ensures Used(d, e)
  {
    var w := Wiring(plan.fwd, plan.info, builtFrom, HintOf(sources)).value;
    WiringIsTotalIff(plan.fwd, plan.info, builtFrom, HintOf(sources));
    forall b | b in d.buffers ensures UsedBuffer(d.buffers[b], e.buffers[b]) {
      RunEffectOn(d.buffers[b], b, res, caller, actual, keep);
      assert Refed(Finalized(w).buffers[b], d.buffers[b]);
    }
  }

  /** A hit puts every produced buffer through reset() and nothing else. */
  ghost predicate OnlyReset(d: Dag, e: Dag, keep: bool) {
    && e.nodes == d.nodes && e.buffers.Keys == d.buffers.Keys
    && forall b :: b in d.buffers && b in e.buffers ==> ResetOrRefed(d.buffers[b], e.buffers[b], keep)
  }

  ghost predicate ResetOrRefed(a: BufferInfo, b: BufferInfo, keep: bool) {
    b.producer == a.producer && (a.producer >= 0 ==> b == AfterReset(a, keep))
  }

  lemma HitOnlyResets(d: Dag, e: Dag, extOf: map<int, int>, po: map<int, Segment>, keep: bool)
    requires e.nodes == d.nodes && e.buffers.Keys == d.buffers.Keys
    requires forall id :: id in extOf ==> MappedTo(d, extOf[id], id)
    requires forall id :: id in extOf && extOf[id] in d.buffers ==>
      e.buffers[extOf[id]] == Refreshed(d.buffers[extOf[id]], id, po)
    requires forall b :: b in d.buffers && b !in extOf.Values ==> e.buffers[b] == AfterReset(d.buffers[b], keep)
    ensures OnlyReset(d, e, keep)
  {
    forall b | b in d.buffers ensures ResetOrRefed(d.buffers[b], e.buffers[b], keep) {
      if b in extOf.Values {
        var id :| id in extOf && extOf[id] == b;
        assert MappedTo(d, extOf[id], id);
      }
    }
  }

  lemma OnlyResetAt(d: Dag, e: Dag, b: int, keep: bool)
    requires OnlyReset(d, e, keep) && b in d.buffers
    ensures b in e.buffers && ResetOrRefed(d.buffers[b], e.buffers[b], keep)
  {
  }

  lemma ResultsStay(d: Dag, e: Dag, results: map<int, int>, keep: bool)
    requires ResultsKnown(d, results) && OnlyReset(d, e, keep)
    ensures ResultsKnown(e, results)
  {
    forall s | s in results ensures results[s] in e.buffers && e.buffers[results[s]].producer >= 0 {
      OnlyResetAt(d, e, results[s], keep);
    }
  }

  method RefreshAndReset(dag: CompressionDAG, extOf: map<int, int>, po: map<int, Segment>)
    requires forall id :: id in extOf ==> MappedTo(dag.Contents(), extOf[id], id)
    requires forall a, b :: a in extOf && b in extOf && extOf[a] == extOf[b] ==> a == b
    modifies dag`buffers, dag`currentUsage
    ensures dag.buffers.Keys == old(dag.buffers.Keys)
    ensures forall id :: id in extOf && extOf[id] in old(dag.buffers) ==>
      dag.buffers[extOf[id]] == Refreshed(old(dag.buffers[extOf[id]]), id, po)
    ensures forall b :: b in old(dag.buffers) && b !in extOf.Values ==>
      dag.buffers[b] == AfterReset(old(dag.buffers[b]), dag.isPreallocate)
  {
    Refresh(dag, extOf, po);
    dag.Reset();
  }

  /** What refreshing and reset() make of a held DAG. */
  lemma ReuseFacts(plan: Plan, builtFrom: map<int, Segment>, po: map<int, Segment>, sources: map<int, nat>, d: Dag,
                   e: Dag, extOf: map<int, int>, keep: bool)
    requires Cacheable(plan.fwd) && CacheHolds(plan, builtFrom, sources, d, extOf)
    requires e.nodes == d.nodes && e.buffers.Keys == d.buffers.Keys
    requires forall id :: id in extOf ==> MappedTo(d, extOf[id], id)
    requires forall id :: id in extOf && extOf[id] in d.buffers ==>
      e.buffers[extOf[id]] == Refreshed(d.buffers[extOf[id]], id, po)
    requires forall b :: b in d.buffers && b !in extOf.Values ==> e.buffers[b] == AfterReset(d.buffers[b], keep)
    ensures CacheHolds(plan, builtFrom, sources, e, extOf) && OnlyReset(d, e, keep)
    ensures AllWirable(plan.fwd, plan.info, po, |plan.fwd|) ==> FreshAgrees(plan, po, sources, e)
  {
    HitOnlyResets(d, e, extOf, po, keep);
    RefreshKeeps(plan, builtFrom, po, sources, d, e, extOf, keep);
    if AllWirable(plan.fwd, plan.info, po, |plan.fwd|) {
      RefedAgrees(plan.fwd, plan.info, builtFrom, po, HintOf(sources),
                  Wiring(plan.fwd, plan.info, builtFrom, HintOf(sources)).value, e);
    }
  }

  /** The hit branch: refresh the external inputs, then reset(). */
  method Reuse(dag: CompressionDAG, extOf: map<int, int>, po: map<int, Segment>, ghost plan: Plan,
               ghost builtFrom: map<int, Segment>, ghost sources: map<int, nat>)
    requires Cacheable(plan.fwd) && CacheHolds(plan, builtFrom, sources, dag.Contents(), extOf)
    modifies dag`buffers, dag`currentUsage
    ensures CacheHolds(plan, builtFrom, sources, dag.Contents(), extOf)
    ensures AllWirable(plan.fwd, plan.info, po, |plan.fwd|) ==> FreshAgrees(plan, po, sources, dag.Contents())
    ensures OnlyReset(old(dag.Contents()), dag.Contents(), dag.isPreallocate)
  {
    ghost var d := dag.Contents();
    MappedBuffers(plan, builtFrom, sources, d, extOf);
    RefreshAndReset(dag, extOf, po);
    ReuseFacts(plan, builtFrom, po, sources, d, dag.Contents(), extOf, dag.isPreallocate);
  }

  /** What a build went through: sizes before and after the results grew, and what storage was placed by. */
  datatype BuildRecord = BuildRecord(
    results: map<int, int>, planned: Dag, grown: Dag, internal: set<int>, colored: bool)

  /**
   * A build for this map succeeds if and only if the wiring is complete and, when buffers are
   * preallocated one by one, the pool grants every buffer of the finished DAG.
   */
  ghost predicate Attempted(plan: Plan, po: map<int, Segment>, sources: map<int, nat>, grant: int -> int, ok: bool,
                            rec: BuildRecord) {
    && (ok <==>
        && Buildable(plan.fwd, plan.info, po, sources)
        && (plan.preallocate && !rec.colored ==> AllGranted(rec.grown.buffers, rec.internal, grant)))
    && (Buildable(plan.fwd, plan.info, po, sources) ==> rec in BuildsFor(plan, po, sources))
  }

  /** What a build for this map may go through up to storage. */
  ghost function BuildsFor(plan: Plan, po: map<int, Segment>, sources: map<int, nat>): iset<BuildRecord> {
    iset rec: BuildRecord |
      && Built(plan.fwd, plan.info, po, sources, plan.est, rec.results, rec.planned, rec.grown)
      && rec.internal == MarkedInternal(rec.grown, if plan.fuse then InverseGroups(rec.grown, plan.reg) else [])
  }

  /** The miss branch: build, then scan the tags. */
  method Build(plan: Plan, po: map<int, Segment>, sources: map<int, nat>, grant: int -> int)
    returns (ok: bool, dag: CompressionDAG, results: map<int, int>, extOf: map<int, int>, ghost rec: BuildRecord)
    requires Cacheable(plan.fwd)
    ensures fresh(dag)
    ensures ok ==> Buildable(plan.fwd, plan.info, po, sources)
    ensures ok ==>
      CacheHolds(plan, po, sources, dag.Contents(), extOf) && FreshAgrees(plan, po, sources, dag.Contents())
    ensures ok ==> ResultsKnown(dag.Contents(), results) && AtPlannedSizes(dag.Contents())
    ensures ok ==> HoldsSources(dag.Contents(), results, sources)
    ensures ok ==> forall i :: 0 <= i < |plan.fwd| && plan.fwd[i].stage in sources ==> plan.fwd[i].stage in results
    ensures Attempted(plan, po, sources, grant, ok, rec)
    ensures ok ==> rec.results == results && SameButStorage(rec.grown, dag.Contents())
  {
    ghost var planned, grown;
    ok, dag, results, planned, grown := BuildInverseDAG(plan.fwd, po, plan.info, plan.est, sources, plan.preallocate,
                                                        plan.fuse, plan.reg, grant);
    rec := BuildRecord(results, planned, grown, dag.fusedInternal, dag.coloringApplied);
    extOf := map[];
    if ok {
      ghost var w := Wiring(plan.fwd, plan.info, po, HintOf(sources)).value;
      BuiltFollows(plan.fwd, plan.info, po, w, grown, dag.Contents());
      BuiltResultsKnown(plan.fwd, plan.info, po, sources, plan.est, results, planned, grown, dag.Contents());
      InputsKnown(plan.fwd, plan.info, po, w, dag.Contents());
      extOf := CollectExternals(dag.Contents());
      ScanFindsInjected(plan.fwd, plan.info, po, w, dag.Contents(), extOf);
    }
  }

  lemma InputsKnown(fwd: seq<FwdStage>, info: StageInfo, po: map<int, Segment>, w: Dag, d: Dag)
    requires WiredUpTo(fwd, info, po, w, |fwd|, 0) && ValidDeps(DepsOf(w)) && Follows(Finalized(w), d)
    ensures forall n, k :: IsNode(d, n) && 0 <= k < |d.nodes[n].inputs| ==> d.nodes[n].inputs[k] in d.buffers
  {
  }

  lemma OnlyEntry(m: map<int, nat>, k: int)
    requires k in m && forall a, b :: a in m && b in m ==> a == b
    ensures m == map[k := m[k]]
  {
    var one := map[k := m[k]];
    assert forall a :: a in one <==> a in m;
    SameMap(m, one);
  }

  /** One decompression: the result redirected to the caller, actual sizes recorded, then reset(). */
  method ApplyRun(dag: CompressionDAG, res: int, caller: int, actual: map<int, nat>)
    requires res in dag.buffers && forall b :: b in actual ==> b in dag.buffers
    modifies dag`buffers, dag`currentUsage
    ensures dag.buffers.Keys == old(dag.buffers.Keys)
    ensures forall b :: b in dag.buffers ==>
      dag.buffers[b] == RunEffect(old(dag.buffers[b]), b, res, caller, actual, dag.isPreallocate)
  {
    dag.SetExternalPointer(res, caller);
    SetActualSizes(dag, actual);
    dag.Reset();
  }

  class InvDAGCache {
    const plan: Plan
    var dag: CompressionDAG?
    var results: map<int, int>
    var extOf: map<int, int>
    var sourceSizes: map<int, nat>
    ghost var builtFrom: map<int, Segment>

    ghost predicate Valid()
      reads this, dag
    {
      && Cacheable(plan.fwd)
      && (dag != null ==>
          CacheHolds(plan, builtFrom, sourceSizes, dag.Contents(), extOf) && ResultsKnown(dag.Contents(), results))
      && (dag != null ==> sourceSizes.Keys <= results.Keys)
      && (forall a, b :: a in sourceSizes && b in sourceSizes ==> a == b)
    }

    constructor (p: Plan)
      requires Cacheable(p.fwd)
      ensures Valid() && plan == p && dag == null
    {
      plan, dag, results, extOf, sourceSizes, builtFrom := p, null, map[], map[], map[], map[];
    }

    predicate Hits(src: int, size: nat)
      reads this
    {
      dag != null && src in sourceSizes && sourceSizes[src] == size
    }

    /**
     * buildOrReuseInvCache(): on either branch the DAG agrees with a build from the current output
     * map; a failed build leaves the previous cache in place.
     */
    method BuildOrReuse(po: map<int, Segment>, src: int, size: nat, grant: int -> int)
      returns (ok: bool, ghost rec: BuildRecord)
      requires Valid()
      modifies this, dag
      ensures Valid()
      ensures ok ==> dag != null && sourceSizes == map[src := size]
      ensures ok && AllWirable(plan.fwd, plan.info, po, |plan.fwd|) ==>
        FreshAgrees(plan, po, map[src := size], dag.Contents())
      ensures ok ==> src in results
      ensures old(Hits(src, size)) ==> ok && dag == old(dag) && extOf == old(extOf) && results == old(results)
      ensures old(Hits(src, size)) ==> OnlyReset(old(dag.Contents()), dag.Contents(), dag.isPreallocate)
      ensures !old(Hits(src, size)) ==> Attempted(plan, po, map[src := size], grant, ok, rec)
      ensures !old(Hits(src, size)) && ok ==>
        AtPlannedSizes(dag.Contents()) && HoldsSources(dag.Contents(), results, map[src := size])
      ensures !old(Hits(src, size)) && ok ==> rec.results == results && SameButStorage(rec.grown, dag.Contents())
      ensures !old(Hits(src, size)) && ok ==> fresh(dag) && AllWirable(plan.fwd, plan.info, po, |plan.fwd|)
      ensures !ok ==> dag == old(dag) && sourceSizes == old(sourceSizes)
    {
      if Hits(src, size) {
        ok, rec := true, BuildRecord(results, EMPTY_DAG, EMPTY_DAG, {}, false);
        ReuseHeld(po, src, size);
      } else {
        ok, rec := BuildAnew(po, src, size, grant);
      }
    }

    method ReuseHeld(po: map<int, Segment>, src: int, size: nat)
      requires Valid() && Hits(src, size)
      modifies dag`buffers, dag`currentUsage
      ensures Valid() && sourceSizes == map[src := size] && src in results
      ensures AllWirable(plan.fwd, plan.info, po, |plan.fwd|) ==>
        FreshAgrees(plan, po, map[src := size], dag.Contents())
      ensures OnlyReset(old(dag.Contents()), dag.Contents(), dag.isPreallocate)
    {
      OnlyEntry(sourceSizes, src);
      ghost var d := dag.Contents();
      Reuse(dag, extOf, po, plan, builtFrom, sourceSizes);
      ResultsStay(d, dag.Contents(), results, dag.isPreallocate);
    }

    /** A finished build becomes the cached one. */
    method Install(made: CompressionDAG, itsResults: map<int, int>, itsInputs: map<int, int>,
                   po: map<int, Segment>, src: int, size: nat)
      requires Cacheable(plan.fwd) && CacheHolds(plan, po, map[src := size], made.Contents(), itsInputs)
      requires ResultsKnown(made.Contents(), itsResults) && src in itsResults
      modifies this
      ensures Valid() && dag == made && results == itsResults && sourceSizes == map[src := size]
    {
      dag, results, extOf, sourceSizes, builtFrom := made, itsResults, itsInputs, map[src := size], po;
    }

    /** A build that throws leaves everything as it was. */
    method BuildAnew(po: map<int, Segment>, src: int, size: nat, grant: int -> int)
      returns (ok: bool, ghost rec: BuildRecord)
      requires Valid()
      modifies this
      ensures Valid() && Attempted(plan, po, map[src := size], grant, ok, rec)
      ensures ok ==> dag != null && fresh(dag) && sourceSizes == map[src := size] && src in results
      ensures ok ==> AllWirable(plan.fwd, plan.info, po, |plan.fwd|)
      ensures ok ==> FreshAgrees(plan, po, map[src := size], dag.Contents())
      ensures ok ==> AtPlannedSizes(dag.Contents()) && HoldsSources(dag.Contents(), results, map[src := size])
      ensures ok ==> rec.results == results && SameButStorage(rec.grown, dag.Contents())
      ensures !ok ==> unchanged(this)
    {
      var newDag, newResults, newExtOf;
      ok, newDag, newResults, newExtOf, rec := Build(plan, po, map[src := size], grant);
      if ok {
        Install(newDag, newResults, newExtOf, po, src, size);
      }
    }

    /** Between two calls: a result buffer redirected to caller storage, sizes set by a run, then reset(). */
    method RunOnce(res: int, caller: int, actual: map<int, nat>)
      requires Valid() && dag != null && res in dag.buffers && dag.buffers[res].producer >= 0
      requires forall b :: b in actual ==> b in dag.buffers && dag.buffers[b].producer >= 0
      modifies dag
      ensures Valid() && dag.buffers.Keys == old(dag.buffers.Keys)
      ensures dag.buffers[res].ptr == caller && dag.buffers[res].isExternal && dag.buffers[res].producer >= 0
      ensures dag.buffers[res].size == if res in actual then actual[res] else old(dag.buffers[res].size)
      ensures dag.buffers[res].initialSize == old(dag.buffers[res].initialSize)
    {
      ghost var d := dag.Contents();
      ApplyRun(dag, res, caller, actual);
      RunIsUse(plan, builtFrom, sourceSizes, d, dag.Contents(), extOf, res, caller, actual, dag.isPreallocate);
      UseKeeps(plan, builtFrom, sourceSizes, d, dag.Contents(), extOf);
      forall b | b in d.buffers ensures dag.buffers[b].producer == d.buffers[b].producer {
        RunEffectOn(d.buffers[b], b, res, caller, actual, dag.isPreallocate);
      }
      RunEffectOn(d.buffers[res], res, res, caller, actual, dag.isPreallocate);
    }

    /**
     * A run of the cached DAG, then a hit for the next blob. The next decompression asks for as many
     * bytes as the result buffer then has: what the run reported, or what it asked for before.
     */
    method RunThenHit(po: map<int, Segment>, src: int, size: nat, grant: int -> int, caller: int, reported: Option<nat>)
      returns (res: int)
      requires Valid() && Hits(src, size)
      modifies this, dag
      ensures Valid() && Hits(src, size) && dag == old(dag) && results == old(results)
      ensures src in results && res == results[src] && res in dag.buffers && res in old(dag.buffers)
      ensures dag.buffers[res].initialSize == old(dag.buffers[res].initialSize)
      ensures dag.buffers[res].size == if reported.Some? then reported.value else old(dag.buffers[res].size)
    {
      OnlyEntry(sourceSizes, src);
      res := results[src];
      RunOnce(res, caller, if reported.Some? then map[res := reported.value] else map[]);
      ghost var ran := dag.Contents();
      var ok, rec := BuildOrReuse(po, src, size, grant);
      OnlyResetAt(ran, dag.Contents(), res, dag.isPreallocate);
    }

    /**
     * Two decompressions for one source and size: a build and its run, then a cache hit. On the hit
     * the result buffer is at its planned size if and only if the run reported exactly that size, or
     * none at all, and fewer bytes than planned are asked for if and only if it reported fewer.
     */
    method DecompressTwice(first: map<int, Segment>, second: map<int, Segment>, src: int, size: nat, grant: int -> int,
                           caller: int, reported: Option<nat>) returns (ok: bool, res: int, ghost rec: BuildRecord)
      requires Valid() && !Hits(src, size)
      modifies this, dag
      ensures Valid() && Attempted(plan, first, map[src := size], grant, ok, rec)
      ensures ok ==> dag != null && res in dag.buffers && src in results && res == results[src]
      ensures ok ==> forall i :: 0 <= i < |plan.fwd| && plan.fwd[i].stage == src ==>
        PlannedSize(plan, rec.planned, i, size, dag.buffers[res].initialSize)
      ensures ok ==> (dag.buffers[res].size == dag.buffers[res].initialSize <==>
        reported.None? || reported.value == dag.buffers[res].initialSize)
      ensures ok ==> (dag.buffers[res].size < dag.buffers[res].initialSize <==>
        reported.Some? && reported.value < dag.buffers[res].initialSize)
      ensures ok && reported.Some? ==> dag.buffers[res].size == reported.value
    {
      res := 0;
      ok, rec := BuildOrReuse(first, src, size, grant);
      if ok {
        ghost var built := dag.Contents();
        res := RunThenHit(second, src, size, grant, caller, reported);
        ResultsPlanned(plan, first, src, size, rec, built);
      }
    }
  }

  /** The planned size of the result of source stage `i`: its estimate, or the recorded size if that is larger. */
  ghost predicate PlannedSize(plan: Plan, planned: Dag, i: int, recorded: nat, bytes: nat)
    requires 0 <= i < |plan.fwd|
  {
    var n := InvNode(plan.fwd, i);
    && IsNode(planned, n)
    && var e := plan.est(plan.fwd[i].stage, InSizes(planned, n));
      if e == [] then recorded <= bytes else bytes == Max(e[0], recorded)
  }

  lemma ResultsPlanned(plan: Plan, po: map<int, Segment>, src: int, size: nat, rec: BuildRecord, d: Dag)
    requires rec in BuildsFor(plan, po, map[src := size])
    requires SameButStorage(rec.grown, d) && src in rec.results && rec.results[src] in d.buffers
    ensures forall i :: 0 <= i < |plan.fwd| && plan.fwd[i].stage == src ==>
      PlannedSize(plan, rec.planned, i, size, d.buffers[rec.results[src]].initialSize)
    ensures d.buffers[rec.results[src]].size == d.buffers[rec.results[src]].initialSize
  {
    var res := rec.results[src];
    BuiltAtPlannedSizes(plan.fwd, plan.info, po, map[src := size], plan.est, rec.results, rec.planned, rec.grown);
    assert OnlyStorageDiffers(rec.grown.buffers[res], d.buffers[res]);
    forall i | 0 <= i < |plan.fwd| && plan.fwd[i].stage == src
      ensures PlannedSize(plan, rec.planned, i, size, d.buffers[res].initialSize)
    {
      ResultPlannedAt(plan.fwd, plan.info, po, map[src := size], plan.est, rec.results, rec.planned, rec.grown, i);
    }
  }

  /** execute() records what each stage produced, without touching the planned sizes. */
  method SetActualSizes(dag: CompressionDAG, actual: map<int, nat>)
    requires forall b :: b in actual ==> b in dag.buffers
    modifies dag`buffers
    ensures dag.buffers.Keys == old(dag.buffers.Keys)
    ensures forall b :: b in dag.buffers ==>
      dag.buffers[b] == old(dag.buffers[b]).(size := if b in actual then actual[b] else old(dag.buffers[b]).size)
  {
    var todo := actual.Keys;
    ghost var before := dag.buffers;
    while todo != {}
      invariant dag.buffers.Keys == before.Keys && todo <= actual.Keys
      invariant forall b :: b in dag.buffers ==>
        dag.buffers[b] == before[b].(size := if b in actual && b !in todo then actual[b] else before[b].size)
      decreases |todo|
    {
      var b := AnyOf(todo);
      todo := todo - {b};
      dag.buffers := dag.buffers[b := dag.buffers[b].(size := actual[b])];
    }
  }

  /**
   * A one-stage pipeline, 64 bytes planned, a first decompression that reports 5: on the cache hit
   * the result buffer is taken to hold 5 bytes.
   */
  method ResultKeepsLastRunSize() returns (cache: InvDAGCache, res: int)
    ensures fresh(cache) && cache.Valid() && cache.dag != null && 0 in cache.results && res == cache.results[0]
    ensures res in cache.dag.buffers && cache.dag.buffers[res].initialSize == 64 && cache.dag.buffers[res].size == 5
  {
    var fwd := [FwdStage(0, [1], [0])];
    var info := StageInfo(s => "stage", (s, k) => "out", s => 1);
    var po := map[1 := Segment(4096, 8)];
    OneStageIsBuildable(fwd, info, po);
    cache := new InvDAGCache(Plan(fwd, info, (s, ins) => [64], false, false, stages => false));
    var ok;
    ghost var rec;
    ok, res, rec := cache.DecompressTwice(po, po, 0, 64, region => 0, 9000, Some(5));
    assert PlannedSize(cache.plan, rec.planned, 0, 64, cache.dag.buffers[res].initialSize);
  }

  lemma OneStageIsBuildable(fwd: seq<FwdStage>, info: StageInfo, po: map<int, Segment>)
    requires fwd == [FwdStage(0, [1], [0])] && info.numOutputs(0) == 1 && 1 in po
    ensures Cacheable(fwd) && Buildable(fwd, info, po, map[0 := 64])
  {
    ConsumersFacts(fwd, 1, 1);
    assert fwd[0].stage in map[0 := 64];
  }
}
