/**
 * The law the pipeline exists for: compress over shared, colored, fused storage, archive the outputs,
 * decompress over the inverse DAG's own colored, fused storage with the result redirected to the
 * caller, and the caller's buffer holds the input again.
 */
module EndToEnd {
  import opened Values
  import opened Graph
  import opened Building
  import opened Levels
  import opened Liveness
  import opened Execution
  import opened Placement
  import opened CompressionDag
  import opened InverseDag
  import opened InverseBuilder
  import opened FusedGroups
  import opened OutputWiring
  import opened InverseCache
  import Concat
  import Padding
  import Lifecycle

  // ---- the forward side ----

  /** The value each forward buffer stands for. */
  ghost function Meaning(r: Run): int -> Value {
    b => if Sound(r.d) && Readable(r.d, b) then ValueOf(r.d, r.sem, r.ext, b) else []
  }

  lemma ForwardIsRun(r: Run, fwd: seq<FwdStage>, order: seq<int>)
    requires Sound(r.d) && Describes(fwd, r.d.nodes, order)
    ensures ForwardRun(fwd, r.sem, Meaning(r))
  {
    forall i, k | 0 <= i < |fwd| && 0 <= k < |fwd[i].outputs|
      ensures Meaning(r)(fwd[i].outputs[k]) == r.sem(fwd[i].stage, ValuesIn(fwd[i].inputs, Meaning(r)), k)
    {
      var n := order[i];
      assert Made(r.d, n, k, r.d.nodes[n].outputs[k]);
      assert ValuesIn(fwd[i].inputs, Meaning(r)) == InputValues(r.d, r.sem, r.ext, n);
    }
  }

  /** What compress() collects from storage after the run: one segment per pipeline output. */
  ghost function Collected(r: Run, mem: map<int, Value>, outputs: seq<int>): (segs: seq<Value>)
    ensures |segs| == |outputs|
  {
    seq(|outputs|, x requires 0 <= x < |outputs| => if outputs[x] in r.d.buffers then r.Fetch(mem, outputs[x]) else [])
  }

  ghost predicate HasAllPorts(d: Dag, info: StageInfo) {
    forall i :: IsNode(d, i) ==> info.numOutputs(d.nodes[i].stage) == |d.nodes[i].outputs|
  }

  /** The collected segments are the meanings of the pipeline outputs. */
  lemma CollectedIsMeaning(r: Run, mems: seq<map<int, Value>>, trace: seq<Event>, info: StageInfo, outputs: seq<int>)
    requires r.Valid() && r.IsTrace(trace) && r.IsHistory(mems, trace)
    requires HasAllPorts(r.d, info) && outputs == PipelineOutputs(r.d, info, |r.d.nodes|)
    ensures forall x :: 0 <= x < |outputs| ==> Collected(r, mems[|trace|], outputs)[x] == Meaning(r)(outputs[x])
  {
    OutputsAreOpenPorts(r.d, info, |r.d.nodes|);
    r.AliasedRunIsFaithful(mems, trace);
    forall x | 0 <= x < |outputs| ensures Collected(r, mems[|trace|], outputs)[x] == Meaning(r)(outputs[x]) {
      var b := outputs[x];
      assert b in outputs && ListedPort(r.d, info, |r.d.nodes|, b);
      assert Written(r.d, b) && r.d.buffers[b].consumers == [];
      assert r.Holds(mems[|trace|], b);
    }
  }

  // ---- the blob ----

  /** One output is handed over as it is; several are archived. */
  ghost function BlobOf(segs: seq<Value>): seq<Byte> {
    if |segs| == 1 then segs[0] else Concat.Archive(segs)
  }

  /** The segments decompress() finds in a blob of a pipeline with `n` outputs. */
  ghost function SegmentsOf(blob: seq<Byte>, n: nat): seq<Value> {
    if n == 1 then [blob]
    else if Concat.HeaderBytes(n) <= |blob| && Concat.SegmentsIn(blob, n).Ok? then Concat.SegmentsIn(blob, n).value
    else []
  }

  lemma BlobRoundTrip(segs: seq<Value>)
    requires |segs| == 1 || Concat.Archivable(segs)
    ensures SegmentsOf(BlobOf(segs), |segs|) == segs
  {
    if |segs| != 1 {
      Concat.ConcatRoundTrip(segs);
    }
  }

  // ---- the inverse side ----

  /** Every injected input of the inverse DAG delivers the segment of the output it stands for. */
  ghost predicate ReadsSegments(fwd: seq<FwdStage>, w: Dag, ext: int -> Value, outputs: seq<int>, segs: seq<Value>)
    requires |w.nodes| == |fwd|
  {
    forall i, k, x :: InjectedFor(fwd, w, outputs, i, k, x) && x < |segs| ==>
        ext(w.nodes[InvNode(fwd, i)].inputs[k]) == segs[x]
  }

  /** Inverse input `k` of stage `i` is injected for pipeline output `x`. */
  ghost predicate InjectedFor(fwd: seq<FwdStage>, w: Dag, outputs: seq<int>, i: int, k: int, x: int) {
    && |w.nodes| == |fwd| && 0 <= i < |fwd| && 0 <= k < |fwd[i].outputs| && IsInjected(fwd, w, i, k)
    && 0 <= x < |outputs| && outputs[x] == fwd[i].outputs[k]
  }

  /** An output no stage reads is listed among the pipeline outputs. */
  lemma UnreadOutputIsListed(d: Dag, info: StageInfo, fwd: seq<FwdStage>, order: seq<int>, i: int, k: int)
    requires Sound(d) && Describes(fwd, d.nodes, order) && (forall x :: IsNode(d, x) ==> x in order)
    requires HasAllPorts(d, info)
    requires forall b :: b in d.buffers ==> b >= 0
    requires 0 <= i < |fwd| && 0 <= k < |fwd[i].outputs| && fwd[i].outputs[k] !in Consumers(fwd, |fwd|)
    ensures fwd[i].outputs[k] in PipelineOutputs(d, info, |d.nodes|)
  {
    var b, n := fwd[i].outputs[k], order[i];
    OutputsAreOpenPorts(d, info, |d.nodes|);
    assert Made(d, n, k, d.nodes[n].outputs[k]) && BufferWired(d, b);
    if !Unconsumed(d, b) {
      ReadBufferHasConsumer(d, fwd, order, b);
    }
    assert IsOpen(d, info, n, k);
  }

  lemma ReadBufferHasConsumer(d: Dag, fwd: seq<FwdStage>, order: seq<int>, b: int)
    requires Sound(d) && Describes(fwd, d.nodes, order) && (forall x :: IsNode(d, x) ==> x in order)
    requires b in d.buffers && b >= 0 && d.buffers[b].consumers != []
    ensures b in Consumers(fwd, |fwd|)
  {
    var c := d.buffers[b].consumers[0];
    assert BufferWired(d, b) && c in d.buffers[b].consumers;
    var m :| 0 <= m < |d.nodes[c].inputs| && d.nodes[c].inputs[m] == b;
    var j :| 0 <= j < |order| && order[j] == c;
    ConsumersFacts(fwd, |fwd|, b);
    assert Reads(fwd, j, m, b);
  }

  lemma SegmentsAreDelivered(r: Run, fwd: seq<FwdStage>, order: seq<int>, info: StageInfo, w: Dag, ext: int -> Value,
                             segs: seq<Value>)
    requires Sound(r.d) && Describes(fwd, r.d.nodes, order) && (forall x :: IsNode(r.d, x) ==> x in order)
    requires HasAllPorts(r.d, info)
    requires (forall b :: b in r.d.buffers ==> b >= 0) && |w.nodes| == |fwd|
    requires ReadsSegments(fwd, w, ext, PipelineOutputs(r.d, info, |r.d.nodes|), segs)
    requires |segs| == |PipelineOutputs(r.d, info, |r.d.nodes|)|
    requires forall x :: 0 <= x < |segs| ==> segs[x] == Meaning(r)(PipelineOutputs(r.d, info, |r.d.nodes|)[x])
    ensures Delivered(fwd, w, ext, Meaning(r))
  {
    var outputs := PipelineOutputs(r.d, info, |r.d.nodes|);
    forall i, k | 0 <= i < |fwd| && 0 <= k < |fwd[i].outputs| && IsInjected(fwd, w, i, k)
      ensures ext(w.nodes[InvNode(fwd, i)].inputs[k]) == Meaning(r)(fwd[i].outputs[k])
    {
      UnreadOutputIsListed(r.d, info, fwd, order, i, k);
      var x :| 0 <= x < |outputs| && outputs[x] == fwd[i].outputs[k];
      assert segs[x] == Meaning(r)(outputs[x]) && InjectedFor(fwd, w, outputs, i, k, x);
    }
  }

  /** Nothing in the inverse DAG reads the buffer that gives back an external forward input. */
  lemma ResultIsUnread(fwd: seq<FwdStage>, info: StageInfo, po: map<int, Segment>, w: Dag, i: int, j: int)
    requires Topological(fwd) && WiredUpTo(fwd, info, po, w, |fwd|, 0)
    requires 0 <= i < |fwd| && 0 <= j < |fwd[i].inputs| && j < |w.nodes[InvNode(fwd, i)].outputs|
    requires forall a, k :: 0 <= a < |fwd| && 0 <= k < |fwd[a].outputs| ==> fwd[a].outputs[k] != fwd[i].inputs[j]
    ensures w.nodes[InvNode(fwd, i)].outputs[j] in w.buffers
    ensures w.buffers[w.nodes[InvNode(fwd, i)].outputs[j]].consumers == []
  {
    var n := InvNode(fwd, i);
    var x := w.nodes[n].outputs[j];
    assert Made(w, n, j, x) && BufferWired(w, x);
    if w.buffers[x].consumers != [] {
      var c := w.buffers[x].consumers[0];
      assert c in w.buffers[x].consumers;
      var k :| 0 <= k < |w.nodes[c].inputs| && w.nodes[c].inputs[k] == x;
      ReaderNamesInput(fwd, info, po, w, n, j, c, k);
    }
  }

  /** A node that reads output `j` of inverse node `n` stands for the producer of that stage's input `j`. */
  lemma ReaderNamesInput(fwd: seq<FwdStage>, info: StageInfo, po: map<int, Segment>, w: Dag, n: int, j: int, c: int,
                         k: int)
    requires WiredUpTo(fwd, info, po, w, |fwd|, 0) && IsNode(w, n) && IsNode(w, c)
    requires 0 <= j < |w.nodes[n].outputs| && 0 <= k < |w.nodes[c].inputs|
    requires w.nodes[c].inputs[k] == w.nodes[n].outputs[j]
    ensures var i, a := |fwd| - 1 - n, |fwd| - 1 - c;
      0 <= i < |fwd| && 0 <= a < |fwd| && k < |fwd[a].outputs| && j < |fwd[i].inputs| &&
          fwd[a].outputs[k] == fwd[i].inputs[j]
  {
    var i, a := |fwd| - 1 - n, |fwd| - 1 - c;
    assert InvNode(fwd, a) == c && StageRight(fwd, po, w, a, |fwd[a].outputs|) && InputRight(fwd, po, w, a, k);
    assert Made(w, n, j, w.nodes[n].outputs[j]);
    var b, cons := fwd[a].outputs[k], Consumers(fwd, |fwd|);
    ConsumersFacts(fwd, |fwd|, b);
    var p := InvNode(fwd, cons[b].0);
    assert Made(w, p, cons[b].1, w.nodes[p].outputs[cons[b].1]);
  }

  // ---- both sides together ----

  /** A finalized forward DAG and the topology handed to the builder. */
  ghost predicate ForwardSide(r: Run, fwd: seq<FwdStage>, levels: seq<seq<int>>, fwdInfo: StageInfo) {
    && Sound(r.d) && InputsAreExternal(r.d) && HasAllPorts(r.d, fwdInfo) && (forall b :: b in r.d.buffers ==> b >= 0)
    && (forall i :: IsNode(r.d, i) ==> r.d.nodes[i].level <= r.maxLevel)
    && (forall i, j :: 0 <= i < j < |r.d.nodes| ==> r.d.nodes[i].stage != r.d.nodes[j].stage)
    && ListsLevels(levels, r.d.nodes, r.maxLevel) && ListedOnce(levels) && Describes(fwd, r.d.nodes, Flat(levels))
  }

  /** A compression followed by a decompression over an inverse DAG with wiring `w`. */
  ghost predicate Setting(r: Run, fwd: seq<FwdStage>, levels: seq<seq<int>>, fwdInfo: StageInfo, info: StageInfo,
                          po: map<int, Segment>, w: Dag, s: Run) {
    && ForwardSide(r, fwd, levels, fwdInfo)
    && Undone(fwd, info, r.sem, s.sem)
    && WiredUpTo(fwd, info, po, w, |fwd|, 0) && ValidDeps(DepsOf(w)) && SameWiring(Finalized(w), s.d)
  }

  /** Source stage: forward stage `i` reads the pipeline input at port 0. */
  ghost predicate IsSource(r: Run, fwd: seq<FwdStage>, i: int) {
    && 0 <= i < |fwd| && fwd[i].inputs != [] && fwd[i].inputs[0] in r.d.buffers
    && r.d.buffers[fwd[i].inputs[0]].producer < 0
  }

  lemma ForwardFacts(r: Run, fwd: seq<FwdStage>, levels: seq<seq<int>>, fwdInfo: StageInfo)
    requires ForwardSide(r, fwd, levels, fwdInfo)
    ensures DistinctStages(fwd) && Topological(fwd) && forall x :: IsNode(r.d, x) ==> x in Flat(levels)
  {
    FlatIsInLevelOrder(levels, r.d.nodes, r.maxLevel, |levels|);
    assert levels[..|levels|] == levels;
    LevelOrderIsTopological(r.d, fwd, Flat(levels), r.maxLevel + 1);
    forall x | IsNode(r.d, x) ensures x in Flat(levels) {
      assert NodeLeveled(r.d, x);
    }
  }

  /** The inverse output of a source's port 0 stands for the pipeline input. */
  lemma ResultMeansInput(r: Run, fwd: seq<FwdStage>, levels: seq<seq<int>>, fwdInfo: StageInfo, info: StageInfo,
                         po: map<int, Segment>, w: Dag, s: Run, i: int)
    requires Setting(r, fwd, levels, fwdInfo, info, po, w, s) && Sound(s.d) && IsSource(r, fwd, i)
    requires Delivered(fwd, w, s.ext, Meaning(r))
    ensures var n := InvNode(fwd, i);
      && IsNode(s.d, n) && s.d.nodes[n].outputs != [] && Written(s.d, s.d.nodes[n].outputs[0])
      && s.d.buffers[s.d.nodes[n].outputs[0]].consumers == []
      && ValueOf(s.d, s.sem, s.ext, s.d.nodes[n].outputs[0]) == r.ext(fwd[i].inputs[0])
  {
    ForwardFacts(r, fwd, levels, fwdInfo);
    ForwardIsRun(r, fwd, Flat(levels));
    FinalizedIsSound(fwd, info, po, w);
    InverseRestores(fwd, info, po, w, r.sem, s.sem, Meaning(r), s.ext, i, 0);
    var n := InvNode(fwd, i);
    var res := w.nodes[n].outputs[0];
    SameWiringSameValue(Finalized(w), s.d, s.sem, s.ext, res);
    InputIsNoOutput(r, fwd, Flat(levels), i);
    ResultIsUnread(fwd, info, po, w, i, 0);
    assert Resized(w.buffers[res], s.d.buffers[res]) && Made(w, n, 0, res);
  }

  lemma InputIsNoOutput(r: Run, fwd: seq<FwdStage>, order: seq<int>, i: int)
    requires Sound(r.d) && Describes(fwd, r.d.nodes, order) && IsSource(r, fwd, i)
    ensures forall a, k :: 0 <= a < |fwd| && 0 <= k < |fwd[a].outputs| ==> fwd[a].outputs[k] != fwd[i].inputs[0]
  {
  }

  /**
   * Compress and decompress, over any storage that keeps simultaneously live buffers apart and in
   * any interleaving of the kernels of a level: when the inverse reads the blob's segments, each
   * source's result buffer ends up holding the pipeline input.
   */
  lemma DecompressRestoresInput(r: Run, mr: seq<map<int, Value>>, tr: seq<Event>, fwd: seq<FwdStage>,
                                levels: seq<seq<int>>,
                                fwdInfo: StageInfo, info: StageInfo, po: map<int, Segment>, w: Dag,
                                s: Run, ms: seq<map<int, Value>>, ts: seq<Event>, i: int)
    requires Setting(r, fwd, levels, fwdInfo, info, po, w, s) && IsSource(r, fwd, i)
    requires r.Valid() && r.IsTrace(tr) && r.IsHistory(mr, tr)
    requires s.Valid() && s.IsTrace(ts) && s.IsHistory(ms, ts)
    requires var segs := Collected(r, mr[|tr|], PipelineOutputs(r.d, fwdInfo, |r.d.nodes|));
      && (|segs| == 1 || Concat.Archivable(segs))
      && ReadsSegments(fwd, w, s.ext, PipelineOutputs(r.d, fwdInfo, |r.d.nodes|), SegmentsOf(BlobOf(segs), |segs|))
    ensures s.d.nodes[InvNode(fwd, i)].outputs != []
    ensures var res := s.d.nodes[InvNode(fwd, i)].outputs[0];
      res in s.place && s.place[res] in ms[|ts|] && ms[|ts|][s.place[res]] == r.ext(fwd[i].inputs[0])
  {
    var outputs := PipelineOutputs(r.d, fwdInfo, |r.d.nodes|);
    var segs := Collected(r, mr[|tr|], outputs);
    CollectedIsMeaning(r, mr, tr, fwdInfo, outputs);
    BlobRoundTrip(segs);
    ForwardFacts(r, fwd, levels, fwdInfo);
    SegmentsAreDelivered(r, fwd, Flat(levels), fwdInfo, w, s.ext, segs);
    ResultMeansInput(r, fwd, levels, fwdInfo, info, po, w, s, i);
    s.AliasedRunIsFaithful(ms, ts);
    assert s.Holds(ms[|ts|], s.d.nodes[InvNode(fwd, i)].outputs[0]);
  }

  // ---- the storage the pipeline really uses ----

  /** Colored storage: a region per color, and for a redirected result the caller's own location. */
  function Regions(color: map<int, nat>): map<int, int> {
    color
  }

  function Redirected(color: map<int, nat>, res: int, caller: int): map<int, int> {
    Regions(color)[res := caller]
  }

  /** compress() runs with one region per color. */
  ghost predicate ForwardStorage(r: Run, color: map<int, nat>, sizes: seq<nat>) {
    && GroupsOK(r.d, r.groups) && r.place == Regions(color)
    && ColoredFor(r.d, r.groups, MarkedInternal(r.d, r.groups), r.maxLevel, color, sizes)
  }

  /** decompress() runs the built DAG on its own regions, the result redirected to a location nothing else uses. */
  ghost predicate InverseStorage(s: Run, color: map<int, nat>, sizes: seq<nat>, res: int, caller: int) {
    && ReadyToRun(s.d, s.groups, MarkedInternal(s.d, s.groups), s.maxLevel) && InputsAreExternal(s.d)
    && ColoredFor(s.d, s.groups, MarkedInternal(s.d, s.groups), s.maxLevel, color, sizes)
    && caller !in Regions(color).Values && s.place == Redirected(color, res, caller)
  }

  lemma ForwardStorageIsValid(r: Run, color: map<int, nat>, sizes: seq<nat>)
    requires Sound(r.d) && InputsAreExternal(r.d) && (forall i :: IsNode(r.d, i) ==> r.d.nodes[i].level <= r.maxLevel)
    requires ForwardStorage(r, color, sizes)
    ensures r.Valid()
  {
    MarkedIsInternal(r.d, r.groups);
    ColorsAreAliasSafe(r, color, sizes, SizeOf(r.d));
  }

  lemma InverseStorageIsValid(s: Run, color: map<int, nat>, sizes: seq<nat>, res: int, caller: int)
    requires InverseStorage(s, color, sizes, res, caller)
    ensures s.Valid()
  {
    MarkedIsInternal(s.d, s.groups);
    var onRegions := s.(place := Regions(color));
    ColorsAreAliasSafe(onRegions, color, sizes, SizeOf(s.d));
    RedirectKeepsAliasSafe(onRegions, res, caller);
    assert onRegions.(place := onRegions.place[res := caller]) == s;
  }

  /** A run of `r` from some initial memory, recorded event by event. */
  ghost predicate Happened(r: Run, mems: seq<map<int, Value>>, trace: seq<Event>) {
    r.Valid() && r.IsTrace(trace) && r.IsHistory(mems, trace)
  }

  ghost predicate IsFirstOutput(d: Dag, n: int, b: int) {
    IsNode(d, n) && d.nodes[n].outputs != [] && d.nodes[n].outputs[0] == b
  }

  /** The inverse run's external inputs are the segments found in the blob of the forward run. */
  ghost predicate BlobIsRead(r: Run, mem: map<int, Value>, fwd: seq<FwdStage>, fwdInfo: StageInfo, w: Dag,
                             ext: int -> Value) {
    var outputs := PipelineOutputs(r.d, fwdInfo, |r.d.nodes|);
    var segs := Collected(r, mem, outputs);
    && |w.nodes| == |fwd| && (|segs| == 1 || Concat.Archivable(segs))
    && ReadsSegments(fwd, w, ext, outputs, SegmentsOf(BlobOf(segs), |segs|))
  }

  /**
   * Forward coloring on one side, redirected inverse coloring on the other, fused groups on both:
   * both runs are safe, and after them the caller's buffer holds the source's input.
   */
  lemma ColoredRoundTrip(r: Run, fwdColor: map<int, nat>, fwdSizes: seq<nat>, mr: seq<map<int, Value>>, tr: seq<Event>,
                         fwd: seq<FwdStage>, levels: seq<seq<int>>, fwdInfo: StageInfo, info: StageInfo, po: map<int,
                         Segment>, w: Dag,
                         s: Run, color: map<int, nat>, sizes: seq<nat>, res: int, caller: int,
                         ms: seq<map<int, Value>>, ts: seq<Event>, i: int)
    requires Setting(r, fwd, levels, fwdInfo, info, po, w, s) && IsSource(r, fwd, i)
    requires ForwardStorage(r, fwdColor, fwdSizes) && InverseStorage(s, color, sizes, res, caller)
    requires IsFirstOutput(s.d, InvNode(fwd, i), res)
    ensures r.Valid() && s.Valid()
    ensures Happened(r, mr, tr) && Happened(s, ms, ts) && BlobIsRead(r, mr[|tr|], fwd, fwdInfo, w, s.ext)
      ==> caller in ms[|ts|] && ms[|ts|][caller] == r.ext(fwd[i].inputs[0])
  {
    ForwardStorageIsValid(r, fwdColor, fwdSizes);
    InverseStorageIsValid(s, color, sizes, res, caller);
    if Happened(r, mr, tr) && Happened(s, ms, ts) && BlobIsRead(r, mr[|tr|], fwd, fwdInfo, w, s.ext) {
      DecompressRestoresInput(r, mr, tr, fwd, levels, fwdInfo, info, po, w, s, ms, ts, i);
      assert s.place[res] == caller;
    }
  }

  // ---- what the builder guarantees ----

  /** The map names a segment for every pipeline output. */
  ghost predicate CoversOutputs(po: map<int, Segment>, outputs: seq<int>) {
    forall x :: 0 <= x < |outputs| ==> outputs[x] in po
  }

  /**
   * decompress() never fails for want of a source: for a finalized forward DAG, a map of its pipeline
   * outputs and stages with one inverse output per forward input, buildInverseDAG() wires everything.
   */
  lemma ForwardIsBuildable(r: Run, fwd: seq<FwdStage>, levels: seq<seq<int>>, fwdInfo: StageInfo, info: StageInfo,
                           po: map<int, Segment>, sources: map<int, nat>, i: int)
    requires ForwardSide(r, fwd, levels, fwdInfo) && IsSource(r, fwd, i) && sources.Keys == {fwd[i].stage}
    requires forall x :: IsNode(r.d, x) ==> info.numOutputs(r.d.nodes[x].stage) == |r.d.nodes[x].inputs|
    requires CoversOutputs(po, PipelineOutputs(r.d, fwdInfo, |r.d.nodes|))
    ensures DistinctStages(fwd) && Topological(fwd) && Buildable(fwd, info, po, sources)
  {
    OpenPortsCovered(r.d, fwdInfo, po);
    TopologyIsWirable(r.d, fwd, levels, r.maxLevel, info, po);
    SourceHasOutput(r, fwd, levels, fwdInfo, info, sources, i);
  }

  /** A map of all pipeline outputs holds every unread port. */
  lemma OpenPortsCovered(d: Dag, fwdInfo: StageInfo, po: map<int, Segment>)
    requires Wired(d) && HasAllPorts(d, fwdInfo) && CoversOutputs(po, PipelineOutputs(d, fwdInfo, |d.nodes|))
    ensures forall x, k :: IsNode(d, x) && 0 <= k < |d.nodes[x].outputs| && Unconsumed(d, d.nodes[x].outputs[k]) ==>
      d.nodes[x].outputs[k] in po
  {
    OutputsAreOpenPorts(d, fwdInfo, |d.nodes|);
    forall x, k | IsNode(d, x) && 0 <= k < |d.nodes[x].outputs| && Unconsumed(d, d.nodes[x].outputs[k])
      ensures d.nodes[x].outputs[k] in po
    {
      assert IsOpen(d, fwdInfo, x, k);
    }
  }

  lemma SourceHasOutput(r: Run, fwd: seq<FwdStage>, levels: seq<seq<int>>, fwdInfo: StageInfo, info: StageInfo,
                        sources: map<int, nat>, i: int)
    requires ForwardSide(r, fwd, levels, fwdInfo) && IsSource(r, fwd, i) && sources.Keys == {fwd[i].stage}
    requires forall x :: IsNode(r.d, x) ==> info.numOutputs(r.d.nodes[x].stage) == |r.d.nodes[x].inputs|
    ensures HasSource(fwd, sources) && SourcesHaveOutputs(fwd, info, sources, |fwd|)
  {
    ForwardFacts(r, fwd, levels, fwdInfo);
    forall a | 0 <= a < |fwd| && fwd[a].stage in sources ensures info.numOutputs(fwd[a].stage) > 0 {
      assert a == i;
    }
  }

  /**
   * From detection to decompression: what autoDetectUnconnectedOutputs() recorded is all the builder
   * needs, on the trimmed and finalized DAG.
   */
  lemma DetectedForwardIsBuildable(d: Dag, fwdInfo: StageInfo, nodes: seq<Node>, buffers: map<int, BufferInfo>,
                                   outputs: seq<int>,
                                   r: Run, fwd: seq<FwdStage>, levels: seq<seq<int>>, info: StageInfo,
                                   po: map<int, Segment>, sources: map<int, nat>, i: int)
    requires SomeDetected(d, fwdInfo, nodes, buffers, outputs, |d.nodes|) && KeepsPorts(nodes, buffers, r.d)
    requires ForwardSide(r, fwd, levels, fwdInfo) && IsSource(r, fwd, i) && sources.Keys == {fwd[i].stage}
    requires forall x :: IsNode(r.d, x) ==> info.numOutputs(r.d.nodes[x].stage) == |r.d.nodes[x].inputs|
    requires CoversOutputs(po, outputs)
    ensures PipelineOutputs(r.d, fwdInfo, |r.d.nodes|) == outputs
    ensures DistinctStages(fwd) && Topological(fwd) && Buildable(fwd, info, po, sources)
  {
    DetectedIsPipelineOutputs(d, fwdInfo, nodes, buffers, outputs, r.d);
    ForwardIsBuildable(r, fwd, levels, fwdInfo, info, po, sources, i);
  }

  /** A DAG the builder finished is wired as the round trip needs, its result the source's first output. */
  lemma BuiltGivesSetting(r: Run, fwd: seq<FwdStage>, levels: seq<seq<int>>, fwdInfo: StageInfo, info: StageInfo,
                          po: map<int, Segment>, sources: map<int, nat>, est: Estimator, results: map<int, int>,
                          planned: Dag, s: Run, i: int)
    requires ForwardSide(r, fwd, levels, fwdInfo) && Undone(fwd, info, r.sem, s.sem) && 0 <= i < |fwd|
    requires fwd[i].stage in results
    requires Built(fwd, info, po, sources, est, results, planned, s.d)
    ensures Setting(r, fwd, levels, fwdInfo, info, po, Wiring(fwd, info, po, HintOf(sources)).value, s)
    ensures InputsAreExternal(s.d) && IsFirstOutput(s.d, InvNode(fwd, i), results[fwd[i].stage])
  {
    var w := Wiring(fwd, info, po, HintOf(sources)).value;
    forall b | b in s.d.buffers ensures s.d.buffers[b].isExternal <==> s.d.buffers[b].producer < 0 {
      assert Resized(w.buffers[b], s.d.buffers[b]);
    }
  }

  /** Storage placement changes neither live ranges nor sizes. */
  lemma StoredKeepsColoring(d: Dag, e: Dag, groups: seq<Group>, internal: set<int>, maxLevel: int,
                            color: map<int, nat>, sizes: seq<nat>)
    requires SameButStorage(d, e) && ColoredFor(e, groups, internal, maxLevel, color, sizes)
    ensures ColoredFor(d, groups, internal, maxLevel, color, sizes)
  {
    var a, b := Ranges(d, groups, internal, maxLevel), Ranges(e, groups, internal, maxLevel);
    forall x ensures x in a <==> x in b {
      assert x in d.buffers ==> OnlyStorageDiffers(d.buffers[x], e.buffers[x]);
    }
    forall x | x in a && x in b ensures a[x] == b[x] && SizeOf(d)(x) == SizeOf(e)(x) {
      assert OnlyStorageDiffers(d.buffers[x], e.buffers[x]);
    }
    SameMap(a, b);
    SameSizesSameRegions(a.Keys, SizeOf(e), SizeOf(d), color, sizes);
  }

  lemma SameSizesSameRegions(s: set<int>, f: int -> nat, g: int -> nat, color: map<int, nat>, sizes: seq<nat>)
    requires RegionsOf(s, f, color, sizes) && forall x :: x in s ==> g(x) == f(x)
    ensures RegionsOf(s, g, color, sizes)
  {
    forall c | 0 <= c < |sizes| ensures ExactFor(s, g, color, c, sizes[c]) {
      assert ExactFor(s, f, color, c, sizes[c]);
    }
  }

  /**
   * A decompression can always be planned: for every finalized forward DAG with its output map, the
   * builder finishes and its DAG has a greedy coloring, with the properties the law below asks for.
   */
  method PlanDecompression(ghost r: Run, fwd: seq<FwdStage>, ghost levels: seq<seq<int>>, ghost fwdInfo: StageInfo,
                           info: StageInfo,
                           po: map<int, Segment>, sources: map<int, nat>, est: Estimator, fuse: bool,
                           reg: StageRegistry, ghost i: int)
    returns (results: map<int, int>, groups: seq<Group>, maxLevel: int, color: map<int, nat>, sizes: seq<nat>,
             ghost planned: Dag, ghost d: Dag)
    requires ForwardSide(r, fwd, levels, fwdInfo) && IsSource(r, fwd, i) && sources.Keys == {fwd[i].stage}
    requires forall x :: IsNode(r.d, x) ==> info.numOutputs(r.d.nodes[x].stage) == |r.d.nodes[x].inputs|
    requires CoversOutputs(po, PipelineOutputs(r.d, fwdInfo, |r.d.nodes|))
    ensures Built(fwd, info, po, sources, est, results, planned, d) && fwd[i].stage in results
    ensures ReadyToRun(d, groups, MarkedInternal(d, groups), maxLevel)
    ensures ColoredFor(d, groups, MarkedInternal(d, groups), maxLevel, color, sizes)
  {
    ForwardIsBuildable(r, fwd, levels, fwdInfo, info, po, sources, i);
    var ok, dag;
    ok, dag, results, planned, d := BuildInverseDAG(fwd, po, info, est, sources, false, fuse, reg, _ => 0);
    groups, maxLevel := dag.fusedGroups, dag.maxLevel;
    StoredKeepsShape(d, dag.Contents(), groups);
    color, sizes := Color(dag.Contents(), groups, dag.fusedInternal, maxLevel);
    StoredKeepsColoring(d, dag.Contents(), groups, dag.fusedInternal, maxLevel, color, sizes);
  }

  lemma StoredKeepsShape(d: Dag, e: Dag, groups: seq<Group>)
    requires SameButStorage(d, e) && Sound(d) && GroupsOK(d, groups)
    ensures GroupsInRange(e, groups)
  {
    InGroupRange(d, groups);
    forall b | b in e.buffers ensures e.buffers[b].producer < |e.nodes| {
      assert OnlyStorageDiffers(d.buffers[b], e.buffers[b]);
    }
  }

  /**
   * The law in full. Forward: any greedy coloring of any finalized DAG with any disjoint linear fused
   * groups. Inverse: whatever buildInverseDAG() returned for the blob's output map, on its own greedy
   * coloring and groups, the result buffer redirected to a location of the caller's. Then both runs
   * are safe, and when the inverse reads the blob the forward run left, the caller gets the input.
   */
  lemma CompressThenDecompress(r: Run, fwdColor: map<int, nat>, fwdSizes: seq<nat>, mr: seq<map<int, Value>>,
                               tr: seq<Event>,
                               fwd: seq<FwdStage>, levels: seq<seq<int>>, fwdInfo: StageInfo, info: StageInfo,
                               po: map<int, Segment>,
                               sources: map<int, nat>, est: Estimator, results: map<int, int>, planned: Dag,
                               s: Run, color: map<int, nat>, sizes: seq<nat>, caller: int, ms: seq<map<int, Value>>,
                               ts: seq<Event>, i: int)
    requires ForwardSide(r, fwd, levels, fwdInfo) && IsSource(r, fwd, i) && ForwardStorage(r, fwdColor, fwdSizes)
    requires Undone(fwd, info, r.sem, s.sem)
    requires Built(fwd, info, po, sources, est, results, planned, s.d) && fwd[i].stage in results
    requires ReadyToRun(s.d, s.groups, MarkedInternal(s.d, s.groups), s.maxLevel)
    requires ColoredFor(s.d, s.groups, MarkedInternal(s.d, s.groups), s.maxLevel, color, sizes)
    requires caller !in Regions(color).Values && s.place == Redirected(color, results[fwd[i].stage], caller)
    ensures r.Valid() && s.Valid()
    ensures Happened(r, mr, tr) && Happened(s, ms, ts)
      && BlobIsRead(r, mr[|tr|], fwd, fwdInfo, Wiring(fwd, info, po, HintOf(sources)).value, s.ext)
      ==> caller in ms[|ts|] && ms[|ts|][caller] == r.ext(fwd[i].inputs[0])
  {
    BuiltGivesSetting(r, fwd, levels, fwdInfo, info, po, sources, est, results, planned, s, i);
    ColoredRoundTrip(r, fwdColor, fwdSizes, mr, tr, fwd, levels, fwdInfo, info, po, Wiring(fwd, info, po,
                     HintOf(sources)).value,
                     s, color, sizes, results[fwd[i].stage], caller, ms, ts, i);
  }

  // ---- the blob in device memory, read through the cached DAG's pointers ----

  type DeviceMemory = int -> Byte

  ghost function ReadAt(mem: DeviceMemory, s: Segment): (v: Value)
    ensures |v| == s.size && forall k :: 0 <= k < |v| ==> v[k] == mem(s.ptr + k)
  {
    seq(s.size, k => mem(s.ptr + k))
  }

  ghost predicate HoldsAt(mem: DeviceMemory, base: int, blob: seq<Byte>) {
    forall k :: 0 <= k < |blob| ==> mem(base + k) == blob[k]
  }

  /** What mapCompressedBufferPointers() returns for a blob at `base` whose segments have these sizes. */
  ghost predicate MapsBlob(po: map<int, Segment>, base: int, live: int -> int, sizes: seq<nat>, outputs: seq<int>) {
    |sizes| == |outputs| && forall x :: 0 <= x < |outputs| ==> MapsOutput(po, base, live, sizes, outputs, x)
  }

  ghost predicate MapsOutput(po: map<int, Segment>, base: int, live: int -> int, sizes: seq<nat>, outputs: seq<int>,
                             x: int)
    requires |sizes| == |outputs| && 0 <= x < |outputs|
  {
    && outputs[x] in po
    && po[outputs[x]] == Lifecycle.SegmentFor(Some(base), live, sizes, |outputs| > 1, outputs[x], x)
  }

  /** The mapped pointer and size of an output delimit exactly its segment. */
  lemma MappedSegmentReadsBack(mem: DeviceMemory, base: int, live: int -> int, segs: seq<Value>, outputs: seq<int>,
                               po: map<int, Segment>, x: int)
    requires |segs| == |outputs| && (|segs| == 1 || Concat.Archivable(segs)) && 0 <= x < |outputs|
    requires HoldsAt(mem, base, BlobOf(segs)) && MapsBlob(po, base, live, Concat.SizesOf(segs), outputs)
    ensures outputs[x] in po && ReadAt(mem, po[outputs[x]]) == segs[x]
  {
    assert MapsOutput(po, base, live, Concat.SizesOf(segs), outputs, x);
    if |segs| == 1 {
      SliceReadsBack(mem, base, BlobOf(segs), 0, segs[x]);
    } else {
      var from := Concat.SegmentInArchive(segs, x);
      SliceReadsBack(mem, base, Concat.Archive(segs), from, segs[x]);
    }
  }

  lemma SliceReadsBack(mem: DeviceMemory, base: int, blob: seq<Byte>, from: nat, v: Value)
    requires HoldsAt(mem, base, blob) && from + |v| <= |blob| && blob[from..from + |v|] == v
    ensures ReadAt(mem, Segment(base + from, |v|)) == v
  {
    var got := ReadAt(mem, Segment(base + from, |v|));
    forall k | 0 <= k < |v| ensures got[k] == v[k] {
      assert mem(base + (from + k)) == blob[from + k] == blob[from..from + |v|][k];
    }
  }

  /** What the inverse DAG's external inputs hold, following each buffer's pointer and size. */
  ghost function InputsFrom(mem: DeviceMemory, d: Dag): int -> Value {
    x => if x in d.buffers then ReadAt(mem, Segment(d.buffers[x].ptr, d.buffers[x].size)) else []
  }

  lemma FedInputsReadSegments(fwd: seq<FwdStage>, w: Dag, d: Dag, mem: DeviceMemory, outputs: seq<int>,
                              segs: seq<Value>, po: map<int, Segment>)
    requires |w.nodes| == |fwd| == |d.nodes| && (forall n :: 0 <= n < |fwd| ==> d.nodes[n].inputs == w.nodes[n].inputs)
    requires FedFrom(fwd, d, po) && |segs| == |outputs|
    requires forall x :: 0 <= x < |outputs| ==> outputs[x] in po && ReadAt(mem, po[outputs[x]]) == segs[x]
    ensures ReadsSegments(fwd, w, InputsFrom(mem, d), outputs, segs)
  {
    forall i, k, x | InjectedFor(fwd, w, outputs, i, k, x)
      ensures InputsFrom(mem, d)(w.nodes[InvNode(fwd, i)].inputs[k]) == segs[x]
    {
      assert InjectedAs(fwd, d, i, k, outputs[x], w.nodes[InvNode(fwd, i)].inputs[k]);
    }
  }

  /** The blob the forward run left lies at `base`, and `po` is its map. */
  ghost predicate BlobIsMapped(r: Run, held: map<int, Value>, fwdInfo: StageInfo, mem: DeviceMemory, base: int,
                               live: int -> int, po: map<int, Segment>) {
    var outputs := PipelineOutputs(r.d, fwdInfo, |r.d.nodes|);
    var segs := Collected(r, held, outputs);
    && (|segs| == 1 || Concat.Archivable(segs))
    && HoldsAt(mem, base, BlobOf(segs)) && MapsBlob(po, base, live, Concat.SizesOf(segs), outputs)
  }

  /** Following the pointers of a DAG that agrees with a fresh build for the blob's map reads the blob's segments. */
  lemma MappedBlobIsRead(r: Run, held: map<int, Value>, fwd: seq<FwdStage>, fwdInfo: StageInfo, info: StageInfo,
                         w0: Dag, w: Dag, d: Dag, mem: DeviceMemory, base: int, live: int -> int, po: map<int, Segment>)
    requires BlobIsMapped(r, held, fwdInfo, mem, base, live, po)
    requires WiredUpTo(fwd, info, po, w, |fwd|, 0) && ValidDeps(DepsOf(w)) && AgreesWithFresh(Finalized(w), d)
    requires w0.nodes == w.nodes
    ensures BlobIsRead(r, held, fwd, fwdInfo, w0, InputsFrom(mem, d))
  {
    var outputs := PipelineOutputs(r.d, fwdInfo, |r.d.nodes|);
    var segs := Collected(r, held, outputs);
    AgreesIsFed(fwd, info, po, w, d);
    forall x | 0 <= x < |outputs| ensures outputs[x] in po && ReadAt(mem, po[outputs[x]]) == segs[x] {
      MappedSegmentReadsBack(mem, base, live, segs, outputs, po, x);
    }
    FedInputsReadSegments(fwd, w0, d, mem, outputs, segs, po);
    BlobRoundTrip(segs);
  }

  /**
   * The k-th decompression. The DAG was built for some earlier blob (`po0`, `s.d`) and now agrees
   * with a fresh build for the present blob's map `po` (`d`, as BuildOrReuse leaves it); the inverse
   * run reads device memory through the pointers `d` holds. The forward run compressed the padded
   * input. Then the bytes decompress() reports in the caller's buffer are the caller's input.
   */
  lemma DecompressKthBlob(r: Run, fwdColor: map<int, nat>, fwdSizes: seq<nat>, mr: seq<map<int, Value>>, tr: seq<Event>,
                          fwd: seq<FwdStage>, levels: seq<seq<int>>, fwdInfo: StageInfo, info: StageInfo,
                          po0: map<int, Segment>, sources: map<int, nat>, est: Estimator, results: map<int, int>,
                          planned: Dag,
                          s: Run, color: map<int, nat>, sizes: seq<nat>, caller: int, ms: seq<map<int, Value>>,
                          ts: seq<Event>, i: int,
                          po: map<int, Segment>, d: Dag, mem: DeviceMemory, base: int, live: int -> int,
                          reqs: seq<nat>, input: seq<Byte>, original: nat)
    requires ForwardSide(r, fwd, levels, fwdInfo) && IsSource(r, fwd, i) && ForwardStorage(r, fwdColor, fwdSizes)
    requires Undone(fwd, info, r.sem, s.sem)
    requires Built(fwd, info, po0, sources, est, results, planned, s.d) && fwd[i].stage in results
    requires ReadyToRun(s.d, s.groups, MarkedInternal(s.d, s.groups), s.maxLevel)
    requires ColoredFor(s.d, s.groups, MarkedInternal(s.d, s.groups), s.maxLevel, color, sizes)
    requires caller !in Regions(color).Values && s.place == Redirected(color, results[fwd[i].stage], caller)
    requires var w := Wiring(fwd, info, po, HintOf(sources));
      w.Ok? && ValidDeps(DepsOf(w.value)) && AgreesWithFresh(Finalized(w.value), d)
    requires s.ext == InputsFrom(mem, d)
    requires var source := r.ext(fwd[i].inputs[0]);
      Padding.PaddedInput(reqs, input, source) && Padding.Reported(original, |source|) == |input|
    ensures r.Valid() && s.Valid()
    ensures Happened(r, mr, tr) && Happened(s, ms, ts) && BlobIsMapped(r, mr[|tr|], fwdInfo, mem, base, live, po)
      ==> caller in ms[|ts|] && HoldsInput(ms[|ts|][caller], original, input)
  {
    var w0, w := Wiring(fwd, info, po0, HintOf(sources)).value, Wiring(fwd, info, po, HintOf(sources)).value;
    CompressThenDecompress(r, fwdColor, fwdSizes, mr, tr, fwd, levels, fwdInfo, info, po0, sources, est, results,
                           planned,
                           s, color, sizes, caller, ms, ts, i);
    if Happened(r, mr, tr) && Happened(s, ms, ts) && BlobIsMapped(r, mr[|tr|], fwdInfo, mem, base, live, po) {
      ForwardFacts(r, fwd, levels, fwdInfo);
      WiringsAlike(fwd, info, po0, po, HintOf(sources));
      MappedBlobIsRead(r, mr[|tr|], fwd, fwdInfo, info, w0, w, d, mem, base, live, po);
      assert Padding.PaddedInput(reqs, input, ms[|ts|][caller]);
    }
  }

  /** The reported prefix of a result is the input. */
  ghost predicate HoldsInput(content: Value, original: nat, input: seq<Byte>) {
    Padding.Reported(original, |content|) <= |content| && content[..Padding.Reported(original, |content|)] == input
  }

  lemma WiringsAlike(fwd: seq<FwdStage>, info: StageInfo, po: map<int, Segment>, qo: map<int, Segment>, hint: nat)
    requires Topological(fwd) && Wiring(fwd, info, po, hint).Ok? && Wiring(fwd, info, qo, hint).Ok?
    ensures Wiring(fwd, info, qo, hint).value.nodes == Wiring(fwd, info, po, hint).value.nodes
    ensures WiredUpTo(fwd, info, qo, Wiring(fwd, info, qo, hint).value, |fwd|, 0)
  {
    WiringIsTotalIff(fwd, info, qo, hint);
    AddStagesFacts(fwd, info, hint, 0);
    WireAllAlike(fwd, po, qo, AddStages(fwd, info, hint, 0), AddStages(fwd, info, hint, 0), |fwd|);
  }
}
