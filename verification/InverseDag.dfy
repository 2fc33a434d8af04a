/**
 * The decompression DAG as a function of the forward topology
 * (src/pipeline/compressor_inverse_dag.cpp:34-127), and why running it undoes the forward run.
 */
module InverseDag {
  import opened Values
  import opened Graph
  import opened Building
  import opened Levels
  import opened Tags

  /** FwdStageDesc: one forward stage with its buffer ids, in port order. */
  datatype FwdStage = FwdStage(stage: int, outputs: seq<int>, inputs: seq<int>)

  /** Where a compressed segment lives and how long it is. */
  datatype Segment = Segment(ptr: int, size: nat)

  /** What a Stage object reports in inverse mode: its name, output names and number of outputs. */
  datatype StageInfo = StageInfo(name: int -> string, outputName: (int, int) -> string, numOutputs: int -> nat)

  ghost predicate DistinctStages(fwd: seq<FwdStage>) {
    forall i, j :: 0 <= i < j < |fwd| ==> fwd[i].stage != fwd[j].stage
  }

  /** Stages are added in reverse, so forward stage `i` becomes node |fwd|-1-i. */
  function InvNode(fwd: seq<FwdStage>, i: int): int {
    |fwd| - 1 - i
  }

  // ---- step 1: nodes and output ports ----

  function PortTag(info: StageInfo, s: int, k: int): string {
    info.name(s) + "." + info.outputName(s, k)
  }

  function AddPorts(d: Dag, i: int, info: StageInfo, s: int, size: nat, k: nat): Dag
    requires 0 <= i < |d.nodes|
    decreases info.numOutputs(s) - k
  {
    if k >= info.numOutputs(s) then d
    else AddPorts(WithOutput(d, i, size, k, PortTag(info, s, k)), i, info, s, size, k + 1)
  }

  /** Nodes for forward stages |fwd|-1 down to `from`. */
  function AddStages(fwd: seq<FwdStage>, info: StageInfo, hint: nat, from: nat): Dag
    requires from <= |fwd|
    decreases |fwd| - from
  {
    if from == |fwd| then EMPTY_DAG else
      var d := AddStages(fwd, info, hint, from + 1);
      var s := fwd[from].stage;
      AddPorts(WithStage(d, s, info.name(s)), |d.nodes|, info, s, hint, 0)
  }

  // ---- the consumer map: the last reader of each forward buffer ----

  function ConsumersOfInputs(m: map<int, (int, int)>, i: int, inputs: seq<int>, count: nat): map<int, (int, int)>
    requires count <= |inputs|
  {
    if count == 0 then m else
      var rest := ConsumersOfInputs(m, i, inputs, count - 1);
      if inputs[count - 1] >= 0 then rest[inputs[count - 1] := (i, count - 1)] else rest
  }

  function Consumers(fwd: seq<FwdStage>, count: nat): map<int, (int, int)>
    requires count <= |fwd|
  {
    if count == 0 then map[] else
      ConsumersOfInputs(Consumers(fwd, count - 1), count - 1, fwd[count - 1].inputs, |fwd[count - 1].inputs|)
  }

  ghost predicate Reads(fwd: seq<FwdStage>, i: int, j: int, b: int) {
    0 <= i < |fwd| && 0 <= j < |fwd[i].inputs| && fwd[i].inputs[j] == b
  }

  lemma {:induction false} ConsumersOfInputsFacts(m: map<int, (int, int)>, i: int, inputs: seq<int>, count: nat, b: int)
    requires count <= |inputs|
    ensures var r := ConsumersOfInputs(m, i, inputs, count);
      if b >= 0 && b in inputs[..count] then b in r && r[b].0 == i && 0 <= r[b].1 < count && inputs[r[b].1] == b
      else (b in r <==> b in m) && (b in m ==> r[b] == m[b])
    decreases count
  {
    if count > 0 {
      ConsumersOfInputsFacts(m, i, inputs, count - 1, b);
      assert inputs[..count] == inputs[..count - 1] + [inputs[count - 1]];
    }
  }

  /** The map holds exactly the buffers some stage reads, each with a genuine reader. */
  lemma {:induction false} ConsumersFacts(fwd: seq<FwdStage>, count: nat, b: int)
    requires count <= |fwd|
    ensures b in Consumers(fwd, count) ==> b >= 0 && Consumers(fwd, count)[b].0 < count
    ensures b in Consumers(fwd, count) ==> Reads(fwd, Consumers(fwd, count)[b].0, Consumers(fwd, count)[b].1, b)
    ensures forall i, j :: b >= 0 && Reads(fwd, i, j, b) && i < count ==>
      b in Consumers(fwd, count) && i <= Consumers(fwd, count)[b].0
    decreases count
  {
    if count > 0 {
      var last := count - 1;
      ConsumersFacts(fwd, last, b);
      ConsumersOfInputsFacts(Consumers(fwd, last), last, fwd[last].inputs, |fwd[last].inputs|, b);
      assert fwd[last].inputs[..|fwd[last].inputs|] == fwd[last].inputs;
    }
  }

  // ---- step 2: wiring ----

  /** Wires the inverse input for output `k` of forward stage `i`. */
  function WireOne(fwd: seq<FwdStage>, po: map<int, Segment>, d: Dag, i: nat, k: nat): Result<Dag>
    requires i < |fwd| && k < |fwd[i].outputs| && |d.nodes| == |fwd|
  {
    var b, cons := fwd[i].outputs[k], Consumers(fwd, |fwd|);
    if b in cons then
      ConsumersFacts(fwd, |fwd|, b);
      var p := InvNode(fwd, cons[b].0);
      if CanConnect(d, p, InvNode(fwd, i), cons[b].1) then Ok(Connected(d, p, InvNode(fwd, i), cons[b].1))
      else Err("connectExistingOutput failed")
    else if b !in po then Err("compressed buffer not found")
    else Ok(Injected(d, InvNode(fwd, i), po[b].size, InvTag(b), po[b].ptr))
  }

  /** Wires outputs 0..k-1 of forward stage `i`, stopping at the first failure. */
  function WireStage(fwd: seq<FwdStage>, po: map<int, Segment>, d: Dag, i: nat, k: nat): (r: Result<Dag>)
    requires i < |fwd| && k <= |fwd[i].outputs| && |d.nodes| == |fwd|
    ensures r.Ok? ==> |r.value.nodes| == |fwd|
  {
    if k == 0 then Ok(d) else
      var r := WireStage(fwd, po, d, i, k - 1);
      if r.Err? then r else WireOne(fwd, po, r.value, i, k - 1)
  }

  function WireAll(fwd: seq<FwdStage>, po: map<int, Segment>, d: Dag, i: nat): (r: Result<Dag>)
    requires i <= |fwd| && |d.nodes| == |fwd|
    ensures r.Ok? ==> |r.value.nodes| == |fwd|
  {
    if i == 0 then Ok(d) else
      var r := WireAll(fwd, po, d, i - 1);
      if r.Err? then r else WireStage(fwd, po, r.value, i - 1, |fwd[i - 1].outputs|)
  }

  lemma {:induction false} WireStageErr(fwd: seq<FwdStage>, po: map<int, Segment>, d: Dag, i: nat, k: nat, m: nat)
    requires i < |fwd| && k <= m <= |fwd[i].outputs| && |d.nodes| == |fwd| && WireStage(fwd, po, d, i, k).Err?
    ensures WireStage(fwd, po, d, i, m).Err?
    decreases m
  {
    if k < m {
      WireStageErr(fwd, po, d, i, k, m - 1);
    }
  }

  lemma {:induction false} WireAllErr(fwd: seq<FwdStage>, po: map<int, Segment>, d: Dag, i: nat, m: nat)
    requires i <= m <= |fwd| && |d.nodes| == |fwd| && WireAll(fwd, po, d, i).Err?
    ensures WireAll(fwd, po, d, m).Err?
    decreases m
  {
    if i < m {
      WireAllErr(fwd, po, d, i, m - 1);
    }
  }

  // ---- what a wired DAG looks like ----

  ghost predicate NodeFor(fwd: seq<FwdStage>, info: StageInfo, d: Dag, i: int)
    requires 0 <= i < |fwd| && |d.nodes| == |fwd|
  {
    var n := d.nodes[InvNode(fwd, i)];
    && n.stage == fwd[i].stage
    && |n.outputs| == info.numOutputs(n.stage)
    && (forall k :: k in n.ports <==> 0 <= k < |n.outputs|)
    && (forall k :: 0 <= k < |n.outputs| ==>
          n.ports[k] == n.outputs[k] && n.outputs[k] in d.buffers && !d.buffers[n.outputs[k]].isExternal)
    && n.level == -1
  }

  ghost predicate Skeleton(fwd: seq<FwdStage>, info: StageInfo, d: Dag) {
    && |d.nodes| == |fwd| && Growing(d)
    && (forall i :: 0 <= i < |fwd| ==> NodeFor(fwd, info, d, i))
  }

  /** Inverse input `k` of stage `i` comes from the right place. */
  ghost predicate InputRight(fwd: seq<FwdStage>, po: map<int, Segment>, d: Dag, i: int, k: int)
    requires |d.nodes| == |fwd| && 0 <= i < |fwd| && 0 <= k < |fwd[i].outputs|
  {
    var n, b, cons := d.nodes[InvNode(fwd, i)], fwd[i].outputs[k], Consumers(fwd, |fwd|);
    && k < |n.inputs|
    && n.inputs[k] in d.buffers
    && (if b in cons then
          && 0 <= cons[b].0 < |fwd| && 0 <= cons[b].1 < |d.nodes[InvNode(fwd, cons[b].0)].outputs|
          && n.inputs[k] == d.nodes[InvNode(fwd, cons[b].0)].outputs[cons[b].1]
        else
          && b in po
          && d.buffers[n.inputs[k]] ==
              NewBuffer(po[b].size, InvTag(b), -1, 0, [InvNode(fwd, i)], true).(ptr := po[b].ptr, isAllocated := true))
  }

  ghost predicate StageRight(fwd: seq<FwdStage>, po: map<int, Segment>, d: Dag, i: int, count: int)
    requires |d.nodes| == |fwd| && 0 <= i < |fwd| && 0 <= count <= |fwd[i].outputs|
  {
    && |d.nodes[InvNode(fwd, i)].inputs| == count
    && (forall k :: 0 <= k < count ==> InputRight(fwd, po, d, i, k))
  }

  /** Dependencies of an inverse node stand for later forward stages, that is, smaller ids. */
  ghost predicate DepsRight(fwd: seq<FwdStage>, d: Dag)
    requires |d.nodes| == |fwd|
  {
    forall i, p :: IsNode(d, i) && p in d.nodes[i].deps ==> 0 <= p < i
  }

  /** Forward stages before `i` are fully wired, stage `i` up to `k`, later ones not at all. */
  ghost predicate WiredUpTo(fwd: seq<FwdStage>, info: StageInfo, po: map<int, Segment>, d: Dag, i: int, k: int)
    requires 0 <= i <= |fwd|
  {
    && Skeleton(fwd, info, d) && DepsRight(fwd, d)
    && (forall x :: 0 <= x < i ==> StageRight(fwd, po, d, x, |fwd[x].outputs|))
    && (i < |fwd| ==> 0 <= k <= |fwd[i].outputs| && StageRight(fwd, po, d, i, k))
    && (forall x :: i < x < |fwd| ==> StageRight(fwd, po, d, x, 0))
  }

  /** Every buffer is produced by an earlier stage than any that reads it. */
  ghost predicate Topological(fwd: seq<FwdStage>) {
    forall i, j, k, m :: 0 <= i < |fwd| && 0 <= k < |fwd[i].outputs| && Reads(fwd, j, m, fwd[i].outputs[k]) ==> i < j
  }

  lemma {:induction false} AddPortsFacts(d: Dag, i: int, info: StageInfo, s: int, size: nat, k: nat)
    requires Growing(d) && IsNode(d, i) && k <= info.numOutputs(s) && |d.nodes[i].outputs| == k
    requires forall x :: x in d.nodes[i].ports <==> 0 <= x < k
    requires forall x :: 0 <= x < k ==>
      d.nodes[i].ports[x] == d.nodes[i].outputs[x] && d.nodes[i].outputs[x] in d.buffers
      && !d.buffers[d.nodes[i].outputs[x]].isExternal
    ensures var e, count := AddPorts(d, i, info, s, size, k), info.numOutputs(s);
      && Growing(e) && |e.nodes| == |d.nodes|
      && (forall x :: IsNode(d, x) && x != i ==> e.nodes[x] == d.nodes[x])
      && (forall b :: b in d.buffers ==> b in e.buffers && e.buffers[b] == d.buffers[b])
      && e.nodes[i].stage == d.nodes[i].stage && e.nodes[i].inputs == d.nodes[i].inputs
      && e.nodes[i].deps == d.nodes[i].deps
      && e.nodes[i].level == d.nodes[i].level && |e.nodes[i].outputs| == count
      && (forall x :: x in e.nodes[i].ports <==> 0 <= x < count)
      && (forall x :: 0 <= x < count ==>
            e.nodes[i].ports[x] == e.nodes[i].outputs[x] && e.nodes[i].outputs[x] in e.buffers
            && !e.buffers[e.nodes[i].outputs[x]].isExternal)
    decreases info.numOutputs(s) - k
  {
    if k < info.numOutputs(s) {
      OutputKeepsGrowing(d, i, size, k, PortTag(info, s, k));
      AddPortsFacts(WithOutput(d, i, size, k, PortTag(info, s, k)), i, info, s, size, k + 1);
    }
  }

  /** After step 1 every stage has its node, in reverse, with all its ports and nothing wired. */
  lemma {:induction false} AddStagesFacts(fwd: seq<FwdStage>, info: StageInfo, hint: nat, from: nat)
    requires from <= |fwd|
    ensures var d := AddStages(fwd, info, hint, from);
      && |d.nodes| == |fwd| - from && Growing(d)
      && (forall i :: from <= i < |fwd| ==>
            var n := d.nodes[InvNode(fwd, i)];
            && n.stage == fwd[i].stage && |n.outputs| == info.numOutputs(n.stage) && n.level == -1 && n.inputs == []
            && n.deps == []
            && (forall k :: k in n.ports <==> 0 <= k < |n.outputs|)
            && (forall k :: 0 <= k < |n.outputs| ==>
                  n.ports[k] == n.outputs[k] && n.outputs[k] in d.buffers && !d.buffers[n.outputs[k]].isExternal))
    decreases |fwd| - from
  {
    if from < |fwd| {
      AddStagesFacts(fwd, info, hint, from + 1);
      var d := AddStages(fwd, info, hint, from + 1);
      var s := fwd[from].stage;
      StageKeepsGrowing(d, s, info.name(s));
      AddPortsFacts(WithStage(d, s, info.name(s)), |d.nodes|, info, s, hint, 0);
    }
  }

  // ---- wiring keeps the picture, and succeeds exactly when it can ----

  /** Output `k` of stage `i` has a source in the inverse DAG. */
  ghost predicate Wirable(fwd: seq<FwdStage>, info: StageInfo, po: map<int, Segment>, i: int, k: int)
    requires 0 <= i < |fwd| && 0 <= k < |fwd[i].outputs|
  {
    var b, cons := fwd[i].outputs[k], Consumers(fwd, |fwd|);
    if b in cons then 0 <= cons[b].0 < |fwd| && cons[b].1 < info.numOutputs(fwd[cons[b].0].stage) else b in po
  }

  lemma SkeletonKept(fwd: seq<FwdStage>, info: StageInfo, d: Dag, e: Dag)
    requires Skeleton(fwd, info, d) && Growing(e) && Extends(d, e)
    ensures Skeleton(fwd, info, e)
  {
    forall i | 0 <= i < |fwd| ensures NodeFor(fwd, info, e, i) {
      assert NodeFor(fwd, info, d, i) && NodeExtends(d.nodes[InvNode(fwd, i)], e.nodes[InvNode(fwd, i)]);
    }
  }

  lemma InputRightKept(fwd: seq<FwdStage>, po: map<int, Segment>, d: Dag, e: Dag, i: int, k: int)
    requires |d.nodes| == |fwd| && Extends(d, e) && 0 <= i < |fwd| && 0 <= k < |fwd[i].outputs|
    requires InputRight(fwd, po, d, i, k)
    ensures InputRight(fwd, po, e, i, k)
  {
    var b, cons := fwd[i].outputs[k], Consumers(fwd, |fwd|);
    assert NodeExtends(d.nodes[InvNode(fwd, i)], e.nodes[InvNode(fwd, i)]);
    if b in cons {
      assert NodeExtends(d.nodes[InvNode(fwd, cons[b].0)], e.nodes[InvNode(fwd, cons[b].0)]);
    }
    var x := d.nodes[InvNode(fwd, i)].inputs[k];
    assert e.nodes[InvNode(fwd, i)].inputs[k] == x && BufferExtends(d.buffers[x], e.buffers[x]);
  }

  lemma WireOneKeeps(fwd: seq<FwdStage>, info: StageInfo, po: map<int, Segment>, d: Dag, i: nat, k: nat)
    requires i < |fwd| && k < |fwd[i].outputs| && Topological(fwd) && WiredUpTo(fwd, info, po, d, i, k)
    ensures var r := WireOne(fwd, po, d, i, k);
      && (r.Ok? <==> Wirable(fwd, info, po, i, k))
      && (r.Ok? ==> WiredUpTo(fwd, info, po, r.value, i, k + 1))
  {
    var b, cons, c := fwd[i].outputs[k], Consumers(fwd, |fwd|), InvNode(fwd, i);
    var r := WireOne(fwd, po, d, i, k);
    ConsumersFacts(fwd, |fwd|, b);
    if b in cons {
      var p := InvNode(fwd, cons[b].0);
      assert NodeFor(fwd, info, d, cons[b].0);
      assert Reads(fwd, cons[b].0, cons[b].1, fwd[i].outputs[k]);
      if r.Ok? {
        ConnectKeepsGrowing(d, p, c, cons[b].1);
        ConnectExtends(d, p, c, cons[b].1);
        assert r.value.nodes[c].inputs == d.nodes[c].inputs + [d.nodes[p].outputs[cons[b].1]];
      }
    } else if r.Ok? {
      InjectKeepsGrowing(d, c, po[b].size, InvTag(b), po[b].ptr);
      InjectExtends(d, c, po[b].size, InvTag(b), po[b].ptr);
    }
    if r.Ok? {
      OneMoreInput(fwd, info, po, d, r.value, i, k);
    }
  }

  lemma OneMoreInput(fwd: seq<FwdStage>, info: StageInfo, po: map<int, Segment>, d: Dag, e: Dag, i: nat, k: nat)
    requires i < |fwd| && k < |fwd[i].outputs| && WiredUpTo(fwd, info, po, d, i, k)
    requires Growing(e) && Extends(d, e)
    requires forall x :: IsNode(d, x) && x != InvNode(fwd, i) ==>
      e.nodes[x].inputs == d.nodes[x].inputs && e.nodes[x].deps == d.nodes[x].deps
    requires |e.nodes[InvNode(fwd, i)].inputs| == k + 1 && InputRight(fwd, po, e, i, k)
    requires forall p :: p in e.nodes[InvNode(fwd, i)].deps ==> 0 <= p < InvNode(fwd, i)
    ensures WiredUpTo(fwd, info, po, e, i, k + 1)
  {
    SkeletonKept(fwd, info, d, e);
    forall x, y | 0 <= x < |fwd| && 0 <= y < |fwd[x].outputs| && InputRight(fwd, po, d, x, y)
      ensures InputRight(fwd, po, e, x, y)
    {
      InputRightKept(fwd, po, d, e, x, y);
    }
    forall x | 0 <= x < i ensures StageRight(fwd, po, e, x, |fwd[x].outputs|) {
      assert StageRight(fwd, po, d, x, |fwd[x].outputs|);
    }
    assert StageRight(fwd, po, d, i, k);
    forall x | i < x < |fwd| ensures StageRight(fwd, po, e, x, 0) {
      assert StageRight(fwd, po, d, x, 0);
    }
  }

  ghost predicate FirstWirable(fwd: seq<FwdStage>, info: StageInfo, po: map<int, Segment>, i: int, count: int)
    requires 0 <= i < |fwd| && 0 <= count <= |fwd[i].outputs|
  {
    forall y :: 0 <= y < count ==> Wirable(fwd, info, po, i, y)
  }

  /** Wiring the first `k` inputs of a stage succeeds exactly when each has a source. */
  ghost predicate StageOutcome(fwd: seq<FwdStage>, info: StageInfo, po: map<int, Segment>, r: Result<Dag>, i: int,
                               k: int)
    requires 0 <= i < |fwd| && 0 <= k <= |fwd[i].outputs|
  {
    if r.Ok? then FirstWirable(fwd, info, po, i, k) && WiredUpTo(fwd, info, po, r.value, i, k)
      else !FirstWirable(fwd, info, po, i, k)
  }

  lemma {:induction false} WireStageKeeps(fwd: seq<FwdStage>, info: StageInfo, po: map<int, Segment>, d: Dag, i: nat,
                                          k: nat)
    requires i < |fwd| && k <= |fwd[i].outputs| && Topological(fwd) && WiredUpTo(fwd, info, po, d, i, 0)
    ensures StageOutcome(fwd, info, po, WireStage(fwd, po, d, i, k), i, k)
    decreases k
  {
    if k > 0 {
      var last := k - 1;
      WireStageKeeps(fwd, info, po, d, i, last);
      var r := WireStage(fwd, po, d, i, last);
      assert WireStage(fwd, po, d, i, k) == if r.Err? then r else WireOne(fwd, po, r.value, i, last);
      if r.Ok? {
        NextOutcome(fwd, info, po, r.value, i, last, k);
      } else {
        var y :| 0 <= y < last && !Wirable(fwd, info, po, i, y);
        assert !FirstWirable(fwd, info, po, i, k);
      }
    }
  }

  lemma NextOutcome(fwd: seq<FwdStage>, info: StageInfo, po: map<int, Segment>, d: Dag, i: nat, k: nat, next: nat)
    requires i < |fwd| && k < |fwd[i].outputs| && next == k + 1 && Topological(fwd) && WiredUpTo(fwd, info, po, d, i, k)
    requires FirstWirable(fwd, info, po, i, k)
    ensures StageOutcome(fwd, info, po, WireOne(fwd, po, d, i, k), i, next)
  {
    WireOneKeeps(fwd, info, po, d, i, k);
    assert FirstWirable(fwd, info, po, i, next) <==> Wirable(fwd, info, po, i, k);
  }

  ghost predicate AllWirable(fwd: seq<FwdStage>, info: StageInfo, po: map<int, Segment>, count: int)
    requires 0 <= count <= |fwd|
  {
    forall i, k :: 0 <= i < count && 0 <= k < |fwd[i].outputs| ==> Wirable(fwd, info, po, i, k)
  }

  lemma {:induction false} WireAllKeeps(fwd: seq<FwdStage>, info: StageInfo, po: map<int, Segment>, d: Dag, i: nat)
    requires i <= |fwd| && Topological(fwd) && WiredUpTo(fwd, info, po, d, 0, 0)
    ensures WiredOrRefused(fwd, info, po, WireAll(fwd, po, d, i), i)
    decreases i
  {
    if i > 0 {
      var last := i - 1;
      WireAllKeeps(fwd, info, po, d, last);
      var r := WireAll(fwd, po, d, last);
      if r.Ok? {
        WireStageKeeps(fwd, info, po, r.value, last, |fwd[last].outputs|);
        StageBoundary(fwd, info, po, WireAll(fwd, po, d, i), last, i);
      }
    }
  }

  ghost predicate WiredOrRefused(fwd: seq<FwdStage>, info: StageInfo, po: map<int, Segment>, r: Result<Dag>, i: int)
    requires 0 <= i <= |fwd|
  {
    if r.Ok? then AllWirable(fwd, info, po, i) && WiredUpTo(fwd, info, po, r.value, i, 0)
      else !AllWirable(fwd, info, po, i)
  }

  lemma StageBoundary(fwd: seq<FwdStage>, info: StageInfo, po: map<int, Segment>, r: Result<Dag>, i: int, next: int)
    requires 0 <= i < |fwd| && next == i + 1 && AllWirable(fwd, info, po, i)
    requires StageOutcome(fwd, info, po, r, i, |fwd[i].outputs|)
    ensures WiredOrRefused(fwd, info, po, r, next)
  {
  }

  /** Steps 1 and 2: the wiring of the inverse DAG, before results are marked. */
  function Wiring(fwd: seq<FwdStage>, info: StageInfo, po: map<int, Segment>, hint: nat): (r: Result<Dag>)
    ensures r.Ok? ==> |r.value.nodes| == |fwd|
  {
    AddStagesFacts(fwd, info, hint, 0);
    WireAll(fwd, po, AddStages(fwd, info, hint, 0), |fwd|)
  }

  /**
   * The builder finds a source for every inverse input exactly when every consumed buffer's last
   * reader has that input as an inverse output and every other buffer is a pipeline output; then
   * inverse input k of every stage carries forward output k.
   */
  lemma WiringIsTotalIff(fwd: seq<FwdStage>, info: StageInfo, po: map<int, Segment>, hint: nat)
    requires Topological(fwd)
    ensures var r := Wiring(fwd, info, po, hint);
      && (r.Ok? <==> AllWirable(fwd, info, po, |fwd|))
      && (r.Ok? ==> WiredUpTo(fwd, info, po, r.value, |fwd|, 0))
  {
    AddStagesFacts(fwd, info, hint, 0);
    NothingWiredYet(fwd, info, po, hint);
    WireAllKeeps(fwd, info, po, AddStages(fwd, info, hint, 0), |fwd|);
  }

  lemma {:induction false} PortsAtPlannedSizes(d: Dag, i: int, info: StageInfo, s: int, size: nat, k: nat)
    requires AtPlannedSizes(d) && 0 <= i < |d.nodes|
    ensures AtPlannedSizes(AddPorts(d, i, info, s, size, k))
    decreases info.numOutputs(s) - k
  {
    if k < info.numOutputs(s) {
      PortsAtPlannedSizes(WithOutput(d, i, size, k, PortTag(info, s, k)), i, info, s, size, k + 1);
    }
  }

  lemma {:induction false} StagesAtPlannedSizes(fwd: seq<FwdStage>, info: StageInfo, hint: nat, from: nat)
    requires from <= |fwd|
    ensures AtPlannedSizes(AddStages(fwd, info, hint, from))
    decreases |fwd| - from
  {
    if from < |fwd| {
      StagesAtPlannedSizes(fwd, info, hint, from + 1);
      var d, s := AddStages(fwd, info, hint, from + 1), fwd[from].stage;
      PortsAtPlannedSizes(WithStage(d, s, info.name(s)), |d.nodes|, info, s, hint, 0);
    }
  }

  lemma {:induction false} WiredAtPlannedSizes(fwd: seq<FwdStage>, po: map<int, Segment>, d: Dag, i: nat, k: nat)
    requires i < |fwd| && k <= |fwd[i].outputs| && |d.nodes| == |fwd| && AtPlannedSizes(d)
    ensures WireStage(fwd, po, d, i, k).Ok? ==> AtPlannedSizes(WireStage(fwd, po, d, i, k).value)
    decreases k
  {
    if k > 0 {
      WiredAtPlannedSizes(fwd, po, d, i, k - 1);
    }
  }

  lemma {:induction false} AllWiredAtPlannedSizes(fwd: seq<FwdStage>, po: map<int, Segment>, d: Dag, i: nat)
    requires i <= |fwd| && |d.nodes| == |fwd| && AtPlannedSizes(d)
    ensures WireAll(fwd, po, d, i).Ok? ==> AtPlannedSizes(WireAll(fwd, po, d, i).value)
    decreases i
  {
    if i > 0 {
      var last := i - 1;
      AllWiredAtPlannedSizes(fwd, po, d, last);
      if WireAll(fwd, po, d, last).Ok? {
        WiredAtPlannedSizes(fwd, po, WireAll(fwd, po, d, last).value, last, |fwd[last].outputs|);
      }
    }
  }

  /** A fresh wiring has every buffer at its planned size. */
  lemma WiringAtPlannedSizes(fwd: seq<FwdStage>, info: StageInfo, po: map<int, Segment>, hint: nat)
    ensures Wiring(fwd, info, po, hint).Ok? ==> AtPlannedSizes(Wiring(fwd, info, po, hint).value)
  {
    AddStagesFacts(fwd, info, hint, 0);
    StagesAtPlannedSizes(fwd, info, hint, 0);
    AllWiredAtPlannedSizes(fwd, po, AddStages(fwd, info, hint, 0), |fwd|);
  }

  lemma NothingWiredYet(fwd: seq<FwdStage>, info: StageInfo, po: map<int, Segment>, hint: nat)
    ensures WiredUpTo(fwd, info, po, AddStages(fwd, info, hint, 0), 0, 0)
  {
    AddStagesFacts(fwd, info, hint, 0);
    var d := AddStages(fwd, info, hint, 0);
    forall i | 0 <= i < |fwd| ensures NodeFor(fwd, info, d, i) && StageRight(fwd, po, d, i, 0) {
      var n := d.nodes[InvNode(fwd, i)];
    }
    forall x | IsNode(d, x) ensures d.nodes[x].deps == [] {
      var i := |fwd| - 1 - x;
      assert InvNode(fwd, i) == x;
    }
  }

  // ---- running it ----

  lemma FinalizedIsSound(fwd: seq<FwdStage>, info: StageInfo, po: map<int, Segment>, d: Dag)
    requires WiredUpTo(fwd, info, po, d, |fwd|, 0)
    ensures ValidDeps(DepsOf(d)) && Sound(Finalized(d))
  {
    var deps := DepsOf(d);
    forall i, k | 0 <= i < |deps| && 0 <= k < |deps[i]| ensures 0 <= deps[i][k] < i {
      assert deps[i][k] in d.nodes[i].deps;
    }
    TopologicalInsertionClimbs(deps);
    FinalizedSoundIff(d, Finalized(d));
  }

  /** `val` is a forward run: every output is what its stage computes from the stage's inputs. */
  ghost predicate ForwardRun(fwd: seq<FwdStage>, sem: StageSem, val: int -> Value) {
    forall i, k :: 0 <= i < |fwd| && 0 <= k < |fwd[i].outputs| ==>
      val(fwd[i].outputs[k]) == sem(fwd[i].stage, ValuesIn(fwd[i].inputs, val), k)
  }

  ghost function ValuesIn(bufs: seq<int>, val: int -> Value): (r: seq<Value>)
    ensures |r| == |bufs| && forall i :: 0 <= i < |r| ==> r[i] == val(bufs[i])
  {
    seq(|bufs|, i requires 0 <= i < |bufs| => val(bufs[i]))
  }

  /** In inverse mode each stage has one output per forward input, and gives back its inputs. */
  ghost predicate Undone(fwd: seq<FwdStage>, info: StageInfo, sem: StageSem, inv: StageSem) {
    forall i :: 0 <= i < |fwd| ==> UndoneAt(fwd[i], info, sem, inv)
  }

  ghost predicate UndoneAt(s: FwdStage, info: StageInfo, sem: StageSem, inv: StageSem) {
    && info.numOutputs(s.stage) == |s.inputs|
    && forall ins: seq<Value>, j :: |ins| == |s.inputs| && 0 <= j < |ins| ==>
         inv(s.stage, Outputs(s, sem, ins), j) == ins[j]
  }

  ghost function Outputs(s: FwdStage, sem: StageSem, ins: seq<Value>): (r: seq<Value>)
    ensures |r| == |s.outputs| && forall k :: 0 <= k < |r| ==> r[k] == sem(s.stage, ins, k)
  {
    seq(|s.outputs|, k requires 0 <= k < |s.outputs| => sem(s.stage, ins, k))
  }

  /** Every injected buffer holds the forward value of the buffer it is injected for. */
  ghost predicate Delivered(fwd: seq<FwdStage>, d: Dag, ext: int -> Value, val: int -> Value)
    requires |d.nodes| == |fwd|
  {
    forall i, k :: 0 <= i < |fwd| && 0 <= k < |fwd[i].outputs| && IsInjected(fwd, d, i, k)
      ==> ext(d.nodes[InvNode(fwd, i)].inputs[k]) == val(fwd[i].outputs[k])
  }

  /** Output `k` of stage `i` is read by no forward stage, so its inverse input is an external one. */
  ghost predicate IsInjected(fwd: seq<FwdStage>, d: Dag, i: int, k: int)
    requires |d.nodes| == |fwd| && 0 <= i < |fwd| && 0 <= k < |fwd[i].outputs|
  {
    k < |d.nodes[InvNode(fwd, i)].inputs| && fwd[i].outputs[k] !in Consumers(fwd, |fwd|)
  }

  /**
   * Every inverse output port holds the forward value of the matching forward input, by induction
   * from the last forward stage to the first; fan-out included, where only the last reader of a
   * buffer hands it back.
   */
  lemma {:induction false} InverseRestores(fwd: seq<FwdStage>, info: StageInfo, po: map<int, Segment>, d: Dag,
                         sem: StageSem, inv: StageSem, val: int -> Value, ext: int -> Value, i: int, j: int)
    requires Topological(fwd) && WiredUpTo(fwd, info, po, d, |fwd|, 0)
    requires ValidDeps(DepsOf(d)) && Sound(Finalized(d))
    requires ForwardRun(fwd, sem, val) && Undone(fwd, info, sem, inv) && Delivered(fwd, d, ext, val)
    requires 0 <= i < |fwd| && 0 <= j < |fwd[i].inputs|
    ensures j < |d.nodes[InvNode(fwd, i)].outputs| && Readable(Finalized(d), d.nodes[InvNode(fwd, i)].outputs[j])
    ensures ValueOf(Finalized(d), inv, ext, d.nodes[InvNode(fwd, i)].outputs[j]) == val(fwd[i].inputs[j])
    decreases |fwd| - i
  {
    var e, n := Finalized(d), InvNode(fwd, i);
    assert NodeFor(fwd, info, d, i) && UndoneAt(fwd[i], info, sem, inv) && StageRight(fwd, po, d, i, |fwd[i].outputs|);
    var got := InputValues(e, inv, ext, n);
    var ins := ValuesIn(fwd[i].inputs, val);
    forall k | 0 <= k < |fwd[i].outputs| ensures got[k] == Outputs(fwd[i], sem, ins)[k] {
      var b, cons := fwd[i].outputs[k], Consumers(fwd, |fwd|);
      assert InputRight(fwd, po, d, i, k);
      ConsumersFacts(fwd, |fwd|, b);
      if b in cons {
        assert Reads(fwd, cons[b].0, cons[b].1, fwd[i].outputs[k]);
        InverseRestores(fwd, info, po, d, sem, inv, val, ext, cons[b].0, cons[b].1);
      }
    }
    assert got == Outputs(fwd[i], sem, ins);
    assert Made(e, n, j, e.nodes[n].outputs[j]);
  }
}
