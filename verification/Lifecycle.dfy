/**
 * compress(), prepareInverse() and decompressCore() as one object over any sequence of calls, with a
 * failure allowed at every throwing step (src/pipeline/compressor_exec.cpp:62-300 and 326-580).
 */
module Lifecycle {
  import opened Values
  import opened Arithmetic
  import opened Padding
  import opened Concat
  import opened InverseDag

  /** What saveState() saves and a run in inverse mode may overwrite. */
  type Config = seq<Byte>

  class Stage {
    var inverse: bool
    var config: Config
    var saved: Config

    constructor (c: Config)
      ensures !inverse && config == c && saved == c
    {
      inverse, config, saved := false, c, c;
    }
  }

  datatype BufferMetadata = BufferMetadata(buffer: int, planned: nat, actual: nat)

  const NO_SOURCES := "pipeline has no source stage(s)"
  const TOO_LARGE := "input exceeds the finalize-time buffer size hint"
  const NO_PAD_BUFFER := "pool exhausted: pad buffer"
  const NO_ESTIMATE := "estimateOutputSizes"
  const RUN_FAILED := "rethrown after clean-up"

  /** Where a call throws, if it does; `AtEntry` stands for metadata entry `i`. */
  datatype Fault = NoFault | AtEstimate | AtRun | AtEntry(i: nat) | AtConcat

  datatype InverseFault = Clean | AtResolve | AtBuild | AtAllocate | AtExecute | AtSync

  ghost predicate DistinctObjects(stages: seq<Stage>) {
    forall i, j :: 0 <= i < j < |stages| ==> stages[i] != stages[j]
  }

  /** One entry per pipeline output, in order. */
  ghost predicate Describes(metadata: seq<BufferMetadata>, outputs: seq<int>) {
    |metadata| == |outputs| && forall i :: 0 <= i < |outputs| ==> metadata[i].buffer == outputs[i]
  }

  /** The loop before a decompression: remember the configuration, switch to inverse mode. */
  method SaveAndInvert(stages: seq<Stage>)
    requires DistinctObjects(stages)
    modifies stages
    ensures forall i :: 0 <= i < |stages| ==>
      stages[i].inverse && stages[i].saved == old(stages[i].config) && stages[i].config == old(stages[i].config)
  {
    for k := 0 to |stages|
      invariant forall i :: 0 <= i < k ==> stages[i].inverse && stages[i].saved == old(stages[i].config)
      invariant forall i :: 0 <= i < |stages| ==> stages[i].config == old(stages[i].config)
    {
      stages[k].saved := stages[k].config;
      stages[k].inverse := true;
    }
  }

  /** Running the inverse DAG may leave any configuration behind. */
  method Scramble(stages: seq<Stage>, left: seq<Config>)
    requires DistinctObjects(stages)
    modifies stages
    ensures forall i :: 0 <= i < |stages| ==>
      stages[i].inverse == old(stages[i].inverse) && stages[i].saved == old(stages[i].saved)
  {
    for k := 0 to |stages|
      invariant forall i :: 0 <= i < |stages| ==>
        stages[i].inverse == old(stages[i].inverse) && stages[i].saved == old(stages[i].saved)
    {
      if k < |left| {
        stages[k].config := left[k];
      }
    }
  }

  /** The scope guard. */
  method RestoreAll(stages: seq<Stage>)
    requires DistinctObjects(stages)
    modifies stages
    ensures forall i :: 0 <= i < |stages| ==> !stages[i].inverse && stages[i].config == old(stages[i].saved)
  {
    for k := 0 to |stages|
      invariant forall i :: 0 <= i < k ==> !stages[i].inverse && stages[i].config == old(stages[i].saved)
      invariant forall i :: 0 <= i < |stages| ==> stages[i].saved == old(stages[i].saved)
    {
      stages[k].inverse := false;
      stages[k].config := stages[k].saved;
    }
  }

  /** Entries for outputs before the one that throws. */
  method CollectMetadata(outputs: seq<int>, planned: int -> nat, produced: int -> nat, fault: Fault)
    returns (ok: bool, metadata: seq<BufferMetadata>)
    ensures ok <==> !(fault.AtEntry? && fault.i < |outputs|)
    ensures ok ==> |metadata| == |outputs| && forall i :: 0 <= i < |outputs| ==>
      metadata[i] == BufferMetadata(outputs[i], planned(outputs[i]), produced(outputs[i]))
  {
    metadata := [];
    for i := 0 to |outputs|
      invariant |metadata| == i && !(fault.AtEntry? && fault.i < i)
      invariant forall k :: 0 <= k < i ==>
        metadata[k] == BufferMetadata(outputs[k], planned(outputs[k]), produced(outputs[k]))
    {
      if fault == AtEntry(i) {
        return false, metadata;
      }
      metadata := metadata + [BufferMetadata(outputs[i], planned(outputs[i]), produced(outputs[i]))];
    }
    ok := true;
  }

  class Pipeline {
    const outputs: seq<int>
    const stages: seq<Stage>
    const stager: InputStager
    /** How many source stages read the input. */
    const sources: nat
    var metadata: seq<BufferMetadata>
    var wasCompressed: bool
    var inputSize: nat
    var sourceSizes: seq<nat>

    predicate NeedsConcat() {
      |outputs| > 1
    }

    /**
     * Between calls: no metadata or exactly one entry per output, with one size recorded for all
     * sources; every stage in forward mode.
     */
    ghost predicate Valid()
      reads this, stages
    {
      && |outputs| > 0 && (metadata == [] || Describes(metadata, outputs))
      && (metadata != [] ==> forall k :: 0 <= k < |sourceSizes| ==> sourceSizes[k] == inputSize)
      && DistinctObjects(stages) && forall i :: 0 <= i < |stages| ==> !stages[i].inverse
    }

    constructor (outs: seq<int>, all: seq<Stage>, inputs: InputStager, sourceCount: nat)
      requires |outs| > 0 && DistinctObjects(all) && forall i :: 0 <= i < |all| ==> !all[i].inverse
      ensures Valid() && outputs == outs && stages == all && stager == inputs && sources == sourceCount
      ensures metadata == []
    {
      outputs, stages, stager, sources, metadata := outs, all, inputs, sourceCount, [];
      wasCompressed, inputSize, sourceSizes := false, 0, [];
    }

    // ---- compression ----

    /** compress() accepts an input of `n` bytes. */
    predicate Admits(n: nat)
      reads stager
    {
      sources > 0 && (stager.hint == 0 || n <= stager.hint)
    }

    /** The input has to be copied into a larger pad buffer, and the pool does not give one. */
    predicate LacksPad(n: nat, granted: bool)
      reads stager
    {
      Admits(n) && !granted && stager.NeedsLargerPad(n)
    }

    /** Sizes are estimated again, which happens without a hint only, and a stage's estimate throws. */
    predicate EstimateThrows(n: nat, granted: bool, fault: Fault)
      reads stager
    {
      Admits(n) && !LacksPad(n, granted) && stager.hint == 0 && fault.AtEstimate?
    }

    /** The guarded part throws: the run, the entry of some output, or the archive if one is written. */
    predicate RunThrows(fault: Fault) {
      fault.AtRun? || (fault.AtEntry? && fault.i < |outputs|) || (fault.AtConcat? && NeedsConcat())
    }

    /** Whether compress() fails is settled before the call. */
    predicate Fails(n: nat, granted: bool, fault: Fault)
      reads stager
    {
      !Admits(n) || LacksPad(n, granted) || EstimateThrows(n, granted, fault) || RunThrows(fault)
    }

    /** No step before the run throws. */
    predicate ReachesRun(n: nat, granted: bool, fault: Fault)
      reads stager
    {
      Admits(n) && !LacksPad(n, granted) && !EstimateThrows(n, granted, fault)
    }

    /** The sizes and the trim are those of an input of `n` bytes, padded to the least length the stages accept. */
    ghost predicate Staged(n: nat)
      reads this, stager
    {
      && LeastSuiting(stager.reqs, n, inputSize) && Reported(stager.original, inputSize) == n
      && stager.original == TrimFor(stager.reqs, n) && |sourceSizes| == sources
      && forall k :: 0 <= k < sources ==> sourceSizes[k] == inputSize
    }

    /** compress() on a finalized pipeline; where it fails decides what it leaves behind. */
    method Compress(input: seq<Byte>, granted: bool, planned: int -> nat, produced: int -> nat, fault: Fault)
      returns (r: Result<nat>)
      requires Valid() && stager.Valid() && |input| + stager.alignment <= TWO_TO_THE_64
      requires stager.alignment < TWO_TO_THE_64
      modifies this, stager`padBuf, stager`original, stager.padBuf
      ensures Valid() && stager.Valid()
      ensures r.Ok? ==> Describes(metadata, outputs) && inputSize == r.value
      ensures r.Ok? ==> forall i :: 0 <= i < |outputs| ==> metadata[i].actual == produced(outputs[i])
      ensures r.Ok? ==> Staged(|input|)
      ensures r.Err? ==> r.message in {NO_SOURCES, TOO_LARGE, NO_PAD_BUFFER, NO_ESTIMATE, RUN_FAILED}
      ensures r.Err? <==> old(Fails(|input|, granted, fault))
      ensures r == Err(NO_SOURCES) <==> sources == 0
      ensures r == Err(TOO_LARGE) <==> sources > 0 && stager.hint > 0 && |input| > stager.hint
      ensures r == Err(NO_PAD_BUFFER) <==> old(LacksPad(|input|, granted))
      ensures r == Err(NO_ESTIMATE) <==> old(EstimateThrows(|input|, granted, fault))
      ensures r.Err? ==> metadata == if r.message == RUN_FAILED then [] else old(metadata)
      ensures r.Err? && r.message in {NO_SOURCES, TOO_LARGE, NO_PAD_BUFFER} ==>
        inputSize == old(inputSize) && sourceSizes == old(sourceSizes)
      ensures r.Err? && r.message in {NO_SOURCES, TOO_LARGE} ==>
        stager.original == old(stager.original) && stager.padBuf == old(stager.padBuf)
      ensures r == Err(NO_PAD_BUFFER) ==> stager.original == 0 && stager.padBuf.Length == 0
      ensures r == Err(NO_ESTIMATE) ==> Staged(|input|)
      ensures r.Ok? ==> stager.padBuf.Length == old(stager.CapacityFor(|input|))
      ensures stager.padBuf == old(stager.padBuf) || fresh(stager.padBuf)
      ensures old(stager.Preallocated()) && stager.hint > 0 ==> r != Err(NO_PAD_BUFFER)
    {
      if sources == 0 {
        return Err(NO_SOURCES);
      }
      wasCompressed := false;
      if stager.hint > 0 && |input| > stager.hint {
        return Err(TOO_LARGE);
      }
      r := StageInput(input, granted);
      if r.Err? {
        return;
      }
      if stager.hint == 0 && fault.AtEstimate? {
        return Err(NO_ESTIMATE);
      }
      r := RunStages(planned, produced, fault);
    }

    /** The padded input is what the sources read. */
    method StageInput(input: seq<Byte>, granted: bool) returns (r: Result<nat>)
      requires stager.Valid() && |input| + stager.alignment <= TWO_TO_THE_64
      requires stager.alignment < TWO_TO_THE_64
      modifies this`inputSize, this`sourceSizes, stager`padBuf, stager`original, stager.padBuf
      ensures r == if old(!granted && stager.NeedsLargerPad(|input|)) then Err(NO_PAD_BUFFER) else Ok(inputSize)
      ensures r.Ok? ==> Staged(|input|)
      ensures r.Err? ==> inputSize == old(inputSize) && sourceSizes == old(sourceSizes)
      ensures r.Err? ==> stager.original == 0 && stager.padBuf.Length == 0
      ensures r.Ok? ==> stager.padBuf.Length == old(stager.CapacityFor(|input|))
      ensures old(stager.Preallocated()) && stager.hint > 0 && |input| <= stager.hint ==> r.Ok?
      ensures stager.padBuf == old(stager.padBuf) || fresh(stager.padBuf)
    {
      var source := stager.PrepareInputSource(input, granted);
      if source.None? {
        return Err(NO_PAD_BUFFER);
      }
      sourceSizes := seq(sources, _ => |source.value|);
      inputSize := |source.value|;
      r := Ok(inputSize);
    }

    /** The try block and its handler. */
    method RunStages(planned: int -> nat, produced: int -> nat, fault: Fault) returns (r: Result<nat>)
      requires |outputs| > 0
      modifies this`metadata, this`inputSize, this`wasCompressed
      ensures r.Ok? ==> Describes(metadata, outputs) && r.value == inputSize == old(inputSize)
      ensures r.Ok? ==> forall i :: 0 <= i < |outputs| ==> metadata[i].actual == produced(outputs[i])
      ensures r.Err? ==> metadata == [] && inputSize == 0 && r == Err(RUN_FAILED)
      ensures r.Err? <==> RunThrows(fault)
    {
      metadata := [];
      var collected := false;
      if !fault.AtRun? {
        collected, metadata := CollectMetadata(outputs, planned, produced, fault);
      }
      if !collected || (NeedsConcat() && fault.AtConcat?) {
        metadata := [];
        inputSize := 0;
        return Err(RUN_FAILED);
      }
      wasCompressed := true;
      r := Ok(inputSize);
    }

    /** prepareInverse(): placeholder sizes, and the trim of an earlier compress() stays. */
    method PrepareInverse(uncompressed: nat, planned: int -> nat) returns (r: Result<nat>)
      requires Valid()
      modifies this`metadata, this`sourceSizes, this`inputSize
      ensures Valid() && (r.Ok? <==> uncompressed > 0)
      ensures r.Ok? ==> Describes(metadata, outputs) && inputSize == uncompressed && sourceSizes == [uncompressed]
      ensures r.Err? ==> metadata == old(metadata) && inputSize == old(inputSize)
    {
      if uncompressed == 0 {
        return Err("non-zero uncompressed size required");
      }
      var _, entries := CollectMetadata(outputs, planned, planned, NoFault);
      metadata := entries;
      sourceSizes := [uncompressed];
      inputSize := uncompressed;
      r := Ok(uncompressed);
    }

    /** resolvePrimarySource(): the size recorded for source `primary`, which is the one all calls agree on. */
    method PrimarySize(primary: nat) returns (size: nat)
      requires Valid() && metadata != []
      ensures size == inputSize
    {
      size := if primary < |sourceSizes| && sourceSizes[primary] > 0 then sourceSizes[primary] else inputSize;
    }

    // ---- where the compressed segments are ----

    /** The blob is the only segment, or its header has this pipeline's output count. */
    predicate Accepts(blob: seq<Byte>, behind: nat -> Byte) {
      NeedsConcat() ==> SizesRead(blob, behind, |outputs|).Ok?
    }

    /** resolveDecompressSegmentSizes(); `blob` is None on the live path right after compress(). */
    method ResolveSegmentSizes(blob: Option<seq<Byte>>, behind: nat -> Byte) returns (r: Result<seq<nat>>)
      requires Valid() && metadata != []
      ensures blob.Some? && NeedsConcat() ==> r == SizesRead(blob.value, behind, |outputs|)
      ensures blob.Some? && !NeedsConcat() ==> r == Ok([|blob.value|])
      ensures blob.None? ==> r.Ok? && |r.value| == |metadata| && forall i :: 0 <= i < |metadata| ==>
        r.value[i] == metadata[i].actual
      ensures r.Ok? ==> |r.value| == |outputs|
    {
      if blob.Some? && NeedsConcat() {
        r := ReadConcatSegmentSizes(blob.value, behind, |metadata|);
      } else if blob.Some? {
        var sizes := seq(|metadata|, i => 0);
        sizes := sizes[0 := |blob.value|];
        assert sizes == [|blob.value|];
        r := Ok(sizes);
      } else {
        var sizes: seq<nat> := [];
        for i := 0 to |metadata|
          invariant |sizes| == i && forall k :: 0 <= k < i ==> sizes[k] == metadata[k].actual
        {
          sizes := sizes + [metadata[i].actual];
        }
        r := Ok(sizes);
      }
    }

    /**
     * mapCompressedBufferPointers(): each output's segment, at its place in a blob at `base`, else where the DAG
     * holds it.
     */
    method MapSegments(base: Option<int>, live: int -> int, sizes: seq<nat>) returns (po: map<int, Segment>)
      requires Valid() && metadata != [] && |sizes| == |outputs|
      requires forall i, j :: 0 <= i < j < |outputs| ==> outputs[i] != outputs[j]
      ensures forall b :: b in po <==> b in outputs
      ensures forall i :: 0 <= i < |outputs| ==>
        po[outputs[i]] == SegmentFor(base, live, sizes, NeedsConcat(), outputs[i], i)
    {
      po := map[];
      var offsets, _ := SegmentOffsets(sizes);
      for i := 0 to |outputs|
        invariant forall b :: b in po <==> b in outputs[..i]
        invariant forall k :: 0 <= k < i ==>
          po[outputs[k]] == SegmentFor(base, live, sizes, NeedsConcat(), outputs[k], k)
      {
        var id := metadata[i].buffer;
        var ptr := if base.None? then live(id) else if NeedsConcat() then base.value + offsets[i] else base.value;
        po := po[id := Segment(ptr, sizes[i])];
        assert outputs[..i + 1] == outputs[..i] + [outputs[i]];
      }
    }

    // ---- decompression ----

    /**
     * decompressCore() after its entry checks: whatever step throws and whatever configurations the
     * inverse run leaves in the stages, every exit finds each stage in forward mode with the
     * configuration it had before. `actual` is the size the inverse yields.
     */
    method DecompressCore(blob: Option<seq<Byte>>, behind: nat -> Byte, left: seq<Config>, actual: nat,
                          fault: InverseFault)
      returns (r: Result<nat>)
      requires Valid()
      modifies stages
      ensures Valid() && metadata == old(metadata)
      ensures forall i :: 0 <= i < |stages| ==> !stages[i].inverse && stages[i].config == old(stages[i].config)
      ensures r.Ok? ==> r.value == Reported(stager.original, actual)
      ensures r.Ok? <==>
        fault.Clean? && metadata != [] && (blob.Some? ==> Accepts(blob.value, behind))
    {
      if metadata == [] {
        return Err("compress() or prepareInverse() required first");
      }
      var sizes := ResolveSegmentSizes(blob, behind);
      if sizes.Err? {
        return Err(sizes.message);
      }
      SaveAndInvert(stages);
      r := InverseRun(left, actual, fault);
      RestoreAll(stages);
    }

    /** Everything inside the guarded scope. */
    method InverseRun(left: seq<Config>, actual: nat, fault: InverseFault) returns (r: Result<nat>)
      requires DistinctObjects(stages)
      modifies stages
      ensures forall i :: 0 <= i < |stages| ==> stages[i].saved == old(stages[i].saved)
      ensures r.Ok? <==> fault.Clean?
      ensures r.Ok? ==> r.value == Reported(stager.original, actual)
    {
      if fault.AtResolve? || fault.AtBuild? || fault.AtAllocate? {
        return Err("thrown before the inverse run");
      }
      Scramble(stages, left);
      if fault.AtExecute? || fault.AtSync? {
        return Err("thrown by the inverse run");
      }
      var size := actual;
      if stager.original > 0 && size > stager.original {
        size := stager.original;
      }
      r := Ok(size);
    }
  }

  function SegmentFor(base: Option<int>, live: int -> int, sizes: seq<nat>, concat: bool, id: int, i: int): Segment
    requires 0 <= i < |sizes|
  {
    Segment(if base.None? then live(id) else if concat then base.value + Offset(LayoutOf(sizes), i)
        else base.value, sizes[i])
  }

  // ---- the trim across calls ----

  /** decompress() reports the `actual` bytes in full. */
  predicate Untrimmed(original: nat, actual: nat) {
    original == 0 || actual <= original
  }

  /** Two remembered sizes trim `actual` alike. */
  predicate TrimAlike(a: nat, b: nat, actual: nat) {
    a == b || (Untrimmed(a, actual) && Untrimmed(b, actual))
  }

  /**
   * compress(), then prepareInverse() for another blob, then decompress() of it. When the inverse
   * yields the announced size, that size is reported if and only if the compressed input needed no
   * padding or was at least as long.
   */
  method CompressThenForeignBlob(p: Pipeline, input: seq<Byte>, granted: bool, planned: int -> nat,
                                 produced: int -> nat, announced: nat, blob: seq<Byte>, behind: nat -> Byte,
                                 left: seq<Config>) returns (ok: bool, r: Result<nat>)
    requires p.Valid() && p.stager.Valid() && |input| + p.stager.alignment <= TWO_TO_THE_64
    requires p.stager.alignment < TWO_TO_THE_64
    modifies p, p.stager`padBuf, p.stager`original, p.stager.padBuf, p.stages
    ensures p.Valid()
    ensures ok <==> !old(p.Fails(|input|, granted, NoFault)) && announced > 0
    ensures ok ==> p.inputSize == announced && p.stager.original == TrimFor(p.stager.reqs, |input|)
    ensures ok && r.Ok? ==> (r.value == announced <==> SuitsAll(p.stager.reqs, |input|) || announced <= |input|)
    ensures ok && r.Ok? && r.value != announced ==> r.value == |input|
    ensures ok ==> (r.Ok? <==> p.Accepts(blob, behind))
  {
    r := p.Compress(input, granted, planned, produced, NoFault);
    ok := r.Ok?;
    if ok {
      r := p.PrepareInverse(announced, planned);
      ok := r.Ok?;
      if ok {
        r := p.DecompressCore(Some(blob), behind, left, announced, Clean);
      }
    }
  }

  /** decompress() of an earlier blob reports the same after this call to compress(), which fails, as before it. */
  ghost predicate KeepsReport(p: Pipeline, n: nat, granted: bool, fault: Fault, actual: nat)
    reads p, p.stager
  {
    if !p.Admits(n) then true
    else if p.LacksPad(n, granted) then Untrimmed(p.stager.original, actual)
    else p.EstimateThrows(n, granted, fault) && TrimAlike(p.stager.original, TrimFor(p.stager.reqs, n), actual)
  }

  /**
   * A compress() that fails, then decompress() of the blob the pipeline was ready for. The same size
   * is reported as without the failed call if and only if the call was refused on entry, or the pad
   * buffer was refused and nothing had to be trimmed, or the estimate threw and both inputs trim
   * alike; after any later failure nothing can be decompressed.
   */
  method DecompressAfterFailure(p: Pipeline, input: seq<Byte>, granted: bool, planned: int -> nat,
                                produced: int -> nat, fault: Fault, blob: seq<Byte>, behind: nat -> Byte,
                                left: seq<Config>, actual: nat) returns (failed: Result<nat>, r: Result<nat>)
    requires p.Valid() && p.stager.Valid() && |input| + p.stager.alignment <= TWO_TO_THE_64
    requires p.stager.alignment < TWO_TO_THE_64
    requires p.metadata != [] && p.Accepts(blob, behind)
    modifies p, p.stager`padBuf, p.stager`original, p.stager.padBuf, p.stages
    ensures p.Valid()
    ensures failed.Err? <==> old(p.Fails(|input|, granted, fault))
    ensures failed.Err? ==>
      (r == Ok(Reported(old(p.stager.original), actual)) <==> old(KeepsReport(p, |input|, granted, fault, actual)))
    ensures failed == Err(RUN_FAILED) <==> old(p.ReachesRun(|input|, granted, fault)) && p.RunThrows(fault)
    ensures failed.Err? ==> p.metadata == if failed.message == RUN_FAILED then [] else old(p.metadata)
    ensures failed.Err? ==> (r.Err? <==> failed.message == RUN_FAILED)
    ensures failed.Err? && r.Ok? ==> r.value == Reported(p.stager.original, actual)
    ensures old(p.LacksPad(|input|, granted)) ==>
      failed == Err(NO_PAD_BUFFER) && p.inputSize == old(p.inputSize) && p.stager.original == 0
    ensures old(p.EstimateThrows(|input|, granted, fault)) ==>
      failed == Err(NO_ESTIMATE) && p.Staged(|input|)
  {
    failed := p.Compress(input, granted, planned, produced, fault);
    r := failed;
    if failed.Err? {
      r := p.DecompressCore(Some(blob), behind, left, actual, Clean);
    }
  }

  // ---- the calls at which the reports go wrong ----

  lemma OnlyAlignmentOfOne(a: nat, align: nat)
    requires a > 1 && Aligns([a], align)
    ensures align == a
  {
    OneRequirement(a, align);
    OneRequirement(a, a);
    MultipleHasNoRemainder(1, align);
    MultipleHasNoRemainder(1, a);
    DividesEachOther(a, align);
  }

  lemma DividesEachOther(a: nat, b: nat)
    requires a > 0 && b > 0 && a % b == 0 && b % a == 0
    ensures a == b
  {
    if a < b {
      QuotientIs(a, b, 0, a);
    } else if b < a {
      QuotientIs(b, a, 0, b);
    }
  }

  lemma OneRequirement(a: nat, m: nat)
    requires a > 1
    ensures SuitsAll([a], m) <==> m % a == 0
  {
    assert [a][0] == a;
  }

  /** One source, one output, inputs in chunks of 4096 bytes, no size hint. */
  ghost predicate InChunks(p: Pipeline)
    reads p, p.stager, p.stages
  {
    && p.Valid() && p.stager.Valid() && p.sources == 1 && p.outputs == [7] && p.stages == []
    && p.stager.reqs == [4096] && p.stager.alignment == 4096 && p.stager.hint == 0
  }

  method ChunkPipeline() returns (p: Pipeline)
    ensures fresh(p) && fresh(p.stager) && fresh(p.stager.padBuf) && InChunks(p) && p.stager.padBuf.Length == 0
  {
    var stager := new InputStager(0);
    stager.ComputeInputAlignment([4096]);
    OnlyAlignmentOfOne(4096, stager.alignment);
    OneRequirement(4096, 0);
    p := new Pipeline([7], [], stager, 1);
  }

  /** The same pipeline after compress() of 1000 bytes, padded to one chunk. */
  method CompressedChunk() returns (p: Pipeline)
    ensures fresh(p) && fresh(p.stager) && fresh(p.stager.padBuf) && InChunks(p) && p.stager.padBuf.Length <= 4096
    ensures p.metadata != [] && p.inputSize == 4096 && p.stager.original == 1000
  {
    p := ChunkPipeline();
    var r := p.Compress(Zeros(1000), true, b => 0, b => 0, NoFault);
    OneRequirement(4096, 1000);
    OneRequirement(4096, 4096);
  }

  /** 1000 bytes compressed with 4096-byte chunks, then a blob announced and decoded as 4096 bytes: 1000 is reported. */
  method ForeignBlobIsTrimmed() returns (p: Pipeline, r: Result<nat>)
    ensures fresh(p) && InChunks(p) && p.inputSize == 4096 && p.stager.original == 1000
    ensures r == Ok(Reported(p.stager.original, p.inputSize)) && r == Ok(1000)
  {
    p := ChunkPipeline();
    OneRequirement(4096, 1000);
    var ok;
    ok, r := CompressThenForeignBlob(p, Zeros(1000), true, b => 0, b => 0, 4096, [], i => 0, []);
  }

  /**
   * The blob of 1000 bytes reports 1000; then compress() of 5000 bytes is refused a pad buffer, and
   * the same blob reports 4096.
   */
  method PadRefusalLosesTrim() returns (p: Pipeline, before: Result<nat>, failed: Result<nat>, after: Result<nat>)
    ensures fresh(p) && InChunks(p) && p.metadata != [] && p.inputSize == 4096 && p.stager.original == 0
    ensures before == Ok(1000) && failed == Err(NO_PAD_BUFFER)
    ensures after == Ok(Reported(p.stager.original, p.inputSize)) && after == Ok(4096)
  {
    p := CompressedChunk();
    before := p.DecompressCore(Some([]), i => 0, [], 4096, Clean);
    failed, after := DecompressAfterFailure(p, Zeros(5000), false, b => 0, b => 0, NoFault, [], i => 0, [], 4096);
  }

  /**
   * The blob of 1000 bytes reports 1000; then the size estimate for 5000 bytes throws, and the same
   * blob, decoded to the same 4096 bytes, reports 4096: the trim is that of an input never compressed.
   */
  method EstimateFailureSwapsTrim() returns (p: Pipeline, before: Result<nat>, failed: Result<nat>, after: Result<nat>)
    ensures fresh(p) && InChunks(p) && p.metadata != [] && p.stager.original == 5000 && p.inputSize >= 5000
    ensures before == Ok(1000) && failed == Err(NO_ESTIMATE)
    ensures after == Ok(Reported(p.stager.original, 4096)) && after == Ok(4096)
  {
    p := CompressedChunk();
    before := p.DecompressCore(Some([]), i => 0, [], 4096, Clean);
    OneRequirement(4096, 5000);
    failed, after := DecompressAfterFailure(p, Zeros(5000), true, b => 0, b => 0, AtEstimate, [], i => 0, [], 4096);
  }

  /** The blob of 1000 bytes reports 1000; then a run of compress() fails, and the blob is refused. */
  method RunFailureForgetsBlob() returns (p: Pipeline, before: Result<nat>, failed: Result<nat>, after: Result<nat>)
    ensures fresh(p) && InChunks(p) && p.metadata == []
    ensures before == Ok(1000) && failed == Err(RUN_FAILED) && after.Err?
  {
    p := CompressedChunk();
    before := p.DecompressCore(Some([]), i => 0, [], 4096, Clean);
    failed, after := DecompressAfterFailure(p, Zeros(5000), true, b => 0, b => 0, AtRun, [], i => 0, [], 4096);
  }
}
