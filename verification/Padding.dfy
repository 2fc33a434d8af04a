/**
 * Input alignment: the least common multiple of the stages' requirements, and zero-padding of inputs
 * up to it (src/pipeline/compressor.cpp:415-431 and 493-507, src/pipeline/compressor_exec.cpp:38-59
 * and 555-558).
 */
module Padding {
  import opened Values
  import opened Arithmetic

  // ---- alignment ----

  /** The first common multiple of `a` and `b` from `l` upwards. */
  function CommonMultipleFrom(a: nat, b: nat, l: nat, limit: nat): (r: nat)
    requires a > 0 && b > 0 && 0 < l <= limit && IsCommonMultiple(a, b, limit)
    ensures l <= r <= limit && IsCommonMultiple(a, b, r)
    ensures forall m :: l <= m < r ==> !IsCommonMultiple(a, b, m)
    decreases limit - l
  {
    if IsCommonMultiple(a, b, l) then l else CommonMultipleFrom(a, b, l + 1, limit)
  }

  predicate IsCommonMultiple(a: nat, b: nat, m: int)
    requires a > 0 && b > 0
  {
    m % a == 0 && m % b == 0
  }

  lemma ProductIsCommonMultiple(a: nat, b: nat)
    requires a > 0 && b > 0
    ensures a * b > 0 && IsCommonMultiple(a, b, a * b)
  {
    MultipleHasNoRemainder(b, a);
    MultipleHasNoRemainder(a, b);
  }

  /** std::lcm. */
  function Lcm(a: nat, b: nat): (r: nat)
    requires a > 0 && b > 0
    ensures r > 0 && IsCommonMultiple(a, b, r)
    ensures forall m :: 1 <= m < r ==> !IsCommonMultiple(a, b, m)
  {
    ProductIsCommonMultiple(a, b);
    CommonMultipleFrom(a, b, 1, a * b)
  }

  /** The least common multiple divides exactly the common multiples. */
  lemma LcmDividesIff(a: nat, b: nat, m: nat)
    requires a > 0 && b > 0
    ensures m % Lcm(a, b) == 0 <==> IsCommonMultiple(a, b, m)
  {
    var l := Lcm(a, b);
    if IsCommonMultiple(a, b, m) {
      RemainderOfMultiple(a, m, l);
      RemainderOfMultiple(b, m, l);
      assert IsCommonMultiple(a, b, m % l);
    } else if m % l == 0 {
      DividesThrough(a, l, m);
      DividesThrough(b, l, m);
    }
  }

  /** Every requirement above 1 among the first `count` divides `m`. */
  ghost predicate SuitsFirst(reqs: seq<nat>, count: int, m: int) {
    forall i :: 0 <= i < count && i < |reqs| && reqs[i] > 1 ==> m % reqs[i] == 0
  }

  ghost predicate SuitsAll(reqs: seq<nat>, m: int) {
    SuitsFirst(reqs, |reqs|, m)
  }

  lemma OneMoreRequirement(reqs: seq<nat>, i: nat, next: nat, m: int)
    requires i < |reqs| && next == i + 1 && reqs[i] > 1
    ensures SuitsFirst(reqs, next, m) <==> SuitsFirst(reqs, i, m) && m % reqs[i] == 0
  {
  }

  /** The multiples of `align` are exactly the lengths the first `count` stages accept. */
  ghost predicate AlignsFirst(reqs: seq<nat>, count: int, align: nat) {
    align > 0 && forall m: nat :: m % align == 0 <==> SuitsFirst(reqs, count, m)
  }

  ghost predicate Aligns(reqs: seq<nat>, align: nat) {
    align > 0 && forall m: nat :: m % align == 0 <==> SuitsAll(reqs, m)
  }

  lemma NextAlignment(reqs: seq<nat>, i: nat, next: nat, align: nat)
    requires i < |reqs| && next == i + 1 && AlignsFirst(reqs, i, align)
    ensures AlignsFirst(reqs, next, if reqs[i] > 1 then Lcm(align, reqs[i]) else align)
  {
    if reqs[i] > 1 {
      forall m: nat ensures m % Lcm(align, reqs[i]) == 0 <==> SuitsFirst(reqs, next, m) {
        LcmDividesIff(align, reqs[i], m);
        OneMoreRequirement(reqs, i, next, m);
      }
    } else {
      forall m: nat ensures SuitsFirst(reqs, next, m) <==> SuitsFirst(reqs, i, m) {
      }
    }
  }

  method AlignmentOf(reqs: seq<nat>) returns (align: nat)
    ensures Aligns(reqs, align)
  {
    align := 1;
    for i := 0 to |reqs|
      invariant AlignsFirst(reqs, i, align)
    {
      ghost var next := i + 1;
      NextAlignment(reqs, i, next, align);
      if reqs[i] > 1 {
        align := Lcm(align, reqs[i]);
      }
    }
    assert forall m :: SuitsAll(reqs, m) <==> SuitsFirst(reqs, |reqs|, m);
  }

  // ---- rounding up ----

  /** ((n + a - 1) / a) * a in 64-bit arithmetic. */
  function PadUp(n: nat, a: nat): nat
    requires a > 0
  {
    var w := (n + a - 1) % 0x1_0000_0000_0000_0000;
    RoundDown(w, a);
    w / a * a
  }

  lemma RoundDown(w: nat, a: nat)
    requires a > 0
    ensures w / a * a == w - w % a && 0 <= w / a * a <= w < w / a * a + a
  {
  }

  ghost predicate LeastMultipleFrom(n: nat, a: nat, p: nat)
    requires a > 0
  {
    p >= n && p % a == 0 && forall m: nat :: n <= m && m % a == 0 ==> p <= m
  }

  lemma RoundUpIsLeast(n: nat, a: nat)
    requires a > 0
    ensures LeastMultipleFrom(n, a, (n + a - 1) / a * a) && (n + a - 1) / a * a < n + a
  {
    var w := n + a - 1;
    RoundDown(w, a);
    MultipleHasNoRemainder(w / a, a);
    forall m: nat | n <= m && m % a == 0 ensures w / a * a <= m {
      var x, y := m / a, w / a;
      assert m == a * x;
      if x < y {
        MultipleGap(a, x, y);
      } else if y < x {
        MultipleGap(a, y, x);
      }
    }
  }

  /** Padding is the least multiple from `n` on, exactly when n + a - 1 does not wrap around. */
  lemma PadUpIsLeastIff(n: nat, a: nat)
    requires 0 < a < TWO_TO_THE_64 && n < TWO_TO_THE_64
    ensures LeastMultipleFrom(n, a, PadUp(n, a)) <==> n + a - 1 < TWO_TO_THE_64
    ensures n + a - 1 < TWO_TO_THE_64 ==> PadUp(n, a) < n + a
  {
    RoundUpIsLeast(n, a);
    var w := (n + a - 1) % 0x1_0000_0000_0000_0000;
    RoundDown(w, a);
  }

  /** The size decompress() reports when the inverse yields `actual` bytes. */
  function Reported(original: nat, actual: nat): nat {
    if original > 0 && actual > original then original else actual
  }

  /** The size prepareInputSource() remembers for trimming: none for an input every stage accepts as it is. */
  ghost function TrimFor(reqs: seq<nat>, n: nat): nat {
    if SuitsAll(reqs, n) then 0 else n
  }

  /** The least length from `n` on that every stage accepts. */
  ghost predicate LeastSuiting(reqs: seq<nat>, n: nat, size: nat) {
    n <= size && SuitsAll(reqs, size) && forall m: nat :: n <= m && SuitsAll(reqs, m) ==> size <= m
  }

  /** The input, zero-padded to the least length every stage accepts. */
  ghost predicate PaddedInput(reqs: seq<nat>, input: seq<Byte>, source: seq<Byte>) {
    && input <= source && source == input + Zeros(|source| - |input|)
    && LeastSuiting(reqs, |input|, |source|)
  }

  class InputStager {
    ghost var reqs: seq<nat>
    var alignment: nat
    var hint: nat
    var padBuf: array<Byte>
    var original: nat

    /** alignment and hint come from finalize(); no arithmetic on sizes up to the hint wraps around. */
    ghost predicate Valid()
      reads this
    {
      && Aligns(reqs, alignment)
      && (alignment > 1 ==> hint % alignment == 0)
      && hint + alignment - 1 < TWO_TO_THE_64
    }

    /** A pad buffer as finalize() leaves it: no input up to the hint needs a larger one. */
    ghost predicate Preallocated()
      reads this
    {
      alignment > 1 && hint > 0 ==> padBuf.Length >= hint
    }

    constructor (hintBytes: nat)
      ensures alignment == 1 && hint == hintBytes && original == 0 && padBuf.Length == 0 && fresh(padBuf)
    {
      reqs, alignment, hint, original := [], 1, hintBytes, 0;
      padBuf := new Byte[0];
    }

    /** computeInputAlignment(): the hint becomes the least suitable size from the given one on. */
    method ComputeInputAlignment(required: seq<nat>)
      requires hint < TWO_TO_THE_64
      modifies this`reqs, this`alignment, this`hint
      ensures reqs == required && Aligns(reqs, alignment)
      ensures old(hint) + 2 * alignment < TWO_TO_THE_64 ==>
        && Valid() && hint >= old(hint) && SuitsAll(reqs, hint)
        && forall m: nat :: old(hint) <= m && SuitsAll(reqs, m) ==> hint <= m
    {
      reqs := required;
      alignment := AlignmentOf(required);
      if alignment > 1 {
        if hint + 2 * alignment < TWO_TO_THE_64 {
          PadUpIsLeastIff(hint, alignment);
        }
        hint := PadUp(hint, alignment);
      }
    }

    /** An input of `n` bytes has to be padded, and the pad buffer is too small for the result. */
    predicate NeedsLargerPad(n: nat)
      reads this
    {
      alignment > 1 && n % alignment != 0 && PadUp(n, alignment) > padBuf.Length
    }

    /** The pad buffer's length once an input of `n` bytes has been staged. */
    function CapacityFor(n: nat): nat
      requires alignment > 0
      reads this
    {
      if NeedsLargerPad(n) then PadUp(n, alignment) else padBuf.Length
    }

    /** PoolBuffer::allocate(): the old buffer is given back before the pool is asked for `bytes`. */
    method ReplacePad(bytes: nat, granted: bool)
      modifies this`padBuf
      ensures fresh(padBuf) && padBuf.Length == if granted then bytes else 0
    {
      padBuf := new Byte[if granted then bytes else 0];
    }

    /** preallocatePadBuffer(); false where the pool refuses, and then the old buffer is gone too. */
    method PreallocatePadBuffer(granted: bool) returns (ok: bool)
      requires Valid()
      modifies this`padBuf
      ensures ok <==> granted || old(Preallocated())
      ensures ok ==> Preallocated()
      ensures padBuf == old(padBuf) || fresh(padBuf)
      ensures !ok ==> padBuf.Length == 0
    {
      if alignment <= 1 || hint == 0 {
        return true;
      }
      PadUpIsLeastIff(hint, alignment);
      var padded := PadUp(hint, alignment);
      if padded <= padBuf.Length {
        return true;
      }
      ReplacePad(padded, granted);
      ok := granted;
    }

    /**
     * prepareInputSource() outside graph replay. None exactly where a larger pad buffer is needed and
     * the pool refuses it, which cannot happen for inputs within the hint once the buffer is preallocated.
     */
    method PrepareInputSource(input: seq<Byte>, granted: bool) returns (r: Option<seq<Byte>>)
      requires Valid() && |input| + alignment <= TWO_TO_THE_64 && alignment < TWO_TO_THE_64
      modifies this`padBuf, this`original, padBuf
      ensures r.None? <==> !granted && old(NeedsLargerPad(|input|))
      ensures r.Some? ==> PaddedInput(reqs, input, r.value) && Reported(original, |r.value|) == |input|
      ensures r.Some? ==> original == TrimFor(reqs, |input|)
      ensures r.Some? && original > 0 ==> |r.value| <= padBuf.Length && r.value == padBuf[..|r.value|]
      ensures r.Some? && original == 0 ==> r.value == input
      ensures old(Preallocated()) && hint > 0 && |input| <= hint ==> r.Some? && padBuf == old(padBuf)
      ensures r.None? ==> original == 0 && padBuf.Length == 0
      ensures r.Some? ==> padBuf.Length == old(CapacityFor(|input|))
      ensures padBuf == old(padBuf) || fresh(padBuf)
    {
      original := 0;
      var aligned := IsAligned(reqs, alignment, input);
      if aligned {
        return Some(input);
      }
      r := PadInput(input, granted);
    }

    /** The padding branch: into the persistent pad buffer, replaced by a larger one if it is too small. */
    method PadInput(input: seq<Byte>, granted: bool) returns (r: Option<seq<Byte>>)
      requires Valid() && 1 < alignment && |input| + alignment <= TWO_TO_THE_64 && |input| > 0 && original == 0
      requires |input| % alignment != 0
      modifies this`padBuf, this`original, padBuf
      ensures r.None? <==> !granted && old(NeedsLargerPad(|input|))
      ensures r.Some? ==> PaddedInput(reqs, input, r.value) && original == |input|
      ensures r.Some? ==> |r.value| <= padBuf.Length && r.value == padBuf[..|r.value|]
      ensures |input| <= hint <= old(padBuf.Length) ==> r.Some? && padBuf == old(padBuf)
      ensures r.None? ==> original == 0 && padBuf.Length == 0
      ensures r.Some? ==> padBuf.Length == old(CapacityFor(|input|))
      ensures padBuf == old(padBuf) || fresh(padBuf)
    {
      var padded := PaddedLength(|input|, alignment, hint);
      if padded > padBuf.Length {
        ReplacePad(padded, granted);
        if !granted {
          return None;
        }
      }
      FillPadded(padBuf, input, padded);
      original := |input|;
      PaddedIsLeast(reqs, alignment, input, padded);
      r := Some(padBuf[..padded]);
    }
  }

  method IsAligned(ghost reqs: seq<nat>, a: nat, input: seq<Byte>) returns (aligned: bool)
    requires Aligns(reqs, a)
    ensures aligned ==> PaddedInput(reqs, input, input)
    ensures !aligned ==> a > 1 && |input| > 0 && |input| % a != 0
    ensures aligned <==> SuitsAll(reqs, |input|)
  {
    aligned := a <= 1 || |input| % a == 0;
    assert SuitsAll(reqs, |input|) <==> |input| % a == 0;
    if aligned {
      AlignedInput(reqs, a, input);
    }
  }

  method PaddedLength(n: nat, a: nat, ghost hint: nat) returns (padded: nat)
    requires 0 < a < TWO_TO_THE_64 && n + a <= TWO_TO_THE_64 && hint % a == 0
    ensures padded == PadUp(n, a) && LeastMultipleFrom(n, a, padded) && (n <= hint ==> padded <= hint)
  {
    PadUpIsLeastIff(n, a);
    padded := PadUp(n, a);
  }

  /** The copy and the memset of prepareInputSource(). */
  method FillPadded(buf: array<Byte>, input: seq<Byte>, padded: nat)
    requires |input| <= padded <= buf.Length
    modifies buf
    ensures buf[..padded] == input + Zeros(padded - |input|)
    ensures buf[padded..] == old(buf[padded..])
  {
    for i := 0 to |input|
      invariant forall k :: 0 <= k < buf.Length ==> buf[k] == if k < i then input[k] else old(buf[k])
    {
      buf[i] := input[i];
    }
    for i := |input| to padded
      invariant forall k :: 0 <= k < buf.Length ==>
        buf[k] == if k < |input| then input[k] else if k < i then 0 else old(buf[k])
    {
      buf[i] := 0;
    }
  }

  lemma PaddedIsLeast(reqs: seq<nat>, a: nat, input: seq<Byte>, padded: nat)
    requires Aligns(reqs, a)
    requires LeastMultipleFrom(|input|, a, padded)
    ensures PaddedInput(reqs, input, input + Zeros(padded - |input|))
  {
  }

  lemma AlignedInput(reqs: seq<nat>, a: nat, input: seq<Byte>)
    requires Aligns(reqs, a)
    requires a == 1 || |input| % a == 0
    ensures PaddedInput(reqs, input, input)
  {
  }
}
