/**
 * The multi-output archive: [u32 n][u64 size]*n, padding, then one 16-byte-aligned slot per segment
 * (layout in src/pipeline/pipeline_utils.h:16-46, writer in src/pipeline/compressor.cpp:1029-1112,
 * reader in src/pipeline/compressor_exec.cpp:258-285 and 348-381).
 */
module Concat {
  import opened Values
  import opened Arithmetic

  /** The mask ~15u is a 32-bit constant, so it also clears the upper half of a 64-bit size. */
  const MASK_LIMIT: int := TWO_TO_THE_32 - 16

  /** align16(): (x + 15u) & ~15u on a 64-bit x. */
  function Align16(x: nat): nat {
    (x + 15) % 0x1_0000_0000_0000_0000 % 0x1_0000_0000 / 16 * 16
  }

  function RoundUp16(x: nat): nat {
    (x + 15) / 16 * 16
  }

  /** align16() rounds up to a multiple of 16 exactly up to 2^32-16; beyond, it falls short of x. */
  lemma Align16RoundsUpIff(x: nat)
    requires x < TWO_TO_THE_64
    ensures Align16(x) == RoundUp16(x) <==> x <= MASK_LIMIT
    ensures x <= Align16(x) <==> x <= MASK_LIMIT
    ensures Align16(x) % 16 == 0 && Align16(x) <= MASK_LIMIT && (Align16(x) == 0 <== x == 0)
  {
    var y := (x + 15) % 0x1_0000_0000_0000_0000 % 0x1_0000_0000;
    assert y / 16 * 16 <= MASK_LIMIT && (y / 16 * 16) % 16 == 0;
    if x <= MASK_LIMIT - 1 {
      assert y == x + 15;
    } else if x == MASK_LIMIT {
      assert y == TWO_TO_THE_32 - 1;
    } else {
      assert RoundUp16(x) >= x > MASK_LIMIT;
    }
  }

  // ---- layout, for any room given to the header and to each segment ----

  datatype Layout = Layout(room: nat, slots: seq<nat>)

  function HeaderBytes(n: nat): nat {
    4 + 8 * n
  }

  /** Where segment `i` starts; Offset(lay, |lay.slots|) is the end of the blob. */
  function Offset(lay: Layout, i: nat): nat
    requires i <= |lay.slots|
  {
    if i == 0 then lay.room else Offset(lay, i - 1) + lay.slots[i - 1]
  }

  function End(lay: Layout): nat {
    Offset(lay, |lay.slots|)
  }

  /** Byte `q` belongs to segment `i`. */
  ghost predicate InSegment(lay: Layout, sizes: seq<nat>, i: int, q: int) {
    0 <= i < |sizes| && i < |lay.slots| && Offset(lay, i) <= q < Offset(lay, i) + sizes[i]
  }

  /** Every byte of every segment lies between the header and the end of the blob, in one segment only. */
  ghost predicate LayoutSound(lay: Layout, sizes: seq<nat>) {
    && HeaderBytes(|sizes|) <= End(lay)
    && (forall i, q :: InSegment(lay, sizes, i, q) ==> HeaderBytes(|sizes|) <= q < End(lay))
    && (forall i, j, q :: InSegment(lay, sizes, i, q) && InSegment(lay, sizes, j, q) ==> i == j)
  }

  /** No slot is smaller than what goes into it. */
  ghost predicate Roomy(lay: Layout, sizes: seq<nat>) {
    && |lay.slots| == |sizes| && HeaderBytes(|sizes|) <= lay.room
    && forall i :: 0 <= i < |sizes| ==> sizes[i] <= lay.slots[i]
  }

  ghost predicate EmptyStaysEmpty(lay: Layout, sizes: seq<nat>) {
    |lay.slots| == |sizes| && forall i :: 0 <= i < |sizes| && sizes[i] == 0 ==> lay.slots[i] == 0
  }

  lemma {:induction false} OffsetsClimb(lay: Layout, sizes: seq<nat>, i: nat, j: nat)
    requires Roomy(lay, sizes) && i <= j <= |sizes|
    ensures Offset(lay, i) <= Offset(lay, j) && HeaderBytes(|sizes|) <= Offset(lay, i)
    ensures i < j ==> Offset(lay, i) + sizes[i] <= Offset(lay, j)
    decreases j
  {
    if j > 0 {
      var k := j - 1;
      OffsetsClimb(lay, sizes, if i < k then i else k, k);
    }
  }

  /** Skipping empty segments from `i` on: the next byte position belongs to one of them or is the end. */
  lemma {:induction false} NextByte(lay: Layout, sizes: seq<nat>, i: nat)
    requires EmptyStaysEmpty(lay, sizes) && i <= |sizes|
    ensures Offset(lay, i) == End(lay) || exists j :: i <= j && InSegment(lay, sizes, j, Offset(lay, i))
    decreases |sizes| - i
  {
    if i < |sizes| {
      var next := i + 1;
      if sizes[i] == 0 {
        NextByte(lay, sizes, next);
      } else {
        assert InSegment(lay, sizes, i, Offset(lay, i));
      }
    }
  }

  /** Bytes stay in bounds and apart exactly when every slot has room for its content. */
  lemma LayoutSoundIffRoomy(lay: Layout, sizes: seq<nat>)
    requires EmptyStaysEmpty(lay, sizes)
    ensures LayoutSound(lay, sizes) <==> Roomy(lay, sizes)
  {
    if Roomy(lay, sizes) {
      OffsetsClimb(lay, sizes, |sizes|, |sizes|);
      forall i, q | InSegment(lay, sizes, i, q) ensures HeaderBytes(|sizes|) <= q < End(lay) {
        OffsetsClimb(lay, sizes, i, |sizes|);
      }
      forall i, j, q | InSegment(lay, sizes, i, q) && InSegment(lay, sizes, j, q) ensures i == j {
        if i < j {
          OffsetsClimb(lay, sizes, i, j);
        } else if j < i {
          OffsetsClimb(lay, sizes, j, i);
        }
      }
    } else if HeaderBytes(|sizes|) > lay.room {
      NextByte(lay, sizes, 0);
    } else {
      var i :| 0 <= i < |sizes| && sizes[i] > lay.slots[i];
      var next := i + 1;
      assert InSegment(lay, sizes, i, Offset(lay, next));
      NextByte(lay, sizes, next);
    }
  }

  // ---- the archive's layout ----

  /** ConcatLayout: header and slots rounded by align16(). */
  function LayoutOf(sizes: seq<nat>): (lay: Layout)
    ensures |lay.slots| == |sizes|
  {
    Layout(Align16(HeaderBytes(|sizes|)), seq(|sizes|, i requires 0 <= i < |sizes| => Align16(sizes[i])))
  }

  ghost predicate Is64Bit(sizes: seq<nat>) {
    |sizes| < TWO_TO_THE_32 && forall i :: 0 <= i < |sizes| ==> sizes[i] < TWO_TO_THE_64
  }

  ghost predicate WithinMask(sizes: seq<nat>) {
    HeaderBytes(|sizes|) <= MASK_LIMIT && forall i :: 0 <= i < |sizes| ==> sizes[i] <= MASK_LIMIT
  }

  /** The archive's layout is sound exactly when the header and every segment are at most 2^32-16 bytes. */
  lemma LayoutSoundIff(sizes: seq<nat>)
    requires Is64Bit(sizes)
    ensures LayoutSound(LayoutOf(sizes), sizes) <==> WithinMask(sizes)
    ensures Roomy(LayoutOf(sizes), sizes) <==> WithinMask(sizes)
  {
    var lay := LayoutOf(sizes);
    assert HeaderBytes(|sizes|) <= lay.room <==> HeaderBytes(|sizes|) <= MASK_LIMIT by {
      Align16RoundsUpIff(HeaderBytes(|sizes|));
    }
    forall i | 0 <= i < |sizes|
      ensures sizes[i] <= lay.slots[i] <==> sizes[i] <= MASK_LIMIT
      ensures sizes[i] == 0 ==> lay.slots[i] == 0
    {
      Align16RoundsUpIff(sizes[i]);
    }
    LayoutSoundIffRoomy(lay, sizes);
  }

  /** A 5 GiB first segment gets a 1 GiB slot, so the second one is written inside it. */
  lemma BigSegmentIsOverwritten()
    ensures var sizes := [0x1_4000_0000, 16];
      && InSegment(LayoutOf(sizes), sizes, 0, Offset(LayoutOf(sizes), 1))
      && InSegment(LayoutOf(sizes), sizes, 1, Offset(LayoutOf(sizes), 1))
  {
  }

  // ---- little-endian integers ----

  function Pow256(k: nat): (r: nat)
    ensures r > 0
  {
    if k == 0 then 1 else 256 * Pow256(k - 1)
  }

  function ToBytes(v: nat, k: nat): (r: seq<Byte>)
    ensures |r| == k
  {
    seq(k, j requires 0 <= j < k => (v / Pow256(j) % 256) as Byte)
  }

  function FromBytes(s: seq<Byte>): nat {
    if s == [] then 0 else s[0] as nat + 256 * FromBytes(s[1..])
  }

  lemma NextByteOf(v: nat, j: nat, next: nat)
    requires next == j + 1
    ensures v / Pow256(next) == v / 256 / Pow256(j)
  {
    DivTwice(v, 256, Pow256(j));
  }

  lemma SplitBytes(v: nat, k: nat, rest: nat)
    requires k == rest + 1
    ensures ToBytes(v, k)[0] as nat == v % 256 && ToBytes(v, k)[1..] == ToBytes(v / 256, rest)
  {
    forall j | 0 <= j < rest ensures ToBytes(v, k)[1..][j] == ToBytes(v / 256, rest)[j] {
      NextByteOf(v, j, j + 1);
    }
  }

  lemma {:induction false} BytesRoundTrip(v: nat, k: nat)
    requires v < Pow256(k)
    ensures FromBytes(ToBytes(v, k)) == v
  {
    if k > 0 {
      var rest := k - 1;
      SplitBytes(v, k, rest);
      BytesRoundTrip(v / 256, rest);
    }
  }

  lemma FieldWidths()
    ensures Pow256(4) == TWO_TO_THE_32 && Pow256(8) == TWO_TO_THE_64
  {
  }

  // ---- the blob as a function of its segments ----

  function SizesOf(segs: seq<Value>): (r: seq<nat>)
    ensures |r| == |segs| && forall i :: 0 <= i < |r| ==> r[i] == |segs[i]|
  {
    seq(|segs|, i requires 0 <= i < |segs| => |segs[i]|)
  }

  function PadTo(s: seq<Byte>, n: nat): (r: seq<Byte>) {
    if |s| <= n then s + Zeros(n - |s|) else s
  }

  /** Header, padding, then the first `i` segments, each zero-padded to its slot. */
  function Blob(lay: Layout, head: seq<Byte>, segs: seq<Value>, i: nat): seq<Byte>
    requires i <= |segs| == |lay.slots|
  {
    if i == 0 then PadTo(head, lay.room)
    else Blob(lay, head, segs, i - 1) + PadTo(segs[i - 1], lay.slots[i - 1])
  }

  ghost predicate Fitting(lay: Layout, head: seq<Byte>, segs: seq<Value>) {
    Roomy(lay, SizesOf(segs)) && |head| == HeaderBytes(|segs|)
  }

  lemma {:induction false} BlobLength(lay: Layout, head: seq<Byte>, segs: seq<Value>, i: nat)
    requires Fitting(lay, head, segs) && i <= |segs|
    ensures |Blob(lay, head, segs, i)| == Offset(lay, i)
  {
    if i > 0 {
      var last := i - 1;
      BlobLength(lay, head, segs, last);
      var pad := BlobStep(lay, head, segs, last, i);
    }
  }

  /** The next segment and its zero padding follow directly behind the previous slots. */
  lemma BlobStep(lay: Layout, head: seq<Byte>, segs: seq<Value>, i: nat, next: nat) returns (pad: nat)
    requires Fitting(lay, head, segs) && i < |segs| && next == i + 1
    ensures Blob(lay, head, segs, next) == Blob(lay, head, segs, i) + segs[i] + Zeros(pad)
    ensures Offset(lay, next) == Offset(lay, i) + |segs[i]| + pad
  {
    var s := segs[i];
    assert SizesOf(segs)[i] == |s|;
    pad := lay.slots[i] - |s|;
    var b := Blob(lay, head, segs, i);
    assert Blob(lay, head, segs, next) == b + PadTo(s, lay.slots[i]);
    PadSplits(b, s, lay.slots[i], pad);
  }

  lemma PadSplits(b: seq<Byte>, s: seq<Byte>, n: nat, pad: nat)
    requires n == |s| + pad
    ensures b + PadTo(s, n) == b + s + Zeros(pad)
  {
  }

  lemma {:induction false} BlobKeepsPrefix(lay: Layout, head: seq<Byte>, segs: seq<Value>, i: nat, j: nat)
    requires i <= j <= |segs| == |lay.slots|
    ensures Blob(lay, head, segs, i) <= Blob(lay, head, segs, j)
    decreases j
  {
    if i < j {
      BlobKeepsPrefix(lay, head, segs, i, j - 1);
    }
  }

  lemma SliceAfter(blob: seq<Byte>, b: seq<Byte>, s: seq<Byte>)
    requires b + s <= blob
    ensures |b| + |s| <= |blob| && blob[|b|..|b| + |s|] == s
  {
  }

  lemma PrefixChain(a: seq<Byte>, b: seq<Byte>, c: seq<Byte>)
    requires a <= b && b <= c
    ensures a <= c
  {
  }

  /** The bytes a reader finds at segment `i`'s place. */
  function SliceAt(lay: Layout, sizes: seq<nat>, blob: seq<Byte>, i: nat): seq<Byte>
    requires i < |sizes| && i < |lay.slots|
  {
    if Offset(lay, i) + sizes[i] <= |blob| then blob[Offset(lay, i)..Offset(lay, i) + sizes[i]] else []
  }

  lemma SlotHoldsSegment(lay: Layout, head: seq<Byte>, segs: seq<Value>, blob: seq<Byte>, i: nat)
    requires Fitting(lay, head, segs) && blob == Blob(lay, head, segs, |segs|) && i < |segs|
    ensures SliceAt(lay, SizesOf(segs), blob, i) == segs[i]
  {
    var next := i + 1;
    BlobLength(lay, head, segs, i);
    var pad := BlobStep(lay, head, segs, i, next);
    BlobKeepsPrefix(lay, head, segs, next, |segs|);
    PrefixChain(Blob(lay, head, segs, i) + segs[i], Blob(lay, head, segs, next), blob);
    SliceAfter(blob, Blob(lay, head, segs, i), segs[i]);
  }

  /** Every byte outside the header fields and the segments is zero. */
  lemma {:induction false} RestIsZero(lay: Layout, head: seq<Byte>, segs: seq<Value>, i: nat, q: nat)
    requires Fitting(lay, head, segs) && i <= |segs| && HeaderBytes(|segs|) <= q < |Blob(lay, head, segs, i)|
    requires forall j :: 0 <= j < i ==> !InSegment(lay, SizesOf(segs), j, q)
    ensures Blob(lay, head, segs, i)[q] == 0
    decreases i
  {
    if i > 0 {
      var last := i - 1;
      var b := Blob(lay, head, segs, last);
      BlobLength(lay, head, segs, last);
      var pad := BlobStep(lay, head, segs, last, i);
      if q < |b| {
        RestIsZero(lay, head, segs, last, q);
      } else {
        assert SizesOf(segs)[last] == |segs[last]| && !InSegment(lay, SizesOf(segs), last, q);
        assert q >= |b + segs[last]|;
      }
    }
  }

  // ---- the writer ----

  function Splice(t: seq<Byte>, at: nat, s: seq<Byte>): seq<Byte>
    requires at + |s| <= |t|
  {
    t[..at] + s + t[at + |s|..]
  }

  /** A device copy of `s` to offset `at`, byte by byte as the gather kernel strides. */
  method CopyTo(a: array<Byte>, at: nat, s: seq<Byte>)
    requires at + |s| <= a.Length
    modifies a
    ensures a[..] == Splice(old(a[..]), at, s)
  {
    for k := 0 to |s|
      invariant forall q :: 0 <= q < a.Length ==> a[q] == if at <= q < at + k then s[q - at] else old(a[q])
    {
      a[at + k] := s[k];
    }
  }

  method ClearPrefix(a: array<Byte>, count: nat)
    requires count <= a.Length
    modifies a
    ensures a[..] == Splice(old(a[..]), 0, Zeros(count))
  {
    for k := 0 to count
      invariant forall q :: 0 <= q < a.Length ==> a[q] == if q < k then 0 else old(a[q])
    {
      a[k] := 0;
    }
  }

  /** Writing `s` right behind `b` into a run of zeros. */
  lemma SpliceIntoZeros(t: seq<Byte>, b: seq<Byte>, s: seq<Byte>, pad: nat, rest: nat, tail: seq<Byte>)
    requires t == b + Zeros(|s| + pad + rest) + tail
    ensures |b| + |s| <= |t| && Splice(t, |b|, s) == (b + s + Zeros(pad)) + Zeros(rest) + tail
  {
  }

  /** Everything written so far, zeros up to the end of the blob, then whatever followed. */
  ghost predicate WrittenTo(lay: Layout, head: seq<Byte>, t: seq<Byte>, was: seq<Byte>, segs: seq<Value>, i: int) {
    && 0 <= i <= |segs| == |lay.slots| && |Blob(lay, head, segs, i)| <= End(lay) <= |t| == |was|
    && t == Blob(lay, head, segs, i) + Zeros(End(lay) - |Blob(lay, head, segs, i)|) + was[End(lay)..]
  }

  lemma SegmentWritten(lay: Layout, head: seq<Byte>, t: seq<Byte>, was: seq<Byte>, segs: seq<Value>, i: nat, next: nat)
    requires Fitting(lay, head, segs) && i < |segs| && next == i + 1 && WrittenTo(lay, head, t, was, segs, i)
    ensures |Blob(lay, head, segs, i)| == Offset(lay, i) && Offset(lay, i) + |segs[i]| <= |t|
    ensures WrittenTo(lay, head, Splice(t, Offset(lay, i), segs[i]), was, segs, next)
  {
    BlobLength(lay, head, segs, i);
    var pad := BlobStep(lay, head, segs, i, next);
    OffsetsClimb(lay, SizesOf(segs), next, |segs|);
    SpliceIntoZeros(t, Blob(lay, head, segs, i), segs[i], pad, End(lay) - |Blob(lay, head, segs, next)|,
                    was[End(lay)..]);
  }

  lemma ClearThenWrite(was: seq<Byte>, h: seq<Byte>, room: nat, total: nat)
    requires |h| <= room <= total <= |was|
    ensures Splice(Splice(was, 0, Zeros(total)), 0, h) == PadTo(h, room) + Zeros(total - room) + was[total..]
  {
  }

  lemma HeaderWritten(lay: Layout, head: seq<Byte>, was: seq<Byte>, segs: seq<Value>)
    requires Fitting(lay, head, segs) && End(lay) <= |was|
    ensures |head| <= End(lay)
    ensures WrittenTo(lay, head, Splice(Splice(was, 0, Zeros(End(lay))), 0, head), was, segs, 0)
  {
    OffsetsClimb(lay, SizesOf(segs), 0, |segs|);
    ClearThenWrite(was, head, lay.room, End(lay));
  }

  ghost predicate OffsetsUpTo(lay: Layout, offsets: seq<nat>, n: int) {
    |offsets| == n <= |lay.slots| && forall i :: 0 <= i < n ==> offsets[i] == Offset(lay, i)
  }

  lemma OneMoreOffset(lay: Layout, offsets: seq<nat>, n: nat, next: nat)
    requires n < |lay.slots| && next == n + 1 && OffsetsUpTo(lay, offsets, n)
    ensures OffsetsUpTo(lay, offsets + [Offset(lay, n)], next)
  {
  }

  /** The running-offset loop the writer and the reader share: each segment's place, and the end. */
  method SegmentOffsets(sizes: seq<nat>) returns (offsets: seq<nat>, at: nat)
    ensures OffsetsUpTo(LayoutOf(sizes), offsets, |sizes|) && at == End(LayoutOf(sizes))
  {
    offsets := [];
    ghost var lay := LayoutOf(sizes);
    at := Align16(HeaderBytes(|sizes|));
    for i := 0 to |sizes|
      invariant at == Offset(lay, i) && OffsetsUpTo(lay, offsets, i)
    {
      ghost var next := i + 1;
      OneMoreOffset(lay, offsets, i, next);
      offsets := offsets + [at];
      at := NextOffset(sizes, at, i, next);
    }
  }

  /** The gather kernel's copies: segment i to the offset its descriptor names. */
  method GatherSegments(ghost lay: Layout, offsets: seq<nat>, ghost head: seq<Byte>, a: array<Byte>, segs: seq<Value>,
                        ghost was: seq<Byte>)
    requires Fitting(lay, head, segs) && OffsetsUpTo(lay, offsets, |segs|) && WrittenTo(lay, head, a[..], was, segs, 0)
    modifies a
    ensures WrittenTo(lay, head, a[..], was, segs, |segs|)
  {
    for i := 0 to |segs|
      invariant WrittenTo(lay, head, a[..], was, segs, i)
    {
      ghost var next := i + 1;
      SegmentWritten(lay, head, a[..], was, segs, i, next);
      CopyTo(a, offsets[i], segs[i]);
    }
  }

  /** offset += slotSize(size). */
  method NextOffset(sizes: seq<nat>, at: nat, i: nat, ghost next: nat) returns (end: nat)
    requires i < |sizes| && next == i + 1 && at == Offset(LayoutOf(sizes), i)
    ensures end == Offset(LayoutOf(sizes), next)
  {
    end := at + Align16(sizes[i]);
  }

  method PackHeader(segs: seq<Value>) returns (h: seq<Byte>)
    ensures h == Header(segs)
  {
    h := ToBytes(|segs|, 4);
    for i := 0 to |segs|
      invariant h == ToBytes(|segs|, 4) + SizeTable(segs, i)
    {
      h := h + ToBytes(|segs[i]|, 8);
    }
  }

  method CalculateConcatSize(segs: seq<Value>) returns (total: nat)
    ensures total == End(LayoutOf(SizesOf(segs)))
  {
    total := Align16(HeaderBytes(|segs|));
    for i := 0 to |segs|
      invariant total == Offset(LayoutOf(SizesOf(segs)), i)
    {
      ghost var next := i + 1;
      total := NextOffset(SizesOf(segs), total, i, next);
    }
  }

  /** Returns the end offset, which is what calculateConcatSize() computes. */
  method WriteConcatBuffer(a: array<Byte>, segs: seq<Value>, ghost was: seq<Byte>) returns (end: nat)
    requires Roomy(LayoutOf(SizesOf(segs)), SizesOf(segs)) && End(LayoutOf(SizesOf(segs))) <= a.Length == |was|
    requires a[..] == Splice(was, 0, Zeros(End(LayoutOf(SizesOf(segs)))))
    modifies a
    ensures end == End(LayoutOf(SizesOf(segs)))
    ensures WrittenTo(LayoutOf(SizesOf(segs)), Header(segs), a[..], was, segs, |segs|)
  {
    ghost var lay := LayoutOf(SizesOf(segs));
    var h := PackHeader(segs);
    HeaderWritten(lay, h, was, segs);
    CopyTo(a, 0, h);
    var offsets;
    offsets, end := SegmentOffsets(SizesOf(segs));
    GatherSegments(lay, offsets, h, a, segs, was);
  }

  /** The size table for the first `i` segments. */
  function SizeTable(segs: seq<Value>, i: nat): (r: seq<Byte>)
    requires i <= |segs|
    ensures |r| == 8 * i
  {
    if i == 0 then [] else SizeTable(segs, i - 1) + ToBytes(|segs[i - 1]|, 8)
  }

  function Header(segs: seq<Value>): (r: seq<Byte>)
    ensures |r| == HeaderBytes(|segs|)
  {
    ToBytes(|segs|, 4) + SizeTable(segs, |segs|)
  }

  /** The archive of a list of segments. */
  function Archive(segs: seq<Value>): seq<Byte> {
    Blob(LayoutOf(SizesOf(segs)), Header(segs), segs, |segs|)
  }

  /** Segment lists the format can hold: counts and sizes that fit their fields and the slot mask. */
  ghost predicate Archivable(segs: seq<Value>) {
    Is64Bit(SizesOf(segs)) && WithinMask(SizesOf(segs))
  }

  /**
   * concatOutputs(): the first `size` bytes are the archive, whatever the recycled buffer held, and
   * bytes behind them are left alone. `grown` is the pool's larger buffer, used when `buf` is too small.
   */
  method ConcatOutputs(buf: array<Byte>, segs: seq<Value>, grown: array<Byte>) returns (out: array<Byte>, size: nat)
    requires Archivable(segs) && grown.Length >= End(LayoutOf(SizesOf(segs)))
    modifies buf, grown
    ensures out == if buf.Length < End(LayoutOf(SizesOf(segs))) then grown else buf
    ensures size == End(LayoutOf(SizesOf(segs))) == |Archive(segs)| <= out.Length
    ensures out[..] == Archive(segs) + old(out[..])[size..]
  {
    LayoutSoundIff(SizesOf(segs));
    var total := CalculateConcatSize(segs);
    out := if buf.Length < total then grown else buf;
    ghost var was := out[..];
    ClearPrefix(out, total);
    size := WriteConcatBuffer(out, segs, was);
    NothingLeft(LayoutOf(SizesOf(segs)), Header(segs), out[..], was, segs);
  }

  lemma NothingLeft(lay: Layout, head: seq<Byte>, t: seq<Byte>, was: seq<Byte>, segs: seq<Value>)
    requires Fitting(lay, head, segs) && WrittenTo(lay, head, t, was, segs, |segs|)
    ensures |Blob(lay, head, segs, |segs|)| == End(lay) && t == Blob(lay, head, segs, |segs|) + was[End(lay)..]
  {
    BlobLength(lay, head, segs, |segs|);
    assert Blob(lay, head, segs, |segs|) + Zeros(0) == Blob(lay, head, segs, |segs|);
  }

  // ---- the reader ----

  /**
   * The header copy has a fixed length and no regard for the blob's: past the end of a shorter blob
   * it takes `behind`, whatever memory holds there.
   */
  function HeaderCopy(blob: seq<Byte>, behind: nat -> Byte, n: nat): (r: seq<Byte>)
    ensures |r| == HeaderBytes(n)
    ensures HeaderBytes(n) <= |blob| ==> r == blob[..HeaderBytes(n)]
    ensures 4 <= |blob| ==> r[..4] == blob[..4]
  {
    seq(HeaderBytes(n), i requires 0 <= i < HeaderBytes(n) => if i < |blob| then blob[i] else behind(i))
  }

  /** What readConcatSegmentSizes() takes for the sizes of a blob. */
  function SizesRead(blob: seq<Byte>, behind: nat -> Byte, n: nat): Result<seq<nat>> {
    SizesIn(HeaderCopy(blob, behind, n), n)
  }

  /** Only the count field is checked: a blob cut off behind it is accepted like a whole one. */
  lemma OnlyCountIsChecked(blob: seq<Byte>, behind: nat -> Byte, n: nat)
    ensures HeaderBytes(n) <= |blob| ==> SizesRead(blob, behind, n) == SizesIn(blob, n)
    ensures 4 <= |blob| ==> (SizesRead(blob, behind, n).Ok? <==> FromBytes(blob[..4]) == n)
  {
    if HeaderBytes(n) <= |blob| {
      var head := HeaderCopy(blob, behind, n);
      assert head[..4] == blob[..4];
      forall k | 0 <= k < n ensures SizeField(head, k) == SizeField(blob, k) {
        assert head[4 + 8 * k..4 + 8 * k + 8] == blob[4 + 8 * k..4 + 8 * k + 8];
      }
      if FromBytes(blob[..4]) == n {
        assert SizesIn(head, n).value == SizesIn(blob, n).value;
      }
    }
  }

  method ReadConcatSegmentSizes(blob: seq<Byte>, behind: nat -> Byte, n: nat) returns (r: Result<seq<nat>>)
    ensures r == SizesRead(blob, behind, n)
    ensures HeaderBytes(n) <= |blob| ==> r == SizesIn(blob, n)
  {
    OnlyCountIsChecked(blob, behind, n);
    r := ParseHeader(HeaderCopy(blob, behind, n), n);
  }

  method ParseHeader(blob: seq<Byte>, n: nat) returns (r: Result<seq<nat>>)
    requires |blob| == HeaderBytes(n)
    ensures r == SizesIn(blob, n)
  {
    var count := FromBytes(blob[..4]);
    if count != n {
      return Err("segment count does not match this pipeline's output count");
    }
    var sizes: seq<nat> := [];
    var p := 4;
    for i := 0 to n
      invariant p == 4 + 8 * i && |sizes| == i
      invariant forall k :: 0 <= k < i ==> sizes[k] == SizeField(blob, k)
    {
      assert SizeField(blob, i) == FromBytes(blob[p..p + 8]);
      sizes := sizes + [FromBytes(blob[p..p + 8])];
      p := p + 8;
    }
    r := Ok(sizes);
    assert SizesIn(blob, n).value == sizes;
  }

  function SizeField(blob: seq<Byte>, k: nat): nat
    requires HeaderBytes(k + 1) <= |blob|
  {
    FromBytes(blob[4 + 8 * k..4 + 8 * k + 8])
  }

  function SizesIn(blob: seq<Byte>, n: nat): Result<seq<nat>>
    requires HeaderBytes(n) <= |blob|
  {
    if FromBytes(blob[..4]) != n then Result<seq<nat>>.Err("segment count does not match this pipeline's output count")
    else Ok(seq(n, k requires 0 <= k < n => SizeField(blob, k)))
  }

  // ---- round trip ----

  lemma {:induction false} TableField(segs: seq<Value>, i: nat, k: nat)
    requires k < i <= |segs| && |segs[k]| < TWO_TO_THE_64
    ensures FromBytes(SizeTable(segs, i)[8 * k..8 * k + 8]) == |segs[k]|
    decreases i
  {
    if k == i - 1 {
      FieldWidths();
      BytesRoundTrip(|segs[k]|, 8);
      assert SizeTable(segs, i)[8 * k..8 * k + 8] == ToBytes(|segs[k]|, 8);
    } else {
      TableField(segs, i - 1, k);
      assert SizeTable(segs, i)[8 * k..8 * k + 8] == SizeTable(segs, i - 1)[8 * k..8 * k + 8];
    }
  }

  lemma HeaderFields(segs: seq<Value>, blob: seq<Byte>, k: nat)
    requires Is64Bit(SizesOf(segs)) && k < |segs| && Header(segs) <= blob
    ensures SizeField(blob, k) == |segs[k]|
  {
    assert SizesOf(segs)[k] == |segs[k]|;
    TableField(segs, |segs|, k);
    assert blob[4 + 8 * k..4 + 8 * k + 8] == SizeTable(segs, |segs|)[8 * k..8 * k + 8];
  }

  /** The count field alone decides whether a pipeline with `n` outputs accepts a blob. */
  lemma CountField(segs: seq<Value>, blob: seq<Byte>, n: nat)
    requires |segs| < TWO_TO_THE_32 && Header(segs) <= blob && HeaderBytes(n) <= |blob|
    ensures SizesIn(blob, n).Ok? <==> n == |segs|
  {
    FieldWidths();
    BytesRoundTrip(|segs|, 4);
    assert blob[..4] == ToBytes(|segs|, 4);
  }

  lemma SizesReadBack(segs: seq<Value>, blob: seq<Byte>)
    requires Is64Bit(SizesOf(segs)) && Header(segs) <= blob
    ensures SizesIn(blob, |segs|) == Ok(SizesOf(segs))
  {
    CountField(segs, blob, |segs|);
    var got := SizesIn(blob, |segs|).value;
    forall k | 0 <= k < |segs| ensures got[k] == SizesOf(segs)[k] {
      HeaderFields(segs, blob, k);
    }
    assert got == SizesOf(segs);
  }

  lemma ArchiveStartsWithHeader(segs: seq<Value>)
    requires Archivable(segs)
    ensures Header(segs) <= Archive(segs)
  {
    var lay := LayoutOf(SizesOf(segs));
    LayoutSoundIff(SizesOf(segs));
    BlobKeepsPrefix(lay, Header(segs), segs, 0, |segs|);
    PrefixChain(Header(segs), Blob(lay, Header(segs), segs, 0), Archive(segs));
  }

  /** What a reader gets out of `blob`: the size fields, then the slice at each segment's place. */
  function SegmentsIn(blob: seq<Byte>, n: nat): Result<seq<Value>>
    requires HeaderBytes(n) <= |blob|
  {
    var sizes := SizesIn(blob, n);
    if sizes.Err? then Result<seq<Value>>.Err(sizes.message)
    else Ok(seq(n, i requires 0 <= i < n =>
      if i < |sizes.value| then SliceAt(LayoutOf(sizes.value), sizes.value, blob, i) else []))
  }

  /** Reading a written archive gives back exactly the sizes, and each slot delimits exactly its segment. */
  lemma ConcatRoundTrip(segs: seq<Value>)
    requires Archivable(segs)
    ensures HeaderBytes(|segs|) <= |Archive(segs)| && SizesIn(Archive(segs), |segs|) == Ok(SizesOf(segs))
    ensures SegmentsIn(Archive(segs), |segs|) == Ok(segs)
  {
    var blob, lay := Archive(segs), LayoutOf(SizesOf(segs));
    ArchiveStartsWithHeader(segs);
    SizesReadBack(segs, blob);
    LayoutSoundIff(SizesOf(segs));
    forall i | 0 <= i < |segs| ensures SliceAt(lay, SizesOf(segs), blob, i) == segs[i] {
      SlotHoldsSegment(lay, Header(segs), segs, blob, i);
    }
    assert SegmentsIn(blob, |segs|).value == segs;
  }

  /** Segment `i` lies in the archive at its offset. */
  lemma SegmentInArchive(segs: seq<Value>, i: nat) returns (from: nat)
    requires Archivable(segs) && i < |segs|
    ensures from == Offset(LayoutOf(SizesOf(segs)), i) && from + |segs[i]| <= |Archive(segs)|
    ensures Archive(segs)[from..from + |segs[i]|] == segs[i]
  {
    var lay, head, next := LayoutOf(SizesOf(segs)), Header(segs), i + 1;
    LayoutSoundIff(SizesOf(segs));
    BlobLength(lay, head, segs, i);
    var pad := BlobStep(lay, head, segs, i, next);
    BlobKeepsPrefix(lay, head, segs, next, |segs|);
    PrefixChain(Blob(lay, head, segs, i) + segs[i], Blob(lay, head, segs, next), Archive(segs));
    SliceAfter(Archive(segs), Blob(lay, head, segs, i), segs[i]);
    from := |Blob(lay, head, segs, i)|;
  }

  /** Different segment lists never give the same archive. */
  lemma ArchiveIsInjective(a: seq<Value>, b: seq<Value>)
    requires Archivable(a) && Archivable(b)
    ensures Archive(a) == Archive(b) ==> a == b
  {
    ConcatRoundTrip(a);
    ConcatRoundTrip(b);
    if Archive(a) == Archive(b) {
      ArchiveStartsWithHeader(b);
      CountField(b, Archive(b), |a|);
    }
  }

  /** A pipeline with another number of outputs refuses the archive. */
  lemma OtherCountIsRefused(segs: seq<Value>, n: nat)
    requires Archivable(segs) && HeaderBytes(n) <= |Archive(segs)|
    ensures SegmentsIn(Archive(segs), n).Ok? <==> n == |segs|
  {
    ArchiveStartsWithHeader(segs);
    CountField(segs, Archive(segs), n);
  }

  ghost predicate InSomeSegment(sizes: seq<nat>, q: int) {
    exists j :: InSegment(LayoutOf(sizes), sizes, j, q)
  }

  /** Bytes of the archive outside the header fields and the segments are zero. */
  lemma ArchivePaddingIsZero(segs: seq<Value>)
    requires Archivable(segs)
    ensures forall q :: HeaderBytes(|segs|) <= q < |Archive(segs)| && !InSomeSegment(SizesOf(segs), q) ==>
      Archive(segs)[q] == 0
  {
    LayoutSoundIff(SizesOf(segs));
    forall q | HeaderBytes(|segs|) <= q < |Archive(segs)| && !InSomeSegment(SizesOf(segs), q)
      ensures Archive(segs)[q] == 0
    {
      RestIsZero(LayoutOf(SizesOf(segs)), Header(segs), segs, |segs|, q);
    }
  }
}
