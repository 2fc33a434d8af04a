/**
 * Choosing which spans of a linear chain to fuse: the forward planner's dynamic program
 * (src/pipeline/compressor.cpp:215-276) and the inverse builder's greedy scan
 * (src/pipeline/compressor_inverse_dag.cpp:142-169). The registry is an arbitrary predicate on spans.
 */
module FusionSelect {
  import opened Sums

  /** Stages begin..end-1 of the chain. */
  datatype Span = Span(begin: nat, end: nat)

  type Registry = (nat, nat) -> bool

  /** A registered span of at least two stages inside [lo, count). */
  ghost predicate Fits(reg: Registry, lo: nat, count: nat, s: Span) {
    lo <= s.begin && s.begin + 2 <= s.end <= count && reg(s.begin, s.end)
  }

  ghost predicate Apart(a: Span, b: Span) {
    a.end <= b.begin || b.end <= a.begin
  }

  /** Kernel launches saved by running the span as one. */
  function Saved(s: Span): nat {
    if s.end > s.begin then s.end - s.begin - 1 else 0
  }

  /** Any set of pairwise disjoint registered spans inside [lo, count). */
  ghost predicate Selection(reg: Registry, lo: nat, count: nat, sel: set<Span>) {
    && (forall s :: s in sel ==> Fits(reg, lo, count, s))
    && (forall a, b :: a in sel && b in sel && a != b ==> Apart(a, b))
  }

  ghost function Total(sel: set<Span>): nat {
    Sum(sel, (s: Span) => Saved(s))
  }

  /** Spans in chain order inside [lo, count), each starting where the previous ended or later. */
  ghost predicate Ordered(reg: Registry, lo: nat, count: nat, spans: seq<Span>)
    decreases |spans|
  {
    spans == [] || (Fits(reg, lo, count, spans[0]) && Ordered(reg, spans[0].end, count, spans[1..]))
  }

  function SavedBy(spans: seq<Span>): nat {
    if spans == [] then 0 else Saved(spans[0]) + SavedBy(spans[1..])
  }

  ghost function SetOf(spans: seq<Span>): set<Span> {
    set s | s in spans
  }

  /** An ordered list is a disjoint selection with the same total. */
  lemma {:induction false} OrderedIsSelection(reg: Registry, lo: nat, count: nat, spans: seq<Span>)
    requires Ordered(reg, lo, count, spans)
    ensures Selection(reg, lo, count, SetOf(spans)) && Total(SetOf(spans)) == SavedBy(spans)
    decreases |spans|
  {
    if spans == [] {
      assert SetOf(spans) == {};
    } else {
      var x, rest := spans[0], spans[1..];
      OrderedIsSelection(reg, x.end, count, rest);
      assert spans == [x] + rest;
      assert x !in SetOf(rest) by {
        assert !Fits(reg, x.end, count, x);
      }
      assert SetOf(spans) == SetOf(rest) + {x};
      SumRemove(SetOf(rest) + {x}, x, (s: Span) => Saved(s));
      assert SetOf(rest) + {x} - {x} == SetOf(rest);
    }
  }

  // ---- the dynamic program ----

  /** Every registered span, by begin, longer spans first. */
  method EnumerateCandidates(count: nat, reg: Registry) returns (candidates: seq<Span>)
    ensures forall s :: s in candidates <==> Fits(reg, 0, count, s)
  {
    candidates := [];
    var begin := 0;
    while begin + 1 < count
      invariant forall s :: s in candidates <==> Fits(reg, 0, count, s) && s.begin < begin
      decreases count - begin
    {
      var end := count;
      while end >= begin + 2
        invariant begin + 1 <= end <= count
        invariant forall s ::
          s in candidates <==> Fits(reg, 0, count, s) && (s.begin < begin || (s.begin == begin && s.end > end))
        decreases end
      {
        if reg(begin, end) {
          candidates := candidates + [Span(begin, end)];
        }
        end := end - 1;
      }
      begin := begin + 1;
    }
  }

  /** `best[k]` is at least what each first decision at k can lead to. */
  ghost predicate Closed(reg: Registry, count: nat, best: seq<nat>) {
    && |best| == count + 1
    && (forall k :: 0 <= k < count ==> best[k + 1] <= best[k])
    && (forall s :: Fits(reg, 0, count, s) ==> Saved(s) + best[s.end] <= best[s.begin])
  }

  /** No disjoint selection inside [lo, count) saves more than best[lo]. */
  lemma {:induction false} NoSelectionBeats(reg: Registry, count: nat, best: seq<nat>, lo: nat, sel: set<Span>)
    requires Closed(reg, count, best) && lo <= count && Selection(reg, lo, count, sel)
    ensures Total(sel) <= best[lo]
    decreases count - lo
  {
    var f := (s: Span) => Saved(s);
    if lo == count {
      assert forall s :: s in sel <==> s in sel && Fits(reg, lo, count, s);
      assert sel == {};
    } else if s :| s in sel && s.begin == lo {
      SumRemove(sel, s, f);
      forall t | t in sel - {s} ensures Fits(reg, s.end, count, t) {
        assert Apart(s, t) && Fits(reg, lo, count, t);
      }
      NoSelectionBeats(reg, count, best, s.end, sel - {s});
      assert Fits(reg, 0, count, s);
    } else {
      var next := lo + 1;
      NoSelectionBeats(reg, count, best, next, sel);
    }
  }

  /** How the table and the recorded decisions at positions >= lo fit together. */
  ghost predicate TableFrom(reg: Registry, candidates: seq<Span>, count: nat, lo: nat, best: seq<nat>,
                            choice: seq<int>) {
    && |best| == count + 1 && |choice| == count && lo <= count && best[count] == 0
    && forall k :: lo <= k < count ==> EntryOK(reg, candidates, count, k, |candidates|, best, choice)
  }

  /** Entry k after looking at the first `seen` candidates. */
  ghost predicate EntryOK(reg: Registry, candidates: seq<Span>, count: nat, k: nat, seen: nat, best: seq<nat>,
                          choice: seq<int>)
    requires |best| == count + 1 && |choice| == count && k < count && seen <= |candidates|
  {
    && best[k + 1] <= best[k]
    && (forall c :: 0 <= c < seen && candidates[c].begin == k && candidates[c].end <= count ==>
          Saved(candidates[c]) + best[candidates[c].end] <= best[k])
    && (if choice[k] < 0 then best[k] == best[k + 1] else
          && choice[k] < seen && candidates[choice[k]].begin == k && candidates[choice[k]].end <= count
          && best[k] == Saved(candidates[choice[k]]) + best[candidates[choice[k]].end])
  }

  /** One row of the table: no fusion at ri, then every candidate that begins there. */
  method FillEntry(count: nat, reg: Registry, candidates: seq<Span>, best: array<nat>, choice: array<int>, ri: nat)
    requires forall s :: s in candidates ==> Fits(reg, 0, count, s)
    requires best.Length == count + 1 && choice.Length == count && ri < count && choice[ri] == -1
    modifies best, choice
    ensures best[..] == old(best[..])[ri := best[ri]] && choice[..] == old(choice[..])[ri := choice[ri]]
    ensures EntryOK(reg, candidates, count, ri, |candidates|, best[..], choice[..])
  {
    best[ri] := best[ri + 1];
    for c := 0 to |candidates|
      invariant best[..] == old(best[..])[ri := best[ri]] && choice[..] == old(choice[..])[ri := choice[ri]]
      invariant EntryOK(reg, candidates, count, ri, c, best[..], choice[..])
    {
      if candidates[c].begin != ri {
        continue;
      }
      assert candidates[c] in candidates;
      var score := (candidates[c].end - candidates[c].begin - 1) + best[candidates[c].end];
      if score > best[ri] {
        best[ri] := score;
        choice[ri] := c;
      }
    }
  }

  /** A later row only looks at rows behind it. */
  lemma EntryKept(reg: Registry, candidates: seq<Span>, count: nat, k: nat, best: seq<nat>, choice: seq<int>, ri: nat,
                  b: nat, c: int)
    requires forall s :: s in candidates ==> Fits(reg, 0, count, s)
    requires |best| == count + 1 && |choice| == count && ri < k < count
    requires EntryOK(reg, candidates, count, k, |candidates|, best, choice)
    ensures EntryOK(reg, candidates, count, k, |candidates|, best[ri := b], choice[ri := c])
  {
    forall x | 0 <= x < |candidates| && candidates[x].begin == k ensures candidates[x].end > k {
      assert candidates[x] in candidates;
    }
  }

  /** The in-place table, filled from the back. */
  method FillTable(count: nat, reg: Registry, candidates: seq<Span>, best: array<nat>, choice: array<int>)
    requires forall s :: s in candidates <==> Fits(reg, 0, count, s)
    requires best.Length == count + 1 && choice.Length == count
    requires best[count] == 0
    requires forall k :: 0 <= k < count ==> choice[k] == -1
    modifies best, choice
    ensures TableFrom(reg, candidates, count, 0, best[..], choice[..])
  {
    var ri := count;
    while ri > 0
      invariant 0 <= ri <= count
      invariant forall k :: 0 <= k < ri ==> choice[k] == -1
      invariant TableFrom(reg, candidates, count, ri, best[..], choice[..])
    {
      ri := ri - 1;
      ghost var best0, choice0 := best[..], choice[..];
      FillEntry(count, reg, candidates, best, choice, ri);
      forall k | ri < k < count ensures EntryOK(reg, candidates, count, k, |candidates|, best[..], choice[..]) {
        assert EntryOK(reg, candidates, count, k, |candidates|, best0, choice0);
        EntryKept(reg, candidates, count, k, best0, choice0, ri, best[ri], choice[ri]);
      }
      assert forall k :: 0 <= k < ri ==> choice[..][k] == choice0[k];
    }
  }

  /** The walk over the recorded decisions, from position i on. */
  function WalkFrom(candidates: seq<Span>, choice: seq<int>, i: nat): seq<Span>
    decreases |choice| - i
  {
    if i >= |choice| then []
    else if choice[i] < 0 || choice[i] >= |candidates| || candidates[choice[i]].end <= i then WalkFrom(candidates,
        choice, i + 1)
    else [candidates[choice[i]]] + WalkFrom(candidates, choice, candidates[choice[i]].end)
  }

  lemma {:induction false} WalkAttainsBest(reg: Registry, candidates: seq<Span>, count: nat, best: seq<nat>,
                                           choice: seq<int>, i: nat)
    requires forall s :: s in candidates ==> Fits(reg, 0, count, s)
    requires TableFrom(reg, candidates, count, 0, best, choice) && i <= count
    ensures Ordered(reg, i, count, WalkFrom(candidates, choice, i))
    ensures SavedBy(WalkFrom(candidates, choice, i)) == best[i]
    decreases count - i
  {
    if i < count {
      assert EntryOK(reg, candidates, count, i, |candidates|, best, choice);
      if choice[i] < 0 {
        WalkAttainsBest(reg, candidates, count, best, choice, i + 1);
        OrderedWidens(reg, i + 1, i, count, WalkFrom(candidates, choice, i + 1));
      } else {
        var c := candidates[choice[i]];
        assert c in candidates;
        WalkAttainsBest(reg, candidates, count, best, choice, c.end);
      }
    }
  }

  lemma OrderedWidens(reg: Registry, lo: nat, lower: nat, count: nat, spans: seq<Span>)
    requires Ordered(reg, lo, count, spans) && lower <= lo
    ensures Ordered(reg, lower, count, spans)
  {
  }

  method Walk(candidates: seq<Span>, choice: array<int>) returns (spans: seq<Span>)
    requires forall i :: 0 <= i < choice.Length ==> choice[i] < |candidates|
    requires forall i :: 0 <= i < choice.Length && choice[i] >= 0 ==> i < candidates[choice[i]].end
    ensures spans == WalkFrom(candidates, choice[..], 0)
  {
    spans := [];
    var i := 0;
    while i < choice.Length
      invariant 0 <= i
      invariant spans + WalkFrom(candidates, choice[..], i) == WalkFrom(candidates, choice[..], 0)
      decreases choice.Length - i
    {
      if choice[i] < 0 {
        i := i + 1;
        continue;
      }
      spans := spans + [candidates[choice[i]]];
      i := candidates[choice[i]].end;
    }
  }

  /**
   * planAndInstallFusion() for one maximal chain: the spans it installs are registered, ordered
   * and disjoint, and no set of disjoint registered spans removes more launches.
   */
  method PlanFusion(count: nat, reg: Registry) returns (spans: seq<Span>)
    ensures Ordered(reg, 0, count, spans)
    ensures forall sel :: Selection(reg, 0, count, sel) ==> Total(sel) <= SavedBy(spans)
  {
    var candidates := EnumerateCandidates(count, reg);
    var best, choice := new nat[count + 1](_ => 0), new int[count](_ => -1);
    FillTable(count, reg, candidates, best, choice);
    TableIsClosed(reg, candidates, count, best[..], choice[..]);
    forall i | 0 <= i < count ensures choice[i] < |candidates| && (choice[i] >= 0 ==> i < candidates[choice[i]].end) {
      assert EntryOK(reg, candidates, count, i, |candidates|, best[..], choice[..]);
      if choice[i] >= 0 {
        assert candidates[choice[i]] in candidates;
      }
    }
    spans := Walk(candidates, choice);
    WalkAttainsBest(reg, candidates, count, best[..], choice[..], 0);
    forall sel | Selection(reg, 0, count, sel) ensures Total(sel) <= SavedBy(spans) {
      NoSelectionBeats(reg, count, best[..], 0, sel);
    }
  }

  lemma TableIsClosed(reg: Registry, candidates: seq<Span>, count: nat, best: seq<nat>, choice: seq<int>)
    requires forall s :: s in candidates <==> Fits(reg, 0, count, s)
    requires TableFrom(reg, candidates, count, 0, best, choice)
    ensures Closed(reg, count, best)
  {
    forall k | 0 <= k < count ensures best[k + 1] <= best[k] {
      assert EntryOK(reg, candidates, count, k, |candidates|, best, choice);
    }
    forall s | Fits(reg, 0, count, s) ensures Saved(s) + best[s.end] <= best[s.begin] {
      assert s in candidates;
      var c :| 0 <= c < |candidates| && candidates[c] == s;
      assert EntryOK(reg, candidates, count, s.begin, |candidates|, best, choice);
    }
  }

  // ---- the greedy scan of the inverse builder ----

  /** End of the longest registered span from `begin` that ends at most at `end`; 0 if none. */
  function LongestEnd(reg: Registry, begin: nat, end: nat): nat {
    if end < begin + 2 then 0 else if reg(begin, end) then end else LongestEnd(reg, begin, end - 1)
  }

  /** From each position the longest registered span, then on behind it; else one stage on. */
  function GreedyFrom(reg: Registry, count: nat, begin: nat): seq<Span>
    decreases count - begin
  {
    if begin + 1 >= count then [] else
      var end := LongestEnd(reg, begin, count);
      LongestEndInRange(reg, begin, count);
      if end == 0 then GreedyFrom(reg, count, begin + 1)
      else [Span(begin, end)] + GreedyFrom(reg, count, end)
  }

  lemma {:induction false} LongestEndInRange(reg: Registry, begin: nat, end: nat)
    ensures var e := LongestEnd(reg, begin, end);
      if e == 0 then forall x :: begin + 2 <= x <= end ==> !reg(begin, x)
      else begin + 2 <= e <= end && reg(begin, e) && forall x :: e < x <= end ==> !reg(begin, x)
    decreases end
  {
    if end >= begin + 2 && !reg(begin, end) {
      LongestEndInRange(reg, begin, end - 1);
    }
  }

  method SelectGreedily(count: nat, reg: Registry) returns (spans: seq<Span>)
    ensures spans == GreedyFrom(reg, count, 0)
  {
    spans := [];
    var begin := 0;
    while begin + 1 < count
      invariant 0 <= begin
      invariant spans + GreedyFrom(reg, count, begin) == GreedyFrom(reg, count, 0)
      decreases count - begin
    {
      var selected, end := false, count;
      while end >= begin + 2 && !selected
        invariant begin + 1 <= end <= count
        invariant selected ==> end >= begin + 2 && LongestEnd(reg, begin, count) == end
        invariant !selected ==> LongestEnd(reg, begin, count) == LongestEnd(reg, begin, end)
        decreases end, !selected
      {
        if reg(begin, end) {
          selected := true;
        } else {
          end := end - 1;
        }
      }
      if !selected {
        begin := begin + 1;
        continue;
      }
      spans := spans + [Span(begin, end)];
      begin := end;
    }
  }

  ghost predicate Hit(s: Span, spans: seq<Span>) {
    exists t :: t in spans && !Apart(s, t)
  }

  /** The greedy spans are registered, ordered and disjoint, and every registered span overlaps one. */
  lemma {:induction false} GreedyIsMaximal(reg: Registry, count: nat, begin: nat)
    ensures Ordered(reg, begin, count, GreedyFrom(reg, count, begin))
    ensures forall s :: Fits(reg, begin, count, s) ==> Hit(s, GreedyFrom(reg, count, begin))
    decreases count - begin
  {
    if begin + 1 < count {
      LongestEndInRange(reg, begin, count);
      var end := LongestEnd(reg, begin, count);
      if end == 0 {
        GreedyIsMaximal(reg, count, begin + 1);
        OrderedWidens(reg, begin + 1, begin, count, GreedyFrom(reg, count, begin + 1));
      } else {
        GreedyIsMaximal(reg, count, end);
        PrependSpan(reg, count, Span(begin, end), GreedyFrom(reg, count, end));
      }
    }
  }

  lemma PrependSpan(reg: Registry, count: nat, first: Span, rest: seq<Span>)
    requires Fits(reg, first.begin, count, first) && Ordered(reg, first.end, count, rest)
    requires forall s :: Fits(reg, first.end, count, s) ==> Hit(s, rest)
    ensures Ordered(reg, first.begin, count, [first] + rest)
    ensures forall s :: Fits(reg, first.begin, count, s) ==> Hit(s, [first] + rest)
  {
    var r := [first] + rest;
    assert r[1..] == rest;
    forall s | Fits(reg, first.begin, count, s) ensures Hit(s, r) {
      if s.begin >= first.end {
        assert Hit(s, rest);
        var t :| t in rest && !Apart(s, t);
        assert t in r;
      } else {
        assert first in r && !Apart(s, first);
      }
    }
  }

  /** On one chain and registry the planner never saves less than the greedy scan. */
  lemma PlannerAtLeastGreedy(reg: Registry, count: nat, planned: seq<Span>)
    requires forall sel :: Selection(reg, 0, count, sel) ==> Total(sel) <= SavedBy(planned)
    ensures SavedBy(GreedyFrom(reg, count, 0)) <= SavedBy(planned)
  {
    GreedyIsMaximal(reg, count, 0);
    OrderedIsSelection(reg, 0, count, GreedyFrom(reg, count, 0));
  }

  /** The gap is real: with [0,2) and [1,5) registered the greedy scan saves 1 launch, the best is 3. */
  lemma GreedyCanLose()
    ensures exists reg: Registry ::
      GreedyFrom(reg, 5, 0) == [Span(0, 2)] && SavedBy([Span(0, 2)]) == 1 &&
      Ordered(reg, 0, 5, [Span(1, 5)]) && SavedBy([Span(1, 5)]) == 3
  {
    var reg: Registry := (b, e) => (b == 0 && e == 2) || (b == 1 && e == 5);
    LongestEndInRange(reg, 0, 5);
    LongestEndInRange(reg, 2, 5);
    LongestEndInRange(reg, 3, 5);
    assert LongestEnd(reg, 0, 5) == 2 && LongestEnd(reg, 2, 5) == 0 && LongestEnd(reg, 3, 5) == 0;
    assert GreedyFrom(reg, 5, 4) == [] == GreedyFrom(reg, 5, 3) == GreedyFrom(reg, 5, 2);
    assert [Span(0, 2)][1..] == [] == [Span(1, 5)][1..];
    assert GreedyFrom(reg, 5, 0) == [Span(0, 2)] && Ordered(reg, 0, 5, [Span(1, 5)]);
  }
}
