/** Sums over finite sets and sequences, used to compare totals. */
module Sums {

  /** Some element of a nonempty set. */
  ghost function Pick<T>(s: set<T>): (x: T)
    requires s != {}
    ensures x in s
  {
    var x :| x in s; x
  }

  ghost function Sum<T>(s: set<T>, f: T -> nat): nat
    decreases |s|
  {
    if s == {} then 0 else
      var x := Pick(s);
      f(x) + Sum(s - {x}, f)
  }

  function SumSeq(s: seq<nat>): nat {
    if s == [] then 0 else SumSeq(s[..|s| - 1]) + s[|s| - 1]
  }

  lemma {:induction false} SumRemove<T>(s: set<T>, x: T, f: T -> nat)
    requires x in s
    ensures Sum(s, f) == f(x) + Sum(s - {x}, f)
    decreases |s|
  {
    var y := Pick(s);
    if y != x {
      SumRemove(s - {y}, x, f);
      SumRemove(s - {x}, y, f);
      assert s - {y} - {x} == s - {x} - {y};
    }
  }

  /** Items of distinct colors, each no larger than its color's bin, fit in all bins together. */
  lemma {:induction false} DistinctColorsFit(s: set<int>, f: int -> nat, color: int -> int, bins: seq<nat>)
    requires forall x :: x in s ==> 0 <= color(x) < |bins| && f(x) <= bins[color(x)]
    requires forall x, y :: x in s && y in s && x != y ==> color(x) != color(y)
    ensures Sum(s, f) <= SumSeq(bins)
    decreases |bins|
  {
    if bins == [] {
      assert forall x :: x in s <==> x in s && 0 <= color(x) < |bins|;
      assert s == {};
    } else {
      var last := |bins| - 1;
      if x :| x in s && color(x) == last {
        SumRemove(s, x, f);
        DistinctColorsFit(s - {x}, f, color, bins[..last]);
      } else {
        DistinctColorsFit(s, f, color, bins[..last]);
      }
    }
  }

  ghost predicate FilledBy(s: set<int>, f: int -> nat, color: int -> int, c: int, bytes: nat) {
    exists x :: x in s && color(x) == c && f(x) == bytes
  }

  /** Bins that are each as large as one of their items are together no larger than all items. */
  lemma {:induction false} BinsAreFilled(s: set<int>, f: int -> nat, color: int -> int, bins: seq<nat>)
    requires forall c :: 0 <= c < |bins| ==> FilledBy(s, f, color, c, bins[c])
    ensures SumSeq(bins) <= Sum(s, f)
    decreases |bins|
  {
    if bins != [] {
      var last := |bins| - 1;
      assert FilledBy(s, f, color, last, bins[last]);
      var x :| x in s && color(x) == last && f(x) == bins[last];
      forall c | 0 <= c < last
        ensures FilledBy(s - {x}, f, color, c, bins[c])
      {
        assert FilledBy(s, f, color, c, bins[c]);
        var y :| y in s && color(y) == c && f(y) == bins[c];
        assert y in s - {x};
      }
      BinsAreFilled(s - {x}, f, color, bins[..last]);
      SumRemove(s, x, f);
    }
  }
}
