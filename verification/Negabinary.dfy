/**
 * Base -2 coding by repeated division (examples/integer_transforms_intro.cpp:94-116): why the loop
 * stops, how many digits it needs, and that decoding undoes it in both directions.
 */
module Negabinary {
  import opened Values
  import opened Arithmetic

  const INT32_MIN: int := -0x8000_0000
  const INT32_MAX: int := 0x7fff_ffff

  /** The largest number with 32 base -2 digits, (4^16 - 1) / 3. */
  const LARGEST: int := 1431655765

  /** |n| alone does not decrease: -1 steps to 1. */
  function Measure(n: int): nat {
    if n < 0 then -2 * n + 1 else 2 * n
  }

  /** One round of the loop: strip the digit n % 2 and divide by -2. */
  function Step(n: int): int {
    (n - n % 2) / -2
  }

  lemma StepDecreases(n: int)
    requires n != 0
    ensures Measure(Step(n)) < Measure(n)
    ensures n == n % 2 - 2 * Step(n)
  {
  }

  /** The digits of `n`, lowest first. */
  function Digits(n: int): seq<nat>
    decreases Measure(n)
  {
    if n == 0 then [] else
      StepDecreases(n);
      [n % 2] + Digits(Step(n))
  }

  /** The number a digit list stands for. */
  function ValueOf(digits: seq<nat>): int {
    if digits == [] then 0 else digits[0] - 2 * ValueOf(digits[1..])
  }

  ghost predicate Binary(digits: seq<nat>) {
    forall i :: 0 <= i < |digits| ==> digits[i] < 2
  }

  /** The machine word with digit `i` at bit `i`. */
  function Word(digits: seq<nat>): nat {
    if digits == [] then 0 else digits[0] + 2 * Word(digits[1..])
  }

  // ---- decoding undoes encoding, and conversely ----

  lemma {:induction false} DigitsStandFor(n: int)
    ensures ValueOf(Digits(n)) == n && Binary(Digits(n))
    decreases Measure(n)
  {
    if n != 0 {
      StepDecreases(n);
      DigitsStandFor(Step(n));
      assert Digits(n)[1..] == Digits(Step(n));
    }
  }

  lemma StepOf(d: nat, m: int)
    requires d < 2
    ensures (d - 2 * m) % 2 == d && Step(d - 2 * m) == m
  {
  }

  /** Re-encoding what a word stands for gives the word back (leading zeros aside). */
  lemma {:induction false} EncodingUndoesDecoding(digits: seq<nat>)
    requires Binary(digits)
    ensures Word(Digits(ValueOf(digits))) == Word(digits)
  {
    if digits != [] {
      var n, m := ValueOf(digits), ValueOf(digits[1..]);
      EncodingUndoesDecoding(digits[1..]);
      StepOf(digits[0], m);
      if n != 0 {
        assert Digits(n)[1..] == Digits(m);
      }
    }
  }

  // ---- how many digits ----

  /** The smallest and the largest number with at most `k` digits. */
  function Lowest(k: nat): int {
    if k == 0 then 0 else -2 * Highest(k - 1)
  }

  function Highest(k: nat): int {
    if k == 0 then 0 else 1 - 2 * Lowest(k - 1)
  }

  lemma {:induction false} DigitCountIff(n: int, k: nat)
    ensures |Digits(n)| <= k <==> Lowest(k) <= n <= Highest(k)
    decreases k
  {
    if k == 0 {
      assert |Digits(n)| == 0 <==> n == 0;
    } else if n == 0 {
      ZeroIsInRange(k);
    } else {
      StepDecreases(n);
      DigitCountIff(Step(n), k - 1);
    }
  }

  lemma {:induction false} ZeroIsInRange(k: nat)
    ensures Lowest(k) <= 0 <= Highest(k)
  {
    if k > 0 {
      ZeroIsInRange(k - 1);
    }
  }

  lemma WordRange()
    ensures Highest(32) == LARGEST && Lowest(32) == -2 * LARGEST
  {
    assert Highest(8) == 85 && Lowest(8) == -170;
    assert Highest(16) == 21845 && Lowest(16) == -43690;
    assert Highest(24) == 5592405 && Lowest(24) == -11184810;
  }

  // ---- bits of a word ----

  function Pow2(k: nat): (r: nat)
    ensures r > 0
  {
    if k == 0 then 1 else 2 * Pow2(k - 1)
  }

  /** The low `k` bits of `w`. */
  function BitsOf(w: nat, k: nat): (r: seq<nat>)
    ensures |r| == k && Binary(r)
  {
    seq(k, i requires 0 <= i < k => w / Pow2(i) % 2)
  }

  lemma NextBitOf(w: nat, i: nat, next: nat)
    requires next == i + 1
    ensures w / Pow2(next) == w / 2 / Pow2(i)
  {
    DivTwice(w, 2, Pow2(i));
  }

  lemma {:induction false} BitsRoundTrip(w: nat, k: nat)
    requires w < Pow2(k)
    ensures Word(BitsOf(w, k)) == w
  {
    if k > 0 {
      var rest, half, bits := k - 1, w / 2, BitsOf(w, k);
      forall i | 0 <= i < rest ensures bits[1..][i] == BitsOf(half, rest)[i] {
        NextBitOf(w, i, i + 1);
      }
      assert bits[1..] == BitsOf(half, rest);
      BitsRoundTrip(half, rest);
      assert bits[0] == w % 2;
    }
  }

  lemma {:induction false} WordInRange(digits: seq<nat>)
    requires Binary(digits)
    ensures Word(digits) < Pow2(|digits|)
  {
    if digits != [] {
      WordInRange(digits[1..]);
    }
  }

  lemma {:induction false} PowersGrow(a: nat, b: nat)
    requires a <= b
    ensures Pow2(a) <= Pow2(b)
    decreases b
  {
    if a < b {
      PowersGrow(a, b - 1);
    }
  }

  /** The word of a digit list has those digits as its bits, with zeros above. */
  lemma {:induction false} BitsOfWord(digits: seq<nat>, k: nat)
    requires Binary(digits) && |digits| <= k
    ensures ValueOf(BitsOf(Word(digits), k)) == ValueOf(digits)
    decreases k
  {
    var w := Word(digits);
    if k > 0 {
      var rest, bits := k - 1, BitsOf(w, k);
      var half := w / 2;
      forall i | 0 <= i < rest ensures bits[1..][i] == BitsOf(half, rest)[i] {
        NextBitOf(w, i, i + 1);
      }
      assert bits[1..] == BitsOf(half, rest) && bits[0] == w % 2;
      BitsOfWord(if digits == [] then [] else digits[1..], rest);
    }
  }

  // ---- the loops ----

  function PowMinus2(k: nat): int {
    if k == 0 then 1 else -2 * PowMinus2(k - 1)
  }

  function Times(bit: nat, place: int): int {
    if bit == 0 then 0 else place
  }

  lemma {:induction false} AppendDigit(digits: seq<nat>, r: nat)
    requires r < 2
    ensures Word(digits + [r]) == Word(digits) + Times(r, Pow2(|digits|))
    ensures ValueOf(digits + [r]) == ValueOf(digits) + Times(r, PowMinus2(|digits|))
  {
    if digits == [] {
      assert [r][1..] == [] && digits + [r] == [r];
    } else {
      var rest := digits[1..];
      AppendDigit(rest, r);
      assert (digits + [r])[1..] == rest + [r];
    }
  }

  /** Conversion to int32_t keeps the low 32 bits. */
  function ToInt32(n: int): int {
    var low := n % 0x1_0000_0000;
    if low > INT32_MAX then low - 0x1_0000_0000 else low
  }

  function Encoded(x: int): nat {
    Word(Digits(x))
  }

  function Decoded(w: nat): int {
    ToInt32(ValueOf(BitsOf(w, 32)))
  }

  /** `digits` holds the first `bit` digits of `x`; the rest of its digits are those of `n`. */
  ghost predicate Stripped(x: int, n: int, stripped: seq<nat>, digits: nat, bit: nat) {
    stripped + Digits(n) == Digits(x) && |stripped| == bit && digits == Word(stripped)
  }

  lemma StripOne(x: int, n: int, stripped: seq<nat>, digits: nat, bit: nat, r: nat)
    requires Stripped(x, n, stripped, digits, bit) && n != 0 && r == n % 2
    ensures Stripped(x, Step(n), stripped + [r], digits + (if r == 1 then Pow2(bit) else 0), bit + 1)
  {
    AppendDigit(stripped, r);
    assert stripped + ([r] + Digits(Step(n))) == stripped + [r] + Digits(Step(n));
  }

  /**
   * negabinaryEncode(). `bit` counts the digits; the shifts stay inside the 32-bit word, and the
   * result is a 32-bit word, exactly when x is at most LARGEST.
   */
  method NegabinaryEncode(x: int) returns (digits: nat, bit: nat)
    requires INT32_MIN <= x <= INT32_MAX
    ensures digits == Encoded(x) && bit == |Digits(x)|
    ensures bit <= 32 <==> x <= LARGEST
    ensures bit <= 32 ==> digits < TWO_TO_THE_32
  {
    var n := x;
    digits, bit := 0, 0;
    ghost var stripped: seq<nat> := [];
    while n != 0
      invariant Stripped(x, n, stripped, digits, bit)
      decreases Measure(n)
    {
      var r := n % 2;
      StepDecreases(n);
      StripOne(x, n, stripped, digits, bit, r);
      digits := digits + (if r == 1 then Pow2(bit) else 0);
      stripped := stripped + [r];
      n := (n - r) / -2;
      bit := bit + 1;
    }
    assert stripped + [] == stripped;
    DigitsOfInt32(x);
  }

  /** A number needs at most 32 digits exactly up to LARGEST. */
  lemma DigitsOfInt32(x: int)
    requires INT32_MIN <= x <= INT32_MAX
    ensures |Digits(x)| <= 32 <==> x <= LARGEST
    ensures |Digits(x)| <= 32 ==> Word(Digits(x)) < TWO_TO_THE_32
  {
    var k := 32;
    DigitCountIff(x, k);
    WordRange();
    DigitsStandFor(x);
    WordInRange(Digits(x));
    if |Digits(x)| <= k {
      PowersGrow(|Digits(x)|, k);
      WordLimit();
    }
  }

  lemma WordLimit()
    ensures Pow2(32) == TWO_TO_THE_32
  {
    assert Pow2(8) == 256 && Pow2(16) == 65536 && Pow2(24) == 16777216;
  }

  /** negabinaryDecode(). */
  method NegabinaryDecode(digits: nat) returns (x: int)
    ensures x == Decoded(digits)
  {
    var n, place := 0, 1;
    for bit := 0 to 32
      invariant n == ValueOf(BitsOf(digits, bit)) && place == PowMinus2(bit)
    {
      ghost var next := bit + 1;
      AppendDigit(BitsOf(digits, bit), digits / Pow2(bit) % 2);
      assert BitsOf(digits, next) == BitsOf(digits, bit) + [digits / Pow2(bit) % 2];
      if digits / Pow2(bit) % 2 == 1 {
        n := n + place;
      }
      place := place * -2;
    }
    x := ToInt32(n);
  }

  /** Every int32 up to LARGEST survives encoding and decoding. */
  lemma NegabinaryRoundTrip(x: int)
    requires INT32_MIN <= x <= LARGEST
    ensures Decoded(Encoded(x)) == x
  {
    DigitsOfInt32(x);
    RoundTripWithin(x, 32);
    CastIsIdentity(x);
  }

  lemma CastIsIdentity(n: int)
    requires INT32_MIN <= n <= INT32_MAX
    ensures ToInt32(n) == n
  {
  }

  lemma RoundTripWithin(x: int, k: nat)
    requires |Digits(x)| <= k
    ensures ValueOf(BitsOf(Word(Digits(x)), k)) == x
  {
    DigitsStandFor(x);
    BitsOfWord(Digits(x), k);
  }

  /** Before the cast, different 32-bit words stand for different numbers. */
  lemma DecodeIsInjective(v: nat, w: nat, k: nat)
    requires v < Pow2(k) && w < Pow2(k) && ValueOf(BitsOf(v, k)) == ValueOf(BitsOf(w, k))
    ensures v == w
  {
    EncodingUndoesDecoding(BitsOf(v, k));
    EncodingUndoesDecoding(BitsOf(w, k));
    BitsRoundTrip(v, k);
    BitsRoundTrip(w, k);
  }
}
