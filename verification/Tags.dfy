/**
 * The "inv_ext_<id>" tags that tie an inverse DAG's external inputs to forward buffer ids
 * (printed at src/pipeline/compressor_inverse_dag.cpp:94-97, parsed at src/pipeline/compressor_exec.cpp:675-685).
 */
module Tags {
  import opened Values

  const INT_MIN: int := -0x8000_0000
  const INT_MAX: int := 0x7fff_ffff
  const PREFIX: string := "inv_ext_"

  predicate IsDigit(c: char) {
    '0' <= c <= '9'
  }

  function DigitOf(n: nat): char
    requires n < 10
  {
    '0' + n as char
  }

  function Decimal(n: nat): string {
    if n < 10 then [DigitOf(n)] else Decimal(n / 10) + [DigitOf(n % 10)]
  }

  /** std::to_string(int). */
  function ToString(i: int): string {
    if i < 0 then "-" + Decimal(-i) else Decimal(i)
  }

  function DigitValue(c: char): nat {
    if IsDigit(c) then c as int - '0' as int else 0
  }

  function DigitsValue(s: string): nat {
    if s == [] then 0 else DigitsValue(s[..|s| - 1]) * 10 + DigitValue(s[|s| - 1])
  }

  /** How many characters from `i` on are digits. */
  function DigitRun(s: string, i: nat): nat
    decreases |s| - i
  {
    if i < |s| && IsDigit(s[i]) then 1 + DigitRun(s, i + 1) else 0
  }

  lemma {:induction false} DigitRunIsDigits(s: string, i: nat)
    requires i <= |s|
    ensures i + DigitRun(s, i) <= |s| && forall k :: i <= k < i + DigitRun(s, i) ==> IsDigit(s[k])
    ensures (forall k :: i <= k < |s| ==> IsDigit(s[k])) ==> i + DigitRun(s, i) == |s|
    decreases |s| - i
  {
    if i < |s| && IsDigit(s[i]) {
      DigitRunIsDigits(s, i + 1);
    }
  }

  predicate IsSpace(c: char) {
    c == ' ' || c == '\t' || c == '\n' || c == '\r'
  }

  function SkipSpace(s: string, i: nat): nat
    decreases |s| - i
  {
    if i < |s| && IsSpace(s[i]) then SkipSpace(s, i + 1) else i
  }

  /** std::stoi: blanks, a sign, the longest run of digits; None where it throws. */
  function Stoi(s: string): Option<int> {
    var i := SkipSpace(s, 0);
    if i < |s| && (s[i] == '-' || s[i] == '+') then ReadDigits(s, i + 1, s[i] == '-') else ReadDigits(s, i, false)
  }

  function Signed(negative: bool, magnitude: int): int {
    if negative then -magnitude else magnitude
  }

  function ReadDigits(s: string, start: nat, negative: bool): Option<int> {
    if start >= |s| || DigitRun(s, start) == 0 then None else
      DigitRunIsDigits(s, start);
      var v := Signed(negative, DigitsValue(s[start..start + DigitRun(s, start)]));
      if INT_MIN <= v <= INT_MAX then Some(v) else None
  }

  lemma {:induction false} DecimalReadsBack(n: nat)
    ensures |Decimal(n)| > 0 && forall i :: 0 <= i < |Decimal(n)| ==> IsDigit(Decimal(n)[i])
    ensures DigitsValue(Decimal(n)) == n
  {
    if n < 10 {
      assert Decimal(n)[..0] == "";
    } else {
      DecimalReadsBack(n / 10);
      assert Decimal(n)[..|Decimal(n)| - 1] == Decimal(n / 10);
    }
  }

  lemma ReadAllDigits(s: string, start: nat, negative: bool, n: nat)
    requires start < |s| && s[start..] == Decimal(n)
    requires INT_MIN <= Signed(negative, n) <= INT_MAX
    ensures ReadDigits(s, start, negative) == Some(Signed(negative, n))
  {
    DecimalReadsBack(n);
    forall k | start <= k < |s| ensures IsDigit(s[k]) {
      assert s[k] == s[start..][k - start];
    }
    DigitRunIsDigits(s, start);
    assert s[start..start + DigitRun(s, start)] == s[start..];
  }

  /** Printing and parsing an id are inverse on every 32-bit int. */
  lemma StoiOfToString(i: int)
    requires INT_MIN <= i <= INT_MAX
    ensures Stoi(ToString(i)) == Some(i)
  {
    var n: nat := if i < 0 then -i else i;
    var s := ToString(i);
    DecimalReadsBack(n);
    if i < 0 {
      assert s[0] == '-' && s[1..] == Decimal(n);
      ReadAllDigits(s, 1, true, n);
    } else {
      assert s[0..] == Decimal(n) && IsDigit(s[0]);
      ReadAllDigits(s, 0, false, n);
    }
  }

  function InvTag(id: int): string {
    PREFIX + ToString(id)
  }

  /** The forward id a tag names, if it is longer than the prefix, starts with it and parses. */
  function ParseTag(tag: string): Option<int> {
    if |tag| > 8 && tag[..8] == PREFIX then Stoi(tag[8..]) else None
  }

  /** Tags are one-to-one: each parses back to the id it was printed from. */
  lemma TagRoundTrip(id: int)
    requires INT_MIN <= id <= INT_MAX
    ensures ParseTag(InvTag(id)) == Some(id)
  {
    StoiOfToString(id);
    var n: nat := if id < 0 then -id else id;
    DecimalReadsBack(n);
    assert InvTag(id)[..8] == PREFIX && InvTag(id)[8..] == ToString(id);
  }
}
