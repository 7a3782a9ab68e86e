/**
 * The few pieces of Rust's string library that the note application relies on:
 * decimal formatting of a `usize` (`format!("{}", n)`), `str::trim_end_matches`,
 * `str::to_lowercase` (restricted here to ASCII letters) and `str::contains`.
 */
module Text {

  predicate IsDigit(c: char) {
    '0' <= c <= '9'
  }

  function DigitChar(d: nat): (c: char)
    requires d < 10
    ensures IsDigit(c)
  {
    ('0' as int + d) as char
  }

  function DigitValue(c: char): (d: nat)
    requires IsDigit(c)
    ensures d < 10 && DigitChar(d) == c
  {
    c as int - '0' as int
  }

  predicate AllDigits(s: string) {
    forall k :: 0 <= k < |s| ==> IsDigit(s[k])
  }

  /** The decimal text of `n`, as `format!("{}", n)` writes it: digits only, no leading zero. */
  function Decimal(n: nat): (r: string)
    ensures |r| > 0 && AllDigits(r)
    ensures r[|r| - 1] == DigitChar(n % 10)
    ensures r[0] == '0' ==> n == 0
    decreases n
  {
    if n < 10 then [DigitChar(n)] else Decimal(n / 10) + [DigitChar(n % 10)]
  }

  /** Reads a string of digits back as a number: the inverse of `Decimal`. */
  function ParseDecimal(s: string): nat
    requires AllDigits(s)
    decreases |s|
  {
    if s == [] then 0 else ParseDecimal(s[..|s| - 1]) * 10 + DigitValue(s[|s| - 1])
  }

  lemma {:induction false} ParseDecimalOfDecimal(n: nat)
    ensures ParseDecimal(Decimal(n)) == n
    decreases n
  {
    var r := Decimal(n);
    if n >= 10 {
      ParseDecimalOfDecimal(n / 10);
      assert r[..|r| - 1] == Decimal(n / 10);
    }
  }

  /** Formatting is injective: different counts give different texts. */
  lemma DecimalInjective(m: nat, n: nat)
    requires Decimal(m) == Decimal(n)
    ensures m == n
  {
    ParseDecimalOfDecimal(m);
    ParseDecimalOfDecimal(n);
  }

  predicate EndsWith(s: string, suffix: string) {
    |suffix| <= |s| && s[|s| - |suffix|..] == suffix
  }

  /** `k` copies of `p`, one after the other. */
  function Repeat(p: string, k: nat): string {
    if k == 0 then [] else Repeat(p, k - 1) + p
  }

  /**
   * `s.trim_end_matches(suffix)`: strips `suffix` from the end as long as it is
   * there. An empty pattern strips nothing.
   */
  function TrimEndMatches(s: string, suffix: string): (r: string)
    ensures |r| <= |s| && r == s[..|r|]
    ensures suffix != [] ==> !EndsWith(r, suffix)
    ensures !EndsWith(s, suffix) ==> r == s
    decreases |s|
  {
    if suffix != [] && EndsWith(s, suffix) then
      TrimEndMatches(s[..|s| - |suffix|], suffix)
    else
      s
  }

  lemma RepeatOneMore(r: string, p: string, k: nat)
    ensures (r + Repeat(p, k)) + p == r + Repeat(p, k + 1)
  {
    assert Repeat(p, k + 1) == Repeat(p, k) + p;
  }

  /** How many copies of the pattern `s.trim_end_matches(suffix)` strips. */
  function TrimmedCopies(s: string, suffix: string): nat
    decreases |s|
  {
    if suffix != [] && EndsWith(s, suffix) then
      TrimmedCopies(s[..|s| - |suffix|], suffix) + 1
    else
      0
  }

  /** What trimming removes is a number of whole copies of the pattern, nothing else. */
  lemma {:induction false} TrimEndMatchesRemovesCopies(s: string, suffix: string)
    ensures s == TrimEndMatches(s, suffix) + Repeat(suffix, TrimmedCopies(s, suffix))
    decreases |s|
  {
    if suffix != [] && EndsWith(s, suffix) {
      var t := s[..|s| - |suffix|];
      var r := TrimEndMatches(t, suffix);
      var k := TrimmedCopies(t, suffix);
      TrimEndMatchesRemovesCopies(t, suffix);
      assert s == t + suffix;
      RepeatOneMore(r, suffix, k);
    }
  }

  /** Trimming a suffix that was appended once to a text not ending in it gives the text back. */
  lemma TrimEndMatchesOfAppend(t: string, suffix: string)
    requires suffix != [] && !EndsWith(t, suffix)
    ensures TrimEndMatches(t + suffix, suffix) == t
  {
    var s := t + suffix;
    assert EndsWith(s, suffix) by {
      assert s[|s| - |suffix|..] == suffix;
    }
    assert s[..|s| - |suffix|] == t;
  }

  predicate IsUpper(c: char) {
    'A' <= c <= 'Z'
  }

  /** ASCII case folding of one character. */
  function LowerChar(c: char): (r: char)
    ensures !IsUpper(r)
    ensures !IsUpper(c) ==> r == c
    ensures IsUpper(c) ==> r as int == c as int + 32
  {
    if IsUpper(c) then (c as int + 32) as char else c
  }

  /** `s.to_lowercase()`, folding ASCII letters only. */
  function Lower(s: string): (r: string)
    ensures |r| == |s|
    ensures forall k :: 0 <= k < |s| ==> r[k] == LowerChar(s[k])
  {
    seq(|s|, k requires 0 <= k < |s| => LowerChar(s[k]))
  }

  lemma LowerIdempotent(s: string)
    ensures Lower(Lower(s)) == Lower(s)
  {
  }

  lemma LowerSlice(s: string, a: nat, b: nat)
    requires a <= b <= |s|
    ensures Lower(s)[a..b] == Lower(s[a..b])
  {
  }

  /** `needle` occurs in `hay` starting at position `k`. */
  predicate OccursAt(hay: string, needle: string, k: nat) {
    k + |needle| <= |hay| && hay[k..k + |needle|] == needle
  }

  lemma OccursShift(hay: string, needle: string)
    requires |hay| > 0
    ensures forall k: nat :: OccursAt(hay[1..], needle, k) <==> OccursAt(hay, needle, k + 1)
  {
    forall k: nat
      ensures OccursAt(hay[1..], needle, k) <==> OccursAt(hay, needle, k + 1)
    {
      if k + |needle| <= |hay[1..]| {
        assert hay[1..][k..k + |needle|] == hay[k + 1..k + 1 + |needle|];
      }
    }
  }

  /** `hay.contains(needle)`: true exactly when `needle` occurs somewhere in `hay`. */
  function Contains(hay: string, needle: string): (r: bool)
    ensures r <==> exists k: nat :: OccursAt(hay, needle, k)
    decreases |hay|
  {
    if |needle| > |hay| then
      false
    else if hay[..|needle|] == needle then
      assert OccursAt(hay, needle, 0);
      true
    else
      OccursShift(hay, needle);
      var r := Contains(hay[1..], needle);
      assert r ==> exists k: nat :: OccursAt(hay, needle, k) by {
        if r {
          var k: nat :| OccursAt(hay[1..], needle, k);
          assert OccursAt(hay, needle, k + 1);
        }
      }
      assert (exists k: nat :: OccursAt(hay, needle, k)) ==> r by {
        if exists k: nat :: OccursAt(hay, needle, k) {
          var k: nat :| OccursAt(hay, needle, k);
          assert k != 0;
          assert OccursAt(hay[1..], needle, k - 1);
        }
      }
      r
  }

  /** A verbatim occurrence is still an occurrence once both sides are lowercased. */
  lemma {:induction false} ContainsLower(hay: string, needle: string)
    requires Contains(hay, needle)
    ensures Contains(Lower(hay), Lower(needle))
  {
    var k: nat :| OccursAt(hay, needle, k);
    LowerSlice(hay, k, k + |needle|);
    assert OccursAt(Lower(hay), Lower(needle), k);
  }
}
