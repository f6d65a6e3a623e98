/**
 * The two pieces of Python text handling the chart colours rely on:
 * formatting a non-negative int the way an f-string does (`f'{x}'`), and
 * `str.replace`, which rewrites every non-overlapping occurrence of a
 * pattern, scanning left to right.
 */
module Text {

  /** The character of the decimal digit d. */
  function DigitChar(d: nat): (c: char)
    requires d < 10
    ensures '0' <= c <= '9'
    ensures c as int - '0' as int == d
  {
    ('0' as int + d) as char
  }

  predicate IsDigits(s: string)
  {
    forall i :: 0 <= i < |s| ==> '0' <= s[i] <= '9'
  }

  /** Decimal notation of n: no sign, no leading zero, no point. */
  function Decimal(n: nat): (s: string)
    ensures |s| > 0 && IsDigits(s)
    ensures s[0] == '0' ==> n == 0 && s == "0"
    decreases n
  {
    if n < 10 then [DigitChar(n)] else Decimal(n / 10) + [DigitChar(n % 10)]
  }

  /** The number a string of digits denotes. */
  function DecimalValue(s: string): (v: nat)
    requires IsDigits(s)
  {
    if s == [] then 0
    else DecimalValue(s[..|s| - 1]) * 10 + (s[|s| - 1] as int - '0' as int)
  }

  /** Reading back what Decimal wrote gives the number again. */
  lemma {:induction false} DecimalRoundTrip(n: nat)
    ensures DecimalValue(Decimal(n)) == n
    decreases n
  {
    if n >= 10 {
      DecimalRoundTrip(n / 10);
      var s := Decimal(n);
      assert s[..|s| - 1] == Decimal(n / 10);
    }
  }

  /** OccursAt(s, pat, i): pat stands in s at position i. */
  predicate OccursAt(s: string, pat: string, i: nat)
  {
    i + |pat| <= |s| && s[i..i + |pat|] == pat
  }

  /**
   * Python's s.replace(pat, rep): scan left to right; where pat starts,
   * emit rep and skip past it, otherwise copy one character. An empty pat
   * matches before every character and at the end.
   */
  function Replace(s: string, pat: string, rep: string): (r: string)
    ensures |rep| == |pat| ==> |r| == |s|
  {
    if |pat| == 0 then InsertEverywhere(s, rep) else ReplaceNonEmpty(s, pat, rep)
  }

  /** s.replace("", rep): rep before every character and at the end. */
  function InsertEverywhere(s: string, rep: string): (r: string)
    ensures |r| == |s| + (|s| + 1) * |rep|
  {
    if s == [] then rep else rep + [s[0]] + InsertEverywhere(s[1..], rep)
  }

  /** s.replace(pat, rep) for a pattern that is not empty. */
  function ReplaceNonEmpty(s: string, pat: string, rep: string): (r: string)
    requires |pat| > 0
    ensures |rep| == |pat| ==> |r| == |s|
    decreases |s|
  {
    if OccursAt(s, pat, 0) then rep + ReplaceNonEmpty(s[|pat|..], pat, rep)
    else if s == [] then []
    else [s[0]] + ReplaceNonEmpty(s[1..], pat, rep)
  }

  /** Where pat does not start, the scan copies one character and moves on. */
  lemma ReplaceCopiesFirst(a: string, b: string, pat: string, rep: string)
    requires |pat| > 0 && a != [] && !OccursAt(a + b, pat, 0)
    ensures ReplaceNonEmpty(a + b, pat, rep) == [a[0]] + ReplaceNonEmpty(a[1..] + b, pat, rep)
  {
    assert (a + b)[0] == a[0] && (a + b)[1..] == a[1..] + b;
  }

  /** No occurrence of pat starts at the front of a + b when its second character cannot be there. */
  lemma NoOccurrenceAtFront(a: string, b: string, pat: string)
    requires |pat| >= 2 && a != []
    requires forall i :: 0 <= i < |a| ==> a[i] != pat[1]
    requires b != [] ==> b[0] != pat[1]
    ensures !OccursAt(a + b, pat, 0)
  {
    if |a + b| >= 2 {
      var c := (a + b)[1];
      assert c == if |a| == 1 then b[0] else a[1];
      if |pat| <= |a + b| {
        assert (a + b)[0..|pat|][1] == c;
      }
    }
  }

  /**
   * A prefix a is copied unchanged when no occurrence of pat can start in
   * it: pat's second character appears nowhere in a and does not begin b.
   */
  lemma {:induction false} ReplaceKeepsPrefix(a: string, b: string, pat: string, rep: string)
    requires |pat| >= 2
    requires forall i :: 0 <= i < |a| ==> a[i] != pat[1]
    requires b != [] ==> b[0] != pat[1]
    ensures Replace(a + b, pat, rep) == a + Replace(b, pat, rep)
    decreases |a|
  {
    if a == [] {
      assert a + b == b;
    } else {
      var tail := ReplaceNonEmpty(b, pat, rep);
      ReplaceKeepsPrefix(a[1..], b, pat, rep);
      assert ReplaceNonEmpty(a + b, pat, rep) == [a[0]] + ReplaceNonEmpty(a[1..] + b, pat, rep) by {
        NoOccurrenceAtFront(a, b, pat);
        ReplaceCopiesFirst(a, b, pat, rep);
      }
      assert [a[0]] + (a[1..] + tail) == a + tail;
    }
  }

  /** A string without pat's second character is left as it is. */
  lemma ReplaceWithoutOccurrence(s: string, pat: string, rep: string)
    requires |pat| >= 2
    requires forall i :: 0 <= i < |s| ==> s[i] != pat[1]
    ensures Replace(s, pat, rep) == s
  {
    assert s + [] == s;
    ReplaceKeepsPrefix(s, [], pat, rep);
  }
}
