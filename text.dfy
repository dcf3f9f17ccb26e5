/**
 * Character classes, substring tests and searches on strings, and the
 * decimal rendering of integers that Ruby's string interpolation performs.
 * Everything the line matchers need is defined once here.
 */
module Text {
  import opened Wrappers

  predicate IsDigit(c: char) { '0' <= c <= '9' }

  /** The class `[^']`. */
  predicate NotQuote(c: char) { c != '\'' }

  /** The class of Ruby's `.` without the `m` flag. */
  predicate NotNewline(c: char) { c != '\n' }

  predicate AllDigits(s: string) {
    forall j :: 0 <= j < |s| ==> IsDigit(s[j])
  }

  /** A string in which `[^']` holds of every character. */
  predicate NoQuote(s: string) {
    forall j :: 0 <= j < |s| ==> s[j] != '\''
  }

  /** A string that Ruby's `.` can cross: it holds no newline. */
  predicate NoNewline(s: string) {
    forall j :: 0 <= j < |s| ==> s[j] != '\n'
  }

  /** `t` occurs in `s` starting at index `e`. */
  predicate OccursAt(s: string, t: string, e: int) {
    0 <= e && e + |t| <= |s| && s[e..e + |t|] == t
  }

  /** `t` occurs somewhere in `s` (a regex made only of literal characters). */
  predicate Contains(s: string, t: string) {
    exists e :: 0 <= e <= |s| - |t| && OccursAt(s, t, e)
  }

  /** Length of the longest run of characters of `inClass` starting at `k`:
      what a greedy `[class]*` consumes. */
  function Span(s: string, k: nat, inClass: char -> bool): (n: nat)
    requires k <= |s|
    decreases |s| - k
    ensures k + n <= |s|
  {
    if k == |s| || !inClass(s[k]) then 0 else 1 + Span(s, k + 1, inClass)
  }

  /** The run Span measures is in the class and cannot be extended. */
  lemma {:induction false} SpanSound(s: string, k: nat, inClass: char -> bool)
    requires k <= |s|
    decreases |s| - k
    ensures forall j :: k <= j < k + Span(s, k, inClass) ==> inClass(s[j])
    ensures k + Span(s, k, inClass) == |s| || !inClass(s[k + Span(s, k, inClass)])
  {
    if k < |s| && inClass(s[k]) {
      SpanSound(s, k + 1, inClass);
    }
  }

  /** Index of the first newline at or after `k`, or `|s|`: how far `.+` can reach. */
  function LineEnd(s: string, k: nat): (e: nat)
    requires k <= |s|
    ensures k <= e <= |s|
  {
    k + Span(s, k, NotNewline)
  }

  /** No newline lies between `k` and LineEnd, and LineEnd is at one or at the end. */
  lemma LineEndSound(s: string, k: nat)
    requires k <= |s|
    ensures forall j :: k <= j < LineEnd(s, k) ==> s[j] != '\n'
    ensures LineEnd(s, k) == |s| || s[LineEnd(s, k)] == '\n'
  {
    SpanSound(s, k, NotNewline);
  }

  /** The largest index in `lo..hi` at which `t` occurs: where a greedy
      `.+` followed by `t` stops after backtracking. */
  function FindLast(s: string, t: string, lo: nat, hi: int): (r: Option<nat>)
    decreases hi - lo
    ensures r.Some? ==> lo <= r.value <= hi && OccursAt(s, t, r.value)
  {
    if hi < lo then None
    else if OccursAt(s, t, hi) then Some(hi)
    else FindLast(s, t, lo, hi - 1)
  }

  /** FindLast finds the last occurrence up to `hi`, and finds none only when
      there is none in `lo..hi`. */
  lemma {:induction false} FindLastSound(s: string, t: string, lo: nat, hi: int)
    ensures var r := FindLast(s, t, lo, hi);
      && (r.Some? ==> forall e :: r.value < e <= hi ==> !OccursAt(s, t, e))
      && (r.None? ==> forall e :: lo <= e <= hi ==> !OccursAt(s, t, e))
    decreases hi - lo
  {
    if lo <= hi && !OccursAt(s, t, hi) {
      FindLastSound(s, t, lo, hi - 1);
    }
  }

  /** FindLast finds something when `t` occurs somewhere in `lo..hi`. */
  lemma FindLastFinds(s: string, t: string, lo: nat, hi: int, e: nat)
    requires lo <= e <= hi && OccursAt(s, t, e)
    ensures FindLast(s, t, lo, hi).Some?
  {
    FindLastSound(s, t, lo, hi);
  }

  /** FindLast returns `e` when `t` occurs at `e` and nowhere after it up to `hi`. */
  lemma FindLastIs(s: string, t: string, lo: nat, hi: int, e: nat)
    requires lo <= e <= hi && OccursAt(s, t, e)
    requires forall e' :: e < e' <= hi ==> !OccursAt(s, t, e')
    ensures FindLast(s, t, lo, hi) == Some(e)
  {
  }

  /** The result at the leftmost start index in `p..end` where `at` succeeds:
      how an unanchored regex search picks its match. */
  function FirstMatch<T>(at: nat -> Option<T>, p: nat, end: nat): (r: Option<T>)
    decreases end - p
  {
    if p > end then None
    else if at(p).Some? then at(p)
    else FirstMatch(at, p + 1, end)
  }

  /** FirstMatch returns the result at a start index before which `at` fails
      everywhere, and returns nothing only when `at` fails everywhere. */
  lemma {:induction false} FirstMatchSound<T>(at: nat -> Option<T>, p: nat, end: nat)
    ensures var r := FirstMatch(at, p, end);
      && (r.Some? ==> exists q :: p <= q <= end && at(q) == r && forall q' :: p <= q' < q ==> at(q').None?)
      && (r.None? <==> forall q :: p <= q <= end ==> at(q).None?)
    decreases end - p
  {
    if p <= end && at(p).None? {
      FirstMatchSound(at, p + 1, end);
      var r := FirstMatch(at, p + 1, end);
      if r.Some? {
        var q :| p + 1 <= q <= end && at(q) == r && forall q' :: p + 1 <= q' < q ==> at(q').None?;
        assert forall q' :: p <= q' < q ==> at(q').None?;
      }
    }
  }

  /** A match at the first index tried is the one FirstMatch returns. */
  lemma FirstMatchFirst<T>(at: nat -> Option<T>, p: nat, end: nat)
    requires p <= end && at(p).Some?
    ensures FirstMatch(at, p, end) == at(p)
  {
  }

  /** The leftmost start index whose attempt succeeds: the one whose
      result FirstMatch returns. */
  lemma {:induction false} FirstMatchAt<T>(at: nat -> Option<T>, p: nat, end: nat) returns (q: nat)
    requires FirstMatch(at, p, end).Some?
    ensures p <= q <= end && at(q) == FirstMatch(at, p, end)
    ensures forall q' :: p <= q' < q ==> at(q').None?
    decreases end - p
  {
    if at(p).Some? {
      q := p;
    } else {
      q := FirstMatchAt(at, p + 1, end);
    }
  }

  function DigitChar(d: nat): (c: char)
    requires d < 10
    ensures IsDigit(c)
  {
    ('0' as int + d) as char
  }

  function DigitValue(c: char): (d: nat)
    requires IsDigit(c)
    ensures d < 10 && DigitChar(d) == c
  {
    c as int - '0' as int
  }

  /** Ruby's `"#{n}"` for a non-negative Integer. */
  function NatStr(n: nat): (s: string)
    decreases n
  {
    if n < 10 then [DigitChar(n)] else NatStr(n / 10) + [DigitChar(n % 10)]
  }

  /** Reads a decimal numeral back; the inverse of NatStr. */
  function ParseNat(s: string): nat
    requires AllDigits(s)
  {
    if s == [] then 0 else 10 * ParseNat(s[..|s| - 1]) + DigitValue(s[|s| - 1])
  }

  lemma {:induction false} NatStrDigits(n: nat)
    ensures |NatStr(n)| >= 1 && AllDigits(NatStr(n))
    decreases n
  {
    if n >= 10 {
      NatStrDigits(n / 10);
    }
  }

  lemma {:induction false} ParseNatStr(n: nat)
    ensures AllDigits(NatStr(n)) && ParseNat(NatStr(n)) == n
    decreases n
  {
    NatStrDigits(n);
    var s := NatStr(n);
    if n >= 10 {
      ParseNatStr(n / 10);
      assert s[..|s| - 1] == NatStr(n / 10);
      assert DigitValue(s[|s| - 1]) == n % 10;
    } else {
      assert s[..0] == [];
    }
  }

  /** The numeral has no leading zero: it starts with `0` only for 0. */
  lemma {:induction false} NatStrNoLeadingZero(n: nat)
    ensures NatStr(n)[0] == '0' ==> n == 0
    decreases n
  {
    if n >= 10 {
      NatStrNoLeadingZero(n / 10);
    }
  }

  /** Distinct numbers are rendered as distinct numerals. */
  lemma NatStrInjective(a: nat, b: nat)
    ensures NatStr(a) == NatStr(b) <==> a == b
  {
    if NatStr(a) == NatStr(b) {
      ParseNatStr(a);
      ParseNatStr(b);
    }
  }

  /** A literal string found at an index means the string contains it. */
  lemma OccursContains(s: string, t: string, e: int)
    requires OccursAt(s, t, e)
    ensures Contains(s, t)
  {
  }

  /** An occurrence of a newline-free `t` that starts inside the newline-free
      stretch beginning at `k` also ends inside it. */
  lemma OccursBeforeLineEnd(s: string, t: string, k: nat, e: int)
    requires k <= |s| && k <= e && OccursAt(s, t, e)
    requires forall j :: 0 <= j < |t| ==> t[j] != '\n'
    requires e <= LineEnd(s, k)
    ensures e + |t| <= LineEnd(s, k)
  {
    LineEndSound(s, k);
  }

  /** The maximal-run length is exactly `m` when the next `m` characters are
      in the class and the one after is not (or the string ends). */
  lemma {:induction false} SpanExact(s: string, k: nat, m: nat, inClass: char -> bool)
    requires k + m <= |s|
    requires forall j :: k <= j < k + m ==> inClass(s[j])
    requires k + m == |s| || !inClass(s[k + m])
    ensures Span(s, k, inClass) == m
    decreases m
  {
    if m > 0 {
      SpanExact(s, k + 1, m - 1, inClass);
    }
  }
}
