/** String helpers with Python's semantics: `str.split(c)[0]`, `str.strip()` and
    decimal digit fields of a fixed width. */
module Text {

  /** Index of the first occurrence of `c` in `s`, or `|s|` when there is none. */
  function Find(s: string, c: char): (r: nat)
    ensures r <= |s|
    ensures c !in s[..r]
    ensures r < |s| ==> s[r] == c
    ensures r < |s| <==> c in s
  {
    if s == [] then 0
    else if s[0] == c then 0
    else 1 + Find(s[1..], c)
  }

  /** `s.split(c)[0]`: the text before the first `c`, or all of `s`. */
  function BeforeFirst(s: string, c: char): string
    ensures |BeforeFirst(s, c)| <= |s|
  {
    s[..Find(s, c)]
  }

  /** The text before the first `c` of `head + [c] + tail` is `head` when `head` has no `c`. */
  lemma {:induction false} BeforeFirstOfJoin(head: string, c: char, tail: string)
    requires c !in head
    ensures Find(head + [c] + tail, c) == |head|
    ensures BeforeFirst(head + [c] + tail, c) == head
  {
    var s := head + [c] + tail;
    if head != [] {
      assert s[0] == head[0];
      assert s[1..] == head[1..] + [c] + tail;
      BeforeFirstOfJoin(head[1..], c, tail);
    }
    assert s[..|head|] == head;
  }

  /** Python's `str.isspace()` for a single character: the code points of Unicode
      category Zs and of bidirectional class WS, B or S. */
  predicate IsSpace(c: char) {
    var n := c as int;
    (0x09 <= n <= 0x0D) || (0x1C <= n <= 0x20) || n == 0x85 || n == 0xA0 || n == 0x1680
    || (0x2000 <= n <= 0x200A) || n == 0x2028 || n == 0x2029 || n == 0x202F
    || n == 0x205F || n == 0x3000
  }

  predicate AllSpace(s: string) {
    forall k :: 0 <= k < |s| ==> IsSpace(s[k])
  }

  /** Number of leading whitespace characters. */
  function LeadingSpace(s: string): (n: nat)
    ensures n <= |s|
  {
    if s != [] && IsSpace(s[0]) then 1 + LeadingSpace(s[1..]) else 0
  }

  /** Number of trailing whitespace characters. */
  function TrailingSpace(s: string): (n: nat)
    ensures n <= |s|
  {
    if s != [] && IsSpace(s[|s| - 1]) then 1 + TrailingSpace(s[..|s| - 1]) else 0
  }

  /** `LeadingSpace` counts the whole run of whitespace at the front. */
  lemma {:induction false} LeadingSpaceRun(s: string)
    ensures AllSpace(s[..LeadingSpace(s)])
    ensures LeadingSpace(s) < |s| ==> !IsSpace(s[LeadingSpace(s)])
  {
    if s != [] && IsSpace(s[0]) {
      var t := s[1..];
      LeadingSpaceRun(t);
      var n := LeadingSpace(t);
      var run := s[..n + 1];
      forall k | 0 <= k < |run| ensures IsSpace(run[k]) {
        if k > 0 {
          assert run[k] == t[..n][k - 1];
        }
      }
      if n < |t| {
        assert s[n + 1] == t[n];
      }
    }
  }

  /** `TrailingSpace` counts the whole run of whitespace at the end, and not all
      of a string that starts with something else. */
  lemma {:induction false} TrailingSpaceRun(s: string)
    ensures AllSpace(s[|s| - TrailingSpace(s)..])
    ensures TrailingSpace(s) < |s| ==> !IsSpace(s[|s| - 1 - TrailingSpace(s)])
    ensures s != [] && !IsSpace(s[0]) ==> TrailingSpace(s) < |s|
  {
    if s != [] && IsSpace(s[|s| - 1]) {
      var t := s[..|s| - 1];
      TrailingSpaceRun(t);
      var n := TrailingSpace(t);
      var run := s[|s| - (n + 1)..];
      forall k | 0 <= k < |run| ensures IsSpace(run[k]) {
        if k < n {
          assert run[k] == t[|t| - n..][k];
        }
      }
      if n < |t| {
        assert s[|s| - 1 - (n + 1)] == t[|t| - 1 - n];
      }
      if |t| > 0 {
        assert t[0] == s[0];
      }
    }
  }

  /** Python's `str.strip()` with no argument: `s` with leading and trailing
      whitespace removed. */
  function Strip(s: string): string {
    var i := LeadingSpace(s);
    s[i..|s| - TrailingSpace(s[i..])]
  }

  /** The stripped text is a slice of `s`, what was cut off on either side is
      whitespace, and the result neither starts nor ends with whitespace. */
  lemma StripTrims(s: string)
    ensures exists i, j :: 0 <= i <= j <= |s| && Strip(s) == s[i..j] && AllSpace(s[..i]) && AllSpace(s[j..])
    ensures Strip(s) == [] || (!IsSpace(Strip(s)[0]) && !IsSpace(Strip(s)[|Strip(s)| - 1]))
  {
    var i := LeadingSpace(s);
    var t := s[i..];
    var n := TrailingSpace(t);
    var j := |s| - n;
    LeadingSpaceRun(s);
    TrailingSpaceRun(t);
    assert t[..|t| - n] == s[i..j];
    assert t[|t| - n..] == s[j..];
  }

  /** Stripping is idempotent. */
  lemma StripIdempotent(s: string)
    ensures Strip(Strip(s)) == Strip(s)
  {
    StripTrims(s);
    var r := Strip(s);
    assert LeadingSpace(r) == 0;
    assert TrailingSpace(r) == 0;
    assert r[0..|r|] == r;
  }

  predicate IsDigit(c: char) {
    '0' <= c <= '9'
  }

  predicate AllDigits(s: string) {
    forall k :: 0 <= k < |s| ==> IsDigit(s[k])
  }

  function Pow10(w: nat): (p: nat)
    ensures p >= 1
  {
    if w == 0 then 1 else 10 * Pow10(w - 1)
  }

  /** The number a string of decimal digits denotes (Python's `int()` on it). */
  function DigitsValue(s: string): (n: nat)
    requires AllDigits(s)
    ensures n < Pow10(|s|)
  {
    if s == [] then 0
    else
      var d := (s[|s| - 1] as int) - ('0' as int);
      var p := DigitsValue(s[..|s| - 1]);
      assert p * 10 + d < Pow10(|s| - 1) * 10 by {
        assert p + 1 <= Pow10(|s| - 1);
      }
      p * 10 + d
  }

  function DigitChar(d: nat): (c: char)
    requires d < 10
    ensures IsDigit(c) && (c as int) - ('0' as int) == d
  {
    (('0' as int) + d) as char
  }

  /** `n` written with exactly `w` decimal digits, zero-padded (`%0wd`). */
  function Digits(n: nat, w: nat): (s: string)
    ensures |s| == w && AllDigits(s)
  {
    if w == 0 then [] else Digits(n / 10, w - 1) + [DigitChar(n % 10)]
  }

  /** Reading back a zero-padded field gives the number, when it fits the width. */
  lemma {:induction false} DigitsRoundTrip(n: nat, w: nat)
    requires n < Pow10(w)
    ensures DigitsValue(Digits(n, w)) == n
  {
    if w > 0 {
      var s := Digits(n, w);
      assert n / 10 < Pow10(w - 1);
      DigitsRoundTrip(n / 10, w - 1);
      assert s[..w - 1] == Digits(n / 10, w - 1);
    }
  }
}
