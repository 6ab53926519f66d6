/**
 * The parts of Java's string library that the parsers rely on, stated over
 * Dafny strings (sequences of characters).
 */
module JavaText {
  import opened Wrappers

  /** `String.trim()` removes every character whose code is at most U+0020. */
  predicate IsTrimmable(c: char) {
    c <= ' '
  }

  predicate AllTrimmable(s: string) {
    forall k :: 0 <= k < |s| ==> IsTrimmable(s[k])
  }

  /** Drops the trimmable characters at the front. */
  function TrimStart(s: string): string
    decreases |s|
  {
    if |s| > 0 && IsTrimmable(s[0]) then TrimStart(s[1..]) else s
  }

  /** Drops the trimmable characters at the back. */
  function TrimEnd(s: string): string
    decreases |s|
  {
    if |s| > 0 && IsTrimmable(s[|s| - 1]) then TrimEnd(s[..|s| - 1]) else s
  }

  /** Java's `String.trim()`. */
  function Trim(s: string): string {
    TrimEnd(TrimStart(s))
  }

  /** `TrimStart` yields the longest suffix that does not start with a trimmable character. */
  lemma {:induction false} TrimStartSpec(s: string)
    ensures |TrimStart(s)| <= |s| && TrimStart(s) == s[|s| - |TrimStart(s)|..]
    ensures AllTrimmable(s[..|s| - |TrimStart(s)|])
    ensures TrimStart(s) == [] || !IsTrimmable(TrimStart(s)[0])
    decreases |s|
  {
    if |s| > 0 && IsTrimmable(s[0]) {
      TrimStartSpec(s[1..]);
      var n := |s| - |TrimStart(s)|;
      assert s[..n] == [s[0]] + s[1..][..n - 1];
    }
  }

  /** `TrimEnd` yields the longest prefix that does not end with a trimmable character. */
  lemma {:induction false} TrimEndSpec(s: string)
    ensures |TrimEnd(s)| <= |s| && TrimEnd(s) == s[..|TrimEnd(s)|]
    ensures AllTrimmable(s[|TrimEnd(s)|..])
    ensures TrimEnd(s) == [] || !IsTrimmable(TrimEnd(s)[|TrimEnd(s)| - 1])
    decreases |s|
  {
    if |s| > 0 && IsTrimmable(s[|s| - 1]) {
      var init := s[..|s| - 1];
      TrimEndSpec(init);
      var m := |TrimEnd(s)|;
      assert s[m..] == init[m..] + [s[|s| - 1]];
    }
  }

  /**
   * `Trim(s)` is a contiguous part of `s`, everything cut off around it is
   * trimmable, and it neither starts nor ends with a trimmable character.
   */
  lemma TrimSpec(s: string)
    ensures exists a, b :: 0 <= a <= b <= |s| && Trim(s) == s[a..b] && AllTrimmable(s[..a]) && AllTrimmable(s[b..])
    ensures Trim(s) == [] || (!IsTrimmable(Trim(s)[0]) && !IsTrimmable(Trim(s)[|Trim(s)| - 1]))
  {
    var front := TrimStart(s);
    TrimStartSpec(s);
    TrimEndSpec(front);
    var r := TrimEnd(front);
    var a := |s| - |front|;
    assert r == s[a..a + |r|];
    assert s[a + |r|..] == front[|r|..];
    if r != [] {
      assert r[0] == front[0];
    }
  }

  /** Trimming a trimmed string changes nothing. */
  lemma TrimIdempotent(s: string)
    ensures Trim(Trim(s)) == Trim(s)
  {
    var t := Trim(s);
    TrimSpec(s);
    if t != [] {
      assert TrimStart(t) == t;
      assert TrimEnd(t) == t;
    }
  }

  lemma {:induction false} TrimStartSkipsPadding(p: string, w: string)
    requires AllTrimmable(p)
    ensures TrimStart(p + w) == TrimStart(w)
    decreases |p|
  {
    if p == [] {
      assert p + w == w;
    } else {
      assert IsTrimmable((p + w)[0]);
      assert (p + w)[1..] == p[1..] + w;
      TrimStartSkipsPadding(p[1..], w);
    }
  }

  lemma {:induction false} TrimEndSkipsPadding(w: string, q: string)
    requires AllTrimmable(q)
    ensures TrimEnd(w + q) == TrimEnd(w)
    decreases |q|
  {
    if q == [] {
      assert w + q == w;
    } else {
      assert IsTrimmable((w + q)[|w + q| - 1]);
      assert (w + q)[..|w + q| - 1] == w + q[..|q| - 1];
      TrimEndSkipsPadding(w, q[..|q| - 1]);
    }
  }

  lemma {:induction false} TrimStartKeepsTail(s: string, q: string)
    requires AllTrimmable(q)
    ensures TrimStart(s + q) == TrimStart(s) + q || (TrimStart(s) == [] && TrimStart(s + q) == [])
    decreases |s|
  {
    if s == [] {
      assert s + q == q;
      TrimStartSkipsPadding(q, []);
      assert q + [] == q;
    } else if IsTrimmable(s[0]) {
      assert (s + q)[1..] == s[1..] + q;
      TrimStartKeepsTail(s[1..], q);
    }
  }

  /** Trimming ignores surrounding whitespace: padding an input on either side does not change its trimmed form. */
  lemma TrimIgnoresPadding(p: string, s: string, q: string)
    requires AllTrimmable(p) && AllTrimmable(q)
    ensures Trim(p + s + q) == Trim(s)
  {
    assert p + s + q == p + (s + q);
    TrimStartSkipsPadding(p, s + q);
    TrimStartKeepsTail(s, q);
    if TrimStart(s + q) == TrimStart(s) + q {
      TrimEndSkipsPadding(TrimStart(s), q);
    }
  }

  /** Java's `String.toLowerCase()` restricted to ASCII letters; every other character is left as it is. */
  function LowerChar(c: char): char {
    if 'A' <= c <= 'Z' then (c as int - 'A' as int + 'a' as int) as char else c
  }

  function ToLowerCase(s: string): (r: string)
    ensures |r| == |s|
  {
    seq(|s|, k requires 0 <= k < |s| => LowerChar(s[k]))
  }

  /**
   * Java's `String.compareTo`: the difference of the first differing characters,
   * or the difference of the lengths when one string is a prefix of the other.
   */
  function CompareTo(a: string, b: string): int
    decreases |a|
  {
    if |a| == 0 || |b| == 0 then |a| - |b|
    else if a[0] != b[0] then a[0] as int - b[0] as int
    else CompareTo(a[1..], b[1..])
  }

  predicate IsDigit(c: char) {
    '0' <= c <= '9'
  }

  predicate AllDigits(s: string) {
    forall k :: 0 <= k < |s| ==> IsDigit(s[k])
  }

  function DigitValue(c: char): nat
    requires IsDigit(c)
  {
    c as int - '0' as int
  }

  /** The number a string of decimal digits denotes (most significant digit first). */
  function DecimalValue(s: string): nat
    requires AllDigits(s)
    decreases |s|
  {
    if |s| == 0 then 0 else DecimalValue(s[..|s| - 1]) * 10 + DigitValue(s[|s| - 1])
  }

  const IntMax: int := 0x7fff_ffff
  const IntMin: int := -0x8000_0000

  /**
   * Java's `Integer.parseInt` in radix 10: an optional sign followed by at least one
   * digit, whose value fits in a 32-bit `int`; `None` where Java throws
   * `NumberFormatException`.
   */
  function ParseInt(s: string): (r: Option<int>)
    ensures r.Some? ==> IntMin <= r.value <= IntMax
  {
    if |s| == 0 then None
    else if s[0] == '+' || s[0] == '-' then
      if |s| == 1 || !AllDigits(s[1..]) then None
      else
        var v: int := if s[0] == '-' then 0 - DecimalValue(s[1..]) as int else DecimalValue(s[1..]);
        if IntMin <= v <= IntMax then Some(v) else None
    else if AllDigits(s) && DecimalValue(s) <= IntMax then Some(DecimalValue(s))
    else None
  }

  /** An unsigned digit string that fits in an `int` parses to the number it denotes. */
  lemma ParseIntDigits(s: string)
    requires |s| > 0 && AllDigits(s)
    ensures ParseInt(s) == if DecimalValue(s) <= IntMax then Some(DecimalValue(s)) else None
  {
    assert IsDigit(s[0]);
  }

  /** Two two-digit strings compare as strings exactly as their values compare as numbers. */
  lemma TwoDigitCompareIsNumeric(a: string, b: string)
    requires |a| == 2 && |b| == 2 && AllDigits(a) && AllDigits(b)
    ensures CompareTo(a, b) > 0 <==> DecimalValue(a) > DecimalValue(b)
  {
    assert DecimalValue(a[..1]) == DigitValue(a[0]) by { assert a[..1][..0] == []; }
    assert DecimalValue(b[..1]) == DigitValue(b[0]) by { assert b[..1][..0] == []; }
    assert DecimalValue(a) == DigitValue(a[0]) * 10 + DigitValue(a[1]);
    assert DecimalValue(b) == DigitValue(b[0]) * 10 + DigitValue(b[1]);
    if a[0] == b[0] {
      assert CompareTo(a, b) == CompareTo(a[1..], b[1..]);
      if a[1] == b[1] {
        assert CompareTo(a[1..][1..], b[1..][1..]) == 0;
      }
    }
  }
}
