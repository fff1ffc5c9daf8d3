/**
 * The pieces of Python's `str` behaviour that the normalisers rely on:
 * `str.strip()` with no argument, `str.isdigit()` (restricted to ASCII
 * digits), `str(n)` for an `int`, and `int(s)` on a text that strips to a
 * digit string, as CPython (3.11 and later, default settings) evaluates them.
 */
module Text {
  import opened Options

  /** A character that `str.isspace()` accepts, and so one that `str.strip()` removes. */
  predicate IsSpace(c: char) {
    var n := c as int;
    || 0x09 <= n <= 0x0D
    || 0x1C <= n <= 0x20
    || n == 0x85 || n == 0xA0 || n == 0x1680
    || 0x2000 <= n <= 0x200A
    || n == 0x2028 || n == 0x2029 || n == 0x202F || n == 0x205F || n == 0x3000
  }

  predicate AllSpace(s: string) {
    forall i :: 0 <= i < |s| ==> IsSpace(s[i])
  }

  /** `s.lstrip()`: the suffix of `s` that starts at its first non-space character. */
  function TrimStart(s: string): (r: string)
    ensures |r| <= |s| && r == s[|s| - |r|..]
    ensures AllSpace(s[..|s| - |r|])
    ensures r == [] || !IsSpace(r[0])
  {
    if s != [] && IsSpace(s[0]) then TrimStart(s[1..]) else s
  }

  /** `s.rstrip()`: the prefix of `s` that ends at its last non-space character. */
  function TrimEnd(s: string): (r: string)
    ensures |r| <= |s| && r == s[..|r|]
    ensures AllSpace(s[|r|..])
    ensures r == [] || !IsSpace(r[|r| - 1])
  {
    if s != [] && IsSpace(s[|s| - 1]) then TrimEnd(s[..|s| - 1]) else s
  }

  /** `s.strip()`. */
  function Strip(s: string): string {
    TrimEnd(TrimStart(s))
  }

  /**
   * `s.strip()` is the slice of `s` between the spaces it removes: nothing
   * but spaces lies outside it, and it neither starts nor ends with one.
   */
  lemma StripIsInnerSlice(s: string) returns (i: nat)
    ensures i + |Strip(s)| <= |s| && Strip(s) == s[i..i + |Strip(s)|]
    ensures AllSpace(s[..i]) && AllSpace(s[i + |Strip(s)|..])
    ensures Strip(s) == [] || (!IsSpace(Strip(s)[0]) && !IsSpace(Strip(s)[|Strip(s)| - 1]))
  {
    var t := TrimStart(s);
    var r := Strip(s);
    i := |s| - |t|;
    assert t == s[i..];
    assert r == t[..|r|];
    assert s[i + |r|..] == t[|r|..];
  }

  /** `s.strip()` is empty exactly when `s` holds nothing but whitespace. */
  lemma StripEmptyIffAllSpace(s: string)
    ensures Strip(s) == [] <==> AllSpace(s)
  {
    var i := StripIsInnerSlice(s);
    var r := Strip(s);
    if r == [] {
      forall k | 0 <= k < |s| ensures IsSpace(s[k]) {
        if k < i { assert s[k] == s[..i][k]; } else { assert s[k] == s[i..][k - i]; }
      }
    } else {
      assert s[i] == r[0];
    }
  }

  lemma {:induction false} TrimStartPadded(pre: string, t: string)
    requires AllSpace(pre)
    requires t == [] || !IsSpace(t[0])
    ensures TrimStart(pre + t) == t
  {
    if pre != [] {
      assert (pre + t)[1..] == pre[1..] + t;
      TrimStartPadded(pre[1..], t);
    }
  }

  lemma {:induction false} TrimEndPadded(t: string, post: string)
    requires AllSpace(post)
    requires t == [] || !IsSpace(t[|t| - 1])
    ensures TrimEnd(t + post) == t
  {
    if post != [] {
      assert (t + post)[..|t + post| - 1] == t + post[..|post| - 1];
      TrimEndPadded(t, post[..|post| - 1]);
    } else {
      assert t + post == t;
    }
  }

  /** `strip()` leaves a text alone when it neither starts nor ends with whitespace. */
  lemma StripUnpadded(t: string)
    requires t != [] && !IsSpace(t[0]) && !IsSpace(t[|t| - 1])
    ensures Strip(t) == t
  {
    assert [] + t == t && t + [] == t;
    TrimStartPadded([], t);
    TrimEndPadded(t, []);
  }

  /** `strip()` removes exactly the whitespace around a text that neither starts nor ends with whitespace. */
  lemma StripPadded(pre: string, t: string, post: string)
    requires AllSpace(pre) && AllSpace(post)
    requires t != [] && !IsSpace(t[0]) && !IsSpace(t[|t| - 1])
    ensures Strip(pre + t + post) == t
  {
    assert pre + t + post == pre + (t + post);
    TrimStartPadded(pre, t + post);
    TrimEndPadded(t, post);
  }

  predicate IsDigit(c: char) {
    '0' <= c <= '9'
  }

  /** `s.isdigit()` over ASCII: non-empty and made of decimal digits only. */
  predicate IsDigits(s: string) {
    |s| > 0 && forall i :: 0 <= i < |s| ==> IsDigit(s[i])
  }

  function DigitChar(d: nat): (c: char)
    requires d < 10
    ensures IsDigit(c)
  {
    ('0' as int + d) as char
  }

  function DigitValue(c: char): (d: nat)
    requires IsDigit(c)
    ensures d < 10 && DigitChar(d) == c
  {
    c as int - '0' as int
  }

  /** `str(n)` for a non-negative `int`: its decimal digits, with no leading zero. */
  function Decimal(n: nat): (r: string)
    ensures IsDigits(r)
    ensures r[0] == '0' ==> n == 0 && r == "0"
  {
    if n < 10 then [DigitChar(n)] else Decimal(n / 10) + [DigitChar(n % 10)]
  }

  /** `str(n)` for any `int`: a minus sign before the digits of a negative number. */
  function IntRepr(n: int): (r: string)
    ensures |r| > 0
    ensures (n >= 0) == IsDigit(r[0])
  {
    if n < 0 then "-" + Decimal(-n) else Decimal(n)
  }

  /** `int(s)` for a string of decimal digits (leading zeros allowed). */
  function DigitsValue(s: string): nat
    requires forall i :: 0 <= i < |s| ==> IsDigit(s[i])
  {
    if s == [] then 0 else 10 * DigitsValue(s[..|s| - 1]) + DigitValue(s[|s| - 1])
  }

  /** Parsing the decimal form of `n` gives back `n`. */
  lemma {:induction false} DigitsValueOfDecimal(n: nat)
    ensures DigitsValue(Decimal(n)) == n
  {
    if n >= 10 {
      var s := Decimal(n);
      assert s[..|s| - 1] == Decimal(n / 10);
      DigitsValueOfDecimal(n / 10);
    }
  }

  /** A digit string whose value is zero is made of zeros only. */
  lemma {:induction false} ZeroValueAllZeros(s: string)
    requires forall i :: 0 <= i < |s| ==> IsDigit(s[i])
    requires DigitsValue(s) == 0
    ensures forall i :: 0 <= i < |s| ==> s[i] == '0'
  {
    if s != [] {
      var p := s[..|s| - 1];
      assert forall i :: 0 <= i < |p| ==> p[i] == s[i];
      ZeroValueAllZeros(p);
      assert DigitValue(s[|s| - 1]) == 0;
      forall i | 0 <= i < |s| ensures s[i] == '0' {
        if i < |p| { assert s[i] == p[i]; }
      }
    }
  }

  /** Printing the value of a digit string without leading zeros gives back the string. */
  lemma {:induction false} DecimalOfDigitsValue(s: string)
    requires IsDigits(s)
    requires s[0] == '0' ==> |s| == 1
    ensures Decimal(DigitsValue(s)) == s
  {
    var p := s[..|s| - 1];
    var d := DigitValue(s[|s| - 1]);
    if |s| == 1 {
      assert DigitsValue(s) == 10 * DigitsValue([]) + d;
    } else {
      assert IsDigits(p) && p[0] == s[0];
      if DigitsValue(p) == 0 {
        ZeroValueAllZeros(p);
        assert false;
      }
      var n := DigitsValue(s);
      assert n == 10 * DigitsValue(p) + d && n >= 10;
      assert n / 10 == DigitsValue(p) && n % 10 == d;
      DecimalOfDigitsValue(p);
      assert s == p + [s[|s| - 1]];
    }
  }

  /**
   * CPython's default cap on the number of digits `int(s)` parses and
   * `str(n)` prints; beyond it both raise `ValueError`.
   */
  const MaxStrDigits: nat := 4300

  /**
   * Whitespace that `int(s)` skips around its digits. CPython first turns
   * every non-ASCII whitespace character into a space, leaving ASCII ones as
   * they are, and then skips space, tab, newline, vertical tab, form feed and
   * carriage return.
   */
  predicate IsIntSpace(c: char) {
    c == ' ' || '\t' <= c <= '\r' || (c as int >= 0x80 && IsSpace(c))
  }

  predicate AllIntSpace(s: string) {
    forall i :: 0 <= i < |s| ==> IsIntSpace(s[i])
  }

  /** The ASCII information separators U+001C to U+001F. */
  predicate IsSeparator(c: char) {
    0x1C <= c as int <= 0x1F
  }

  /**
   * The whitespace `strip()` removes but `int()` does not skip is exactly the
   * four information separators.
   */
  lemma StripSpaceIntRejects(c: char)
    ensures IsSpace(c) && !IsIntSpace(c) <==> IsSeparator(c)
  {
  }

  /** Every whitespace character of `s` is one `int()` skips. */
  predicate IntSkipsSpace(s: string) {
    forall i :: 0 <= i < |s| && IsSpace(s[i]) ==> IsIntSpace(s[i])
  }

  /**
   * `int(s)` for a text that `strip()` reduces to ASCII digits: the value of
   * those digits, or `None` where CPython raises `ValueError`. It raises when
   * some whitespace of `s` is not whitespace to `int()`, or when there are
   * more than `MaxStrDigits` digits.
   */
  function ParseInt(s: string): (r: Option<nat>)
    requires IsDigits(Strip(s))
    ensures r.Some? ==> r.value == DigitsValue(Strip(s)) && |Strip(s)| <= MaxStrDigits
  {
    if IntSkipsSpace(s) && |Strip(s)| <= MaxStrDigits then Some(DigitsValue(Strip(s))) else None
  }

  lemma IntSpaceIsSpace(s: string)
    requires AllIntSpace(s)
    ensures AllSpace(s) && IntSkipsSpace(s)
  {
  }

  lemma DigitsSkipSpace(s: string)
    requires IsDigits(s)
    ensures IntSkipsSpace(s)
  {
  }

  lemma IntSkipsSpaceConcat(a: string, b: string)
    requires IntSkipsSpace(a) && IntSkipsSpace(b)
    ensures IntSkipsSpace(a + b)
  {
    forall i | 0 <= i < |a + b| && IsSpace((a + b)[i]) ensures IsIntSpace((a + b)[i]) {
      if i >= |a| { assert (a + b)[i] == b[i - |a|]; }
    }
  }

  /** `int()` parses digits with only whitespace it skips around them. */
  lemma ParseIntPadded(pre: string, d: string, post: string)
    requires AllIntSpace(pre) && AllIntSpace(post)
    requires IsDigits(d) && |d| <= MaxStrDigits
    ensures Strip(pre + d + post) == d
    ensures ParseInt(pre + d + post) == Some(DigitsValue(d))
  {
    IntSpaceIsSpace(pre);
    IntSpaceIsSpace(post);
    DigitsSkipSpace(d);
    assert !IsSpace(d[0]) && !IsSpace(d[|d| - 1]);
    StripPadded(pre, d, post);
    IntSkipsSpaceConcat(pre, d);
    IntSkipsSpaceConcat(pre + d, post);
  }

  /** `int()` raises on a digit string with an information separator anywhere around it. */
  lemma ParseIntRejectsSeparator(s: string, i: nat)
    requires IsDigits(Strip(s))
    requires i < |s| && IsSeparator(s[i])
    ensures ParseInt(s) == None
  {
    assert IsSpace(s[i]) && !IsIntSpace(s[i]);
  }

  /** `int()` raises on digits with an information separator in the whitespace around them. */
  lemma ParseIntSeparatorPadded(pre: string, d: string, post: string, i: nat)
    requires AllSpace(pre) && AllSpace(post) && IsDigits(d)
    requires i < |pre + post| && IsSeparator((pre + post)[i])
    ensures Strip(pre + d + post) == d
    ensures ParseInt(pre + d + post) == None
  {
    var s := pre + d + post;
    assert !IsSpace(d[0]) && !IsSpace(d[|d| - 1]);
    StripPadded(pre, d, post);
    if i < |pre| {
      assert s[i] == (pre + post)[i];
      ParseIntRejectsSeparator(s, i);
    } else {
      assert s[i + |d|] == (pre + post)[i];
      ParseIntRejectsSeparator(s, i + |d|);
    }
  }

  /** Every digit string no longer than the cap parses. */
  lemma ParseIntCapped(s: string)
    requires IsDigits(s)
    ensures Strip(s) == s
    ensures ParseInt(s) == if |s| <= MaxStrDigits then Some(DigitsValue(s)) else None
  {
    StripUnpadded(s);
  }

  /** The decimal form of a digit string's value is no longer than the string. */
  lemma {:induction false} DecimalNoLonger(s: string)
    requires IsDigits(s)
    ensures |Decimal(DigitsValue(s))| <= |s|
  {
    var p := s[..|s| - 1];
    var n := DigitsValue(s);
    if n >= 10 {
      assert n == 10 * DigitsValue(p) + DigitValue(s[|s| - 1]);
      assert p != [] && IsDigits(p);
      assert n / 10 == DigitsValue(p);
      DecimalNoLonger(p);
    }
  }

}
