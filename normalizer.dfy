/**
 * The distinct-value normaliser: what the discovery endpoints do with the
 * raw values the store's `distinct` returns before sending them to the
 * dashboard's filter controls.
 *
 * String mode (topics, countries, regions) drops `None` and blank values,
 * keeps the others untrimmed and sorts them. Year mode (start years) keeps
 * the values whose text is a run of digits once stripped, parses them,
 * merges equal years and sorts them numerically.
 */
module Normalizer {
  import opened Options
  import opened Text
  import opened Collation
  import opened Sorting

  // ---------------------------------------------------------------------
  // String mode
  // ---------------------------------------------------------------------

  /** A string that `strip()` reduces to the empty string. */
  predicate Blank(s: string) {
    Strip(s) == []
  }

  /** The comprehension's test `t and t.strip()` on one raw value. */
  predicate Keeps(t: Option<string>) {
    t.Some? && t.value != "" && Strip(t.value) != ""
  }

  /** `[t for t in raw if t and t.strip()]`. */
  function Kept(raw: seq<Option<string>>): (r: seq<string>)
    ensures forall x :: multiset(r)[x] == if Blank(x) then 0 else multiset(raw)[Some(x)]
  {
    if raw == [] then [] else
      var head := if Keeps(raw[0]) then [raw[0].value] else [];
      var tail := Kept(raw[1..]);
      KeptStep(raw, head, tail);
      head + tail
  }

  /** The test keeps a present string exactly when it is not blank. */
  lemma KeepsIffNotBlank(x: string)
    ensures Keeps(Some(x)) <==> !Blank(x)
  {
    if x == "" {
      assert TrimStart(x) == x;
      assert Strip(x) == [];
    }
  }

  lemma KeptStep(raw: seq<Option<string>>, head: seq<string>, tail: seq<string>)
    requires raw != []
    requires head == if Keeps(raw[0]) then [raw[0].value] else []
    requires forall x :: multiset(tail)[x] == if Blank(x) then 0 else multiset(raw[1..])[Some(x)]
    ensures forall x :: multiset(head + tail)[x] == if Blank(x) then 0 else multiset(raw)[Some(x)]
  {
    assert raw == [raw[0]] + raw[1..];
    assert multiset(raw) == multiset{raw[0]} + multiset(raw[1..]);
    forall x ensures multiset(head + tail)[x] == if Blank(x) then 0 else multiset(raw)[Some(x)] {
      assert multiset(head + tail)[x] == multiset(head)[x] + multiset(tail)[x];
      KeepsIffNotBlank(x);
    }
  }

  /**
   * `sorted([t for t in raw if t and t.strip()])`. Every non-blank string
   * occurs in the result as often as it occurs among the raw values, untrimmed;
   * `None` and blank strings do not occur at all; the result is sorted.
   */
  function CleanStrings(raw: seq<Option<string>>): (r: seq<string>)
    ensures Sorted(r)
    ensures forall x :: multiset(r)[x] == if Blank(x) then 0 else multiset(raw)[Some(x)]
  {
    Sort(Kept(raw))
  }

  /** Every string the normaliser returns was among the raw values, as it was, and is not blank. */
  lemma CleanStringsFromInput(raw: seq<Option<string>>, x: string)
    ensures x in CleanStrings(raw) ==> Some(x) in raw && !Blank(x) && x != ""
  {
    var r := CleanStrings(raw);
    if x in r {
      assert x in multiset(r);
      assert Some(x) in multiset(raw);
    }
  }

  /** Every raw value that survives the filter reaches the result. */
  lemma CleanStringsComplete(raw: seq<Option<string>>, i: nat)
    requires i < |raw| && Keeps(raw[i])
    ensures raw[i].value in CleanStrings(raw)
  {
    var r := CleanStrings(raw);
    assert raw[i] in multiset(raw);
    assert raw[i].value in multiset(r);
  }

  /**
   * Sorting is by code point: a value with leading spaces comes first, and
   * "Oil" comes before "oil"; the three stay separate entries.
   */
  lemma CodePointOrderExample(kept: seq<string>)
    requires kept == ["Oil", "oil", "  Gas  "]
    ensures Sort(kept) == ["  Gas  ", "Oil", "oil"]
  {
    var r := ["  Gas  ", "Oil", "oil"];
    assert Less("  Gas  ", "Oil") && Less("Oil", "oil");
    LessTransitive("  Gas  ", "Oil", "oil");
    assert multiset(r) == multiset(kept);
    SortedUnique(r, Sort(kept));
  }

  /**
   * The result is the only sorted list with those occurrence counts, so any
   * correct sort of the kept values, Python's included, gives this list.
   */
  lemma CleanStringsUnique(raw: seq<Option<string>>, r: seq<string>)
    requires Sorted(r)
    requires forall x :: multiset(r)[x] == if Blank(x) then 0 else multiset(raw)[Some(x)]
    ensures r == CleanStrings(raw)
  {
    assert multiset(r) == multiset(CleanStrings(raw));
    SortedUnique(r, CleanStrings(raw));
  }

  /** Values that differ only in surrounding whitespace are not merged: each keeps its own entry. */
  lemma WhitespaceVariantsKept(raw: seq<Option<string>>, a: string, b: string)
    requires Some(a) in raw && Some(b) in raw && a != b
    requires !Blank(a) && !Blank(b)
    ensures a in CleanStrings(raw) && b in CleanStrings(raw)
  {
    var r := CleanStrings(raw);
    assert Some(a) in multiset(raw) && Some(b) in multiset(raw);
    assert a in multiset(r) && b in multiset(r);
  }

  // ---------------------------------------------------------------------
  // Year mode
  // ---------------------------------------------------------------------

  /** A stored start year: a number, a string, or absent, as the records hold them. */
  datatype StoredYear = Num(n: int) | Str(s: string) | Null

  /**
   * What the set comprehension does with one stored value: the filter drops
   * it, it contributes a year, or evaluating it raises `ValueError` (which
   * makes the whole request fail).
   */
  datatype YearParse = Skipped | Parsed(year: int) | ValueError

  /** The number of digits `str(n)` prints, leaving out the sign. */
  function DigitCount(n: int): nat {
    |Decimal(if n < 0 then -n else n)|
  }

  /** `str(y)` for a value that is not `None` and that `str` can print. */
  function Repr(y: StoredYear): (r: string)
    requires !y.Null? && (y.Num? ==> DigitCount(y.n) <= MaxStrDigits)
    ensures y.Num? ==> r != [] && (IsDigit(r[0]) <==> y.n >= 0)
    ensures y.Str? ==> r == y.s
  {
    match y
    case Num(n) => IntRepr(n)
    case Str(s) => s
  }

  /**
   * `int(str(y))` when `y is not None and str(y).strip().isdigit()` holds,
   * `Skipped` when that filter drops `y`. `str(y)` raises for a number with
   * more than `MaxStrDigits` digits; `int` parses the unstripped text and
   * raises where `ParseInt` says so.
   */
  function YearOf(y: StoredYear): (r: YearParse)
    ensures y.Null? ==> r == Skipped
    ensures r.Parsed? ==> !y.Null? && r.year >= 0
  {
    if y.Null? then Skipped
    else if y.Num? && DigitCount(y.n) > MaxStrDigits then ValueError
    else
      var text := Repr(y);
      if !IsDigits(Strip(text)) then Skipped
      else
        match ParseInt(text)
        case None => ValueError
        case Some(v) => Parsed(v)
  }

  /** A stored non-negative number that `str` can print yields itself. */
  lemma YearOfNatural(n: nat)
    requires |Decimal(n)| <= MaxStrDigits
    ensures YearOf(Num(n)) == Parsed(n)
  {
    var t := Decimal(n);
    ParseIntCapped(t);
    DigitsValueOfDecimal(n);
  }

  /** A stored negative number is dropped: its text starts with '-'. */
  lemma YearOfNegative(n: int)
    requires n < 0 && |Decimal(-n)| <= MaxStrDigits
    ensures YearOf(Num(n)) == Skipped
  {
    var t := IntRepr(n);
    assert t[0] == '-' && t[1..] == Decimal(-n);
    assert !IsSpace(t[|t| - 1]) by { assert t[|t| - 1] == t[1..][|t| - 2]; }
    StripUnpadded(t);
  }

  /** A stored number with more digits than `str` prints makes the request fail. */
  lemma YearOfHugeNumber(n: int)
    requires DigitCount(n) > MaxStrDigits
    ensures YearOf(Num(n)) == ValueError
  {
  }

  /**
   * A stored string holding the decimal digits of `n`, with whitespace that
   * `int()` skips around them, yields `n`.
   */
  lemma YearOfPaddedDigits(pre: string, n: nat, post: string)
    requires AllIntSpace(pre) && AllIntSpace(post)
    requires |Decimal(n)| <= MaxStrDigits
    ensures YearOf(Str(pre + Decimal(n) + post)) == Parsed(n)
  {
    ParseIntPadded(pre, Decimal(n), post);
    DigitsValueOfDecimal(n);
  }

  /**
   * A stored digit string with an information separator (U+001C to U+001F)
   * around it passes the filter, since `strip()` removes the separator, but
   * `int()` then raises.
   */
  lemma YearOfSeparatorPadded(pre: string, d: string, post: string, i: nat)
    requires AllSpace(pre) && AllSpace(post) && IsDigits(d)
    requires i < |pre + post| && IsSeparator((pre + post)[i])
    ensures YearOf(Str(pre + d + post)) == ValueError
  {
    ParseIntSeparatorPadded(pre, d, post, i);
  }

  /** A stored digit string longer than `int()` accepts makes the request fail. */
  lemma YearOfTooManyDigits(pre: string, d: string, post: string)
    requires AllSpace(pre) && AllSpace(post) && IsDigits(d)
    requires |d| > MaxStrDigits
    ensures YearOf(Str(pre + d + post)) == ValueError
  {
    assert !IsSpace(d[0]) && !IsSpace(d[|d| - 1]);
    StripPadded(pre, d, post);
  }

  /**
   * A stored string with no whitespace around it is dropped unless it is all
   * digits; then it yields its value, or fails when it is too long.
   */
  lemma YearOfUnpaddedString(s: string)
    requires s != [] && !IsSpace(s[0]) && !IsSpace(s[|s| - 1])
    ensures YearOf(Str(s)) ==
      if !IsDigits(s) then Skipped
      else if |s| <= MaxStrDigits then Parsed(DigitsValue(s))
      else ValueError
  {
    StripUnpadded(s);
    if IsDigits(s) { ParseIntCapped(s); }
  }

  /** A decimal fraction is not a year: "2005.5" is dropped. */
  lemma FractionRejected()
    ensures YearOf(Str("2005.5")) == Skipped
  {
    YearOfUnpaddedString("2005.5");
    assert "2005.5"[4] == '.';
  }

  /** A word is not a year: "abc" is dropped. */
  lemma WordRejected()
    ensures YearOf(Str("abc")) == Skipped
  {
    YearOfUnpaddedString("abc");
    assert "abc"[0] == 'a';
  }

  /** A stored digit string with nothing around it yields its value when `int()` accepts its length. */
  lemma YearOfDigitString(d: string)
    requires IsDigits(d) && |d| <= MaxStrDigits
    ensures YearOf(Str(d)) == Parsed(DigitsValue(d))
  {
    assert !IsSpace(d[0]) && !IsSpace(d[|d| - 1]);
    YearOfUnpaddedString(d);
  }

  /** The number `n` and the string `str(n)` are two stored forms of one year: both yield `n`. */
  lemma NumberAndStringAgree(n: nat)
    requires |Decimal(n)| <= MaxStrDigits
    ensures YearOf(Num(n)) == YearOf(Str(Decimal(n))) == Parsed(n)
  {
    YearOfNatural(n);
    YearOfDigitString(Decimal(n));
    DigitsValueOfDecimal(n);
  }

  /** Whatever the comprehension yields is a non-negative number that yields itself when stored as a number. */
  lemma YearOfIsNatural(y: StoredYear)
    ensures YearOf(y).Parsed? ==> YearOf(y).year >= 0 && YearOf(Num(YearOf(y).year)) == YearOf(y)
  {
    if YearOf(y).Parsed? {
      var t := Strip(Repr(y));
      DecimalNoLonger(t);
      YearOfNatural(YearOf(y).year);
    }
  }

  /**
   * The elements of the set comprehension `{int(str(y)) for y in raw if ...}`,
   * listed in input order with repeats included (`SortedSet` merges them),
   * or `None` when evaluating some value raises.
   */
  function Accepted(raw: seq<StoredYear>): (r: Option<seq<int>>)
    ensures r.None? <==> exists y :: y in raw && YearOf(y) == ValueError
    ensures r.Some? ==> forall v :: v in r.value <==> exists y :: y in raw && YearOf(y) == Parsed(v)
  {
    if raw == [] then Some([]) else
      assert forall y :: y in raw <==> y == raw[0] || y in raw[1..];
      var rest := Accepted(raw[1..]);
      match YearOf(raw[0])
      case ValueError => None
      case Skipped => rest
      case Parsed(v) => if rest.None? then None else Some([v] + rest.value)
  }

  /**
   * `sorted({int(str(y)) for y in raw if y is not None and str(y).strip().isdigit()})`:
   * `None` exactly when some raw value raises `ValueError`; otherwise strictly
   * increasing, and holding exactly the years some raw value yields.
   */
  function CleanYears(raw: seq<StoredYear>): (r: Option<seq<int>>)
    ensures r.None? <==> exists y :: y in raw && YearOf(y) == ValueError
    ensures r.Some? ==> Increasing(r.value)
    ensures r.Some? ==> forall v :: v in r.value <==> exists y :: y in raw && YearOf(y) == Parsed(v)
  {
    match Accepted(raw)
    case None => None
    case Some(years) => Some(SortedSet(years))
  }

  /** A successful result is the only strictly increasing list of those years. */
  lemma CleanYearsUnique(raw: seq<StoredYear>, r: seq<int>)
    requires Increasing(r)
    requires forall v :: v in r <==> exists y :: y in raw && YearOf(y) == Parsed(v)
    ensures CleanYears(raw).Some? ==> r == CleanYears(raw).value
  {
    if CleanYears(raw).Some? {
      IncreasingUnique(r, CleanYears(raw).value);
    }
  }

  /** A stored year padded with U+001C fails the whole request. */
  lemma SeparatorPaddedYearFails()
    ensures YearOf(Str("\U{1C}2020")) == ValueError
    ensures CleanYears([Str("\U{1C}2020")]) == None
  {
    assert "\U{1C}" + "2020" + [] == "\U{1C}2020";
    YearOfSeparatorPadded("\U{1C}", "2020", [], 0);
    assert Str("\U{1C}2020") in [Str("\U{1C}2020")];
  }

  /**
   * Storing a year a second time, in any form that evaluates the same way
   * (the digit string of a stored number, say), changes nothing.
   */
  lemma RepeatedYearAddsNothing(raw: seq<StoredYear>, earlier: StoredYear, extra: StoredYear)
    requires earlier in raw
    ensures YearOf(earlier) == YearOf(extra) ==> CleanYears(raw + [extra]) == CleanYears(raw)
  {
    if YearOf(earlier) == YearOf(extra) {
      SameYearAddsNothing(raw, raw + [extra], earlier, extra);
    }
  }

  lemma SameYearAddsNothing(raw: seq<StoredYear>, more: seq<StoredYear>, earlier: StoredYear, extra: StoredYear)
    requires earlier in raw && YearOf(earlier) == YearOf(extra)
    requires more == raw + [extra]
    ensures CleanYears(more) == CleanYears(raw)
  {
    assert forall y :: y in more <==> y in raw || y == extra;
    if YearOf(extra) == ValueError {
      BothRaise(raw, more, earlier);
    } else {
      RaisesUnchanged(raw, more, extra);
      if CleanYears(raw).Some? {
        ParsedAddsNothing(raw, more, earlier, extra);
        CleanYearsUnique(more, CleanYears(raw).value);
      }
    }
  }

  lemma BothRaise(raw: seq<StoredYear>, more: seq<StoredYear>, y: StoredYear)
    requires y in raw && y in more && YearOf(y) == ValueError
    ensures CleanYears(raw) == None && CleanYears(more) == None
  {
  }

  lemma RaisesUnchanged(raw: seq<StoredYear>, more: seq<StoredYear>, extra: StoredYear)
    requires forall y :: y in more <==> y in raw || y == extra
    requires YearOf(extra) != ValueError
    ensures CleanYears(more).None? <==> CleanYears(raw).None?
  {
    if exists y :: y in more && YearOf(y) == ValueError {
      var y :| y in more && YearOf(y) == ValueError;
      assert y in raw;
    }
  }

  lemma ParsedAddsNothing(raw: seq<StoredYear>, more: seq<StoredYear>, earlier: StoredYear, extra: StoredYear)
    requires earlier in raw && YearOf(earlier) == YearOf(extra)
    requires forall y :: y in more <==> y in raw || y == extra
    requires CleanYears(raw).Some?
    ensures forall v :: v in CleanYears(raw).value <==> exists y :: y in more && YearOf(y) == Parsed(v)
  {
    forall v | exists y :: y in more && YearOf(y) == Parsed(v)
      ensures exists y :: y in raw && YearOf(y) == Parsed(v)
    {
      var y :| y in more && YearOf(y) == Parsed(v);
      if y == extra { assert YearOf(earlier) == Parsed(v); }
    }
  }

}
