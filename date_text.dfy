/** Date strings of a fetch request: the default one-year window, the
    compaction of ISO 8601 extended dates (YYYY-MM-DD) into the basic form
    (YYYYMMDD) that the NASA POWER query takes, and the reading of the basic
    form back into a calendar date, as the NASA reply's keys are read. */
module DateText {
  import opened Outcomes
  import opened Calendar

  const DefaultStart: string := "2023-01-01"
  const DefaultEnd: string := "2023-12-31"

  /** A requested date, or the default when the request does not carry one. */
  function OrDefault(given: Option<string>, default: string): (s: string)
    ensures given.None? ==> s == default
    ensures given.Some? ==> s == given.value
  {
    match given
    case Some(v) => v
    case None => default
  }

  /** The date range of a fetch: missing ends fall back to 2023-01-01 and 2023-12-31. */
  function RequestedRange(start: Option<string>, end: Option<string>): (r: (string, string))
    ensures start.None? ==> r.0 == "2023-01-01"
    ensures end.None? ==> r.1 == "2023-12-31"
    ensures start.Some? ==> r.0 == start.value
    ensures end.Some? ==> r.1 == end.value
  {
    (OrDefault(start, DefaultStart), OrDefault(end, DefaultEnd))
  }

  /** Python's s.replace("-", ""): the string with every '-' removed. */
  function Compact(s: string): (c: string)
    ensures '-' !in c
    ensures |c| <= |s|
  {
    if s == [] then []
    else
      var rest := Compact(s[1..]);
      if s[0] == '-' then rest else [s[0]] + rest
  }

  /** Compaction removes the dashes and keeps every other character, as often
      as it occurs. */
  lemma {:induction false} CompactKeepsOthers(s: string)
    ensures multiset(Compact(s)) == multiset(s)['-' := 0]
  {
    if s != [] {
      CompactKeepsOthers(s[1..]);
      assert s == [s[0]] + s[1..];
    }
  }

  /** Dash removal works piecewise, so it keeps the other characters in order. */
  lemma {:induction false} CompactConcat(a: string, b: string)
    ensures Compact(a + b) == Compact(a) + Compact(b)
  {
    if a == [] {
      assert a + b == b;
    } else {
      var ab := a + b;
      assert ab[0] == a[0] && ab[1..] == a[1..] + b;
      CompactConcat(a[1..], b);
      var head: string := if a[0] == '-' then [] else [a[0]];
      assert Compact(ab) == head + Compact(ab[1..]);
      assert Compact(a) == head + Compact(a[1..]);
    }
  }

  /** A string without dashes is left unchanged; in particular compaction is idempotent. */
  lemma {:induction false} CompactWithoutDashes(s: string)
    requires '-' !in s
    ensures Compact(s) == s
  {
    if s != [] {
      CompactWithoutDashes(s[1..]);
    }
  }

  predicate IsDigit(ch: char)
  {
    '0' <= ch <= '9'
  }

  predicate AllDigits(s: string)
  {
    forall i :: 0 <= i < |s| ==> IsDigit(s[i])
  }

  lemma DigitsHaveNoDash(s: string)
    requires AllDigits(s)
    ensures '-' !in s && Compact(s) == s
  {
    forall i | 0 <= i < |s| ensures s[i] != '-' {
      assert IsDigit(s[i]);
    }
    CompactWithoutDashes(s);
  }

  /** ISO 8601 extended calendar date shape: YYYY-MM-DD. */
  predicate IsExtendedDate(s: string)
  {
    |s| == 10 && s[4] == '-' && s[7] == '-'
    && AllDigits(s[..4]) && AllDigits(s[5..7]) && AllDigits(s[8..])
  }

  /** ISO 8601 basic calendar date shape: YYYYMMDD. */
  predicate IsBasicDate(s: string)
  {
    |s| == 8 && AllDigits(s)
  }

  /** Re-inserts the separators of a basic-form date. */
  function Expand(b: string): string
    requires |b| == 8
  {
    b[..4] + "-" + b[4..6] + "-" + b[6..]
  }

  /** Compaction turns YYYY-MM-DD into YYYYMMDD, and re-inserting the
      separators gives the original string back. */
  lemma CompactExtendedDate(s: string)
    requires IsExtendedDate(s)
    ensures Compact(s) == s[..4] + s[5..7] + s[8..]
    ensures IsBasicDate(Compact(s))
    ensures Expand(Compact(s)) == s
  {
    var y, m, d := s[..4], s[5..7], s[8..];
    var dash: string := [s[4]];
    assert s == y + dash + m + dash + d;
    DigitsHaveNoDash(y);
    DigitsHaveNoDash(m);
    DigitsHaveNoDash(d);
    assert Compact(dash) == [];
    CompactConcat(y + dash + m + dash, d);
    CompactConcat(y + dash + m, dash);
    CompactConcat(y + dash, m);
    CompactConcat(y, dash);
    var c := y + m + d;
    assert Compact(s) == c;
    assert c[..4] == y && c[4..6] == m && c[6..] == d;
  }

  /** Every basic-form date is the compaction of exactly one extended-form date. */
  lemma ExpandThenCompact(b: string)
    requires IsBasicDate(b)
    ensures IsExtendedDate(Expand(b))
    ensures Compact(Expand(b)) == b
  {
    var s := Expand(b);
    assert s[..4] == b[..4] && s[5..7] == b[4..6] && s[8..] == b[6..];
    CompactExtendedDate(s);
    assert b == b[..4] + b[4..6] + b[6..];
  }

  function DigitValue(ch: char): (v: int)
    requires IsDigit(ch)
    ensures 0 <= v <= 9
  {
    ch as int - '0' as int
  }

  function DigitChar(v: int): (ch: char)
    requires 0 <= v <= 9
    ensures IsDigit(ch) && DigitValue(ch) == v
  {
    ('0' as int + v) as char
  }

  function Pow10(w: nat): (p: nat)
    ensures p >= 1
  {
    if w == 0 then 1 else 10 * Pow10(w - 1)
  }

  /** The decimal number written by a string of digits. */
  function Number(s: string): (n: nat)
    requires AllDigits(s)
    ensures n < Pow10(|s|)
  {
    if s == [] then 0
    else Number(s[..|s| - 1]) * 10 + DigitValue(s[|s| - 1])
  }

  /** n written with exactly w decimal digits, zero-padded on the left. */
  function Digits(n: nat, w: nat): (s: string)
    ensures |s| == w && AllDigits(s)
  {
    if w == 0 then []
    else Digits(n / 10, w - 1) + [DigitChar(n % 10)]
  }

  lemma {:induction false} NumberOfDigits(n: nat, w: nat)
    requires n < Pow10(w)
    ensures Number(Digits(n, w)) == n
  {
    if w > 0 {
      var q, d := n / 10, n % 10;
      assert n == q * 10 + d;
      assert q < Pow10(w - 1);
      NumberOfDigits(q, w - 1);
      var s := Digits(n, w);
      assert s[..|s| - 1] == Digits(q, w - 1);
      assert DigitValue(s[|s| - 1]) == d;
      assert Number(s) == Number(Digits(q, w - 1)) * 10 + d;
    }
  }

  lemma DivMod10(a: nat, b: int)
    requires 0 <= b <= 9
    ensures (a * 10 + b) / 10 == a && (a * 10 + b) % 10 == b
  {
  }

  lemma {:induction false} DigitsOfNumber(s: string)
    requires AllDigits(s)
    ensures Digits(Number(s), |s|) == s
  {
    if s != [] {
      var init, last := s[..|s| - 1], s[|s| - 1];
      assert AllDigits(init);
      DigitsOfNumber(init);
      var n := Number(s);
      assert n == Number(init) * 10 + DigitValue(last);
      DivMod10(Number(init), DigitValue(last));
      assert DigitChar(DigitValue(last)) == last;
      assert Digits(n, |s|) == Digits(Number(init), |init|) + [last];
      assert s == init + [last];
    }
  }

  /** pandas' date parsing of a YYYYMMDD key: the calendar date it names, or
      None when it is not eight digits naming a real date. */
  function ParseCompactDate(s: string): (d: Option<Date>)
    ensures d.Some? ==> ValidDate(d.value) && 0 <= d.value.year <= 9999
    ensures d.Some? ==> IsBasicDate(s)
  {
    if !IsBasicDate(s) then None
    else
      var date := Date(Number(s[..4]), Number(s[4..6]), Number(s[6..]));
      if ValidDate(date) then Some(date) else None
  }

  /** The YYYYMMDD spelling of a date with a four-digit year. */
  function FormatCompactDate(d: Date): (s: string)
    requires ValidDate(d) && 0 <= d.year <= 9999
    ensures IsBasicDate(s)
  {
    Digits(d.year, 4) + Digits(d.month, 2) + Digits(d.day, 2)
  }

  /** Reading back the YYYYMMDD spelling of a date gives the same date. */
  lemma ParseFormat(d: Date)
    requires ValidDate(d) && 0 <= d.year <= 9999
    ensures ParseCompactDate(FormatCompactDate(d)) == Some(d)
  {
    var s := FormatCompactDate(d);
    assert s[..4] == Digits(d.year, 4);
    assert s[4..6] == Digits(d.month, 2);
    assert s[6..] == Digits(d.day, 2);
    NumberOfDigits(d.year, 4);
    NumberOfDigits(d.month, 2);
    NumberOfDigits(d.day, 2);
  }

  /** A key that reads as a date is that date's YYYYMMDD spelling, so distinct
      keys always read as distinct dates. */
  lemma FormatParse(s: string)
    requires ParseCompactDate(s).Some?
    ensures FormatCompactDate(ParseCompactDate(s).value) == s
  {
    var y, m, d := s[..4], s[4..6], s[6..];
    assert AllDigits(y) && AllDigits(m) && AllDigits(d);
    var date := Date(Number(y), Number(m), Number(d));
    assert ParseCompactDate(s) == Some(date);
    DigitsOfNumber(y);
    DigitsOfNumber(m);
    DigitsOfNumber(d);
    assert FormatCompactDate(date) == y + m + d;
    assert s == y + m + d;
  }

  lemma NumberOfLiterals()
    ensures Number("2023") == 2023
    ensures Number("01") == 1 && Number("12") == 12 && Number("31") == 31
  {
    assert "2023"[..3] == "202" && "202"[..2] == "20" && "20"[..1] == "2";
    assert "01"[..1] == "0" && "12"[..1] == "1" && "31"[..1] == "3";
  }

  /** An extended-form date whose year, month and day fields read as y, m
      and d reads, once compacted, as that date. */
  lemma CompactedDateReads(s: string, y: int, m: int, d: int)
    requires IsExtendedDate(s)
    requires Number(s[..4]) == y && Number(s[5..7]) == m && Number(s[8..]) == d
    requires ValidDate(Date(y, m, d))
    ensures ParseCompactDate(Compact(s)) == Some(Date(y, m, d))
  {
    CompactExtendedDate(s);
    var b := Compact(s);
    assert b[..4] == s[..4] && b[4..6] == s[5..7] && b[6..] == s[8..];
  }

  /** The compacted default start names 1 January 2023. */
  lemma DefaultStartDate()
    ensures ParseCompactDate(Compact(DefaultStart)) == Some(Date(2023, 1, 1))
  {
    NumberOfLiterals();
    var s := DefaultStart;
    assert s[..4] == "2023" && s[5..7] == "01" && s[8..] == "01";
    CompactedDateReads(s, 2023, 1, 1);
  }

  /** The compacted default end names 31 December 2023. */
  lemma DefaultEndDate()
    ensures ParseCompactDate(Compact(DefaultEnd)) == Some(Date(2023, 12, 31))
  {
    NumberOfLiterals();
    var s := DefaultEnd;
    assert s[..4] == "2023" && s[5..7] == "12" && s[8..] == "31";
    CompactedDateReads(s, 2023, 12, 31);
  }
}
