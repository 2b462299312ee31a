/** `parse_date` of taimio_report.py: the loose ISO 8601 calendar-date
    grammar `DATE_REGEX` (complete and reduced-accuracy extended forms,
    ISO 8601:2004 section 5.2.1), read into a year and optional month and day. */
module DateSpec {
  import opened Wrappers
  import opened Text
  import opened Calendar

  /** The 3-tuple `parse_date` yields: `int` for a group that matched, None otherwise. */
  datatype DateParts = DateParts(year: nat, month: Option<nat>, day: Option<nat>)

  /** `(0\d|1[0-2])` */
  predicate IsMonthToken(t: string) {
    |t| == 2 && ((t[0] == '0' && IsDigit(t[1])) || (t[0] == '1' && '0' <= t[1] <= '2'))
  }

  /** `([0-2]\d|3[0-1])` */
  predicate IsDayToken(t: string) {
    |t| == 2 && (('0' <= t[0] <= '2' && IsDigit(t[1])) || (t[0] == '3' && '0' <= t[1] <= '1'))
  }

  /** `(\d+)` */
  predicate IsYearText(t: string) {
    |t| > 0 && AllDigits(t)
  }

  /** The reference reading of `^(\d+)(?:-(0\d|1[0-2])(?:-([0-2]\d|3[0-1]))?)?$`,
      from the right: month and day have fixed width, the year takes the rest. */
  ghost predicate MatchesDateRegex(s: string) {
    || IsYearText(s)
    || (|s| >= 4 && IsYearText(s[..|s| - 3]) && s[|s| - 3] == '-' && IsMonthToken(s[|s| - 2..]))
    || (&& |s| >= 7 && IsYearText(s[..|s| - 6]) && s[|s| - 6] == '-'
        && IsMonthToken(s[|s| - 5..|s| - 3]) && s[|s| - 3] == '-' && IsDayToken(s[|s| - 2..]))
  }

  /** The length of the run of digits s starts with. */
  function LeadingDigits(s: string): (n: nat)
    ensures n <= |s| && AllDigits(s[..n])
    ensures n < |s| ==> !IsDigit(s[n])
  {
    if s != [] && IsDigit(s[0]) then
      var n := 1 + LeadingDigits(s[1..]);
      assert s[..n] == [s[0]] + s[1..][..n - 1];
      n
    else 0
  }

  lemma LeadingDigitsAt(s: string, k: nat)
    requires k <= |s| && AllDigits(s[..k]) && (k < |s| ==> !IsDigit(s[k]))
    ensures LeadingDigits(s) == k
  {
    var n := LeadingDigits(s);
    assert forall i :: 0 <= i < k ==> s[..k][i] == s[i];
    assert forall i :: 0 <= i < n ==> s[..n][i] == s[i];
  }

  /** `parse_date(date)`: scans the year digits, then an optional `-MM`,
      then (only after a month) an optional `-DD`, and must reach the end. */
  function ParseDate(s: string): (r: Option<DateParts>)
    ensures r.Some? && r.value.month.Some? ==> r.value.month.value <= 12
    ensures r.Some? && r.value.day.Some? ==> r.value.month.Some? && r.value.day.value <= 31
  {
    var n := LeadingDigits(s);
    if n == 0 then None
    else
      var year := DecimalValue(s[..n]);
      var rest := s[n..];
      if rest == [] then Some(DateParts(year, None, None))
      else if |rest| >= 3 && rest[0] == '-' && IsMonthToken(rest[1..3]) then
        var month := TokenValue(rest[1..3]);
        var tail := rest[3..];
        if tail == [] then Some(DateParts(year, Some(month), None))
        else if |tail| == 3 && tail[0] == '-' && IsDayToken(tail[1..]) then
          Some(DateParts(year, Some(month), Some(TokenValue(tail[1..]))))
        else None
      else None
  }

  /** `int()` of a two-digit month or day token. */
  function TokenValue(t: string): (v: nat)
    requires |t| == 2 && IsDigit(t[0]) && IsDigit(t[1])
    ensures IsMonthToken(t) ==> v <= 12
    ensures IsDayToken(t) ==> v <= 31
    ensures v == DecimalValue(t)
  {
    assert DecimalValue(t[..1]) == DigitValue(t[0]) by { assert t[..1][..0] == []; }
    10 * DigitValue(t[0]) + DigitValue(t[1])
  }

  /** `parse_date` accepts exactly the strings `DATE_REGEX` matches. */
  lemma ParseDateAcceptsExactly(s: string)
    ensures ParseDate(s).Some? <==> MatchesDateRegex(s)
  {
    if ParseDate(s).Some? {
      ParseDateSound(s);
    }
    if MatchesDateRegex(s) {
      ParseDateComplete(s);
    }
  }

  lemma ParseDateSound(s: string)
    requires ParseDate(s).Some?
    ensures MatchesDateRegex(s)
  {
    var n := LeadingDigits(s);
    var rest := s[n..];
    if rest == [] {
      assert s[..n] == s;
    } else if rest[3..] == [] {
      assert n == |s| - 3 && rest[1..3] == s[|s| - 2..];
    } else {
      assert n == |s| - 6 && rest[1..3] == s[|s| - 5..|s| - 3] && rest[3..][1..] == s[|s| - 2..];
    }
  }

  lemma ParseDateComplete(s: string)
    requires MatchesDateRegex(s)
    ensures ParseDate(s).Some?
  {
    if IsYearText(s) {
      ParseYearOnly(s);
    } else if |s| >= 4 && IsYearText(s[..|s| - 3]) && s[|s| - 3] == '-' && IsMonthToken(s[|s| - 2..]) {
      var y, m := s[..|s| - 3], s[|s| - 2..];
      assert s == y + "-" + m;
      ParseYearMonth(y, m);
    } else {
      var y, m, d := s[..|s| - 6], s[|s| - 5..|s| - 3], s[|s| - 2..];
      assert s == y + "-" + m + "-" + d;
      ParseCompleteDate(y, m, d);
    }
  }

  /** A complete extended-format date `YYYY-MM-DD` is read field by field. */
  lemma ParseCompleteDate(y: string, m: string, d: string)
    requires IsYearText(y) && IsMonthToken(m) && IsDayToken(d)
    ensures ParseDate(y + "-" + m + "-" + d)
            == Some(DateParts(DecimalValue(y), Some(TokenValue(m)), Some(TokenValue(d))))
  {
    var s := y + "-" + m + "-" + d;
    assert s[..|y|] == y;
    LeadingDigitsAt(s, |y|);
    var rest := s[|y|..];
    assert rest == "-" + m + "-" + d;
    assert rest[1..3] == m && rest[3..][1..] == d;
  }

  /** A year alone is read with no month and no day. */
  lemma ParseYearOnly(y: string)
    requires IsYearText(y)
    ensures ParseDate(y) == Some(DateParts(DecimalValue(y), None, None))
  {
    assert y[..|y|] == y;
    LeadingDigitsAt(y, |y|);
  }

  /** A reduced-accuracy `YYYY-MM` is read with no day. */
  lemma ParseYearMonth(y: string, m: string)
    requires IsYearText(y) && IsMonthToken(m)
    ensures ParseDate(y + "-" + m) == Some(DateParts(DecimalValue(y), Some(TokenValue(m)), None))
  {
    var s := y + "-" + m;
    assert s[..|y|] == y;
    LeadingDigitsAt(s, |y|);
    var rest := s[|y|..];
    assert rest == "-" + m;
    assert rest[1..3] == m && rest[3..] == [];
  }

  /** The values read are the numbers the matched groups spell. */
  lemma ParseDateValues(s: string, k: nat)
    requires k <= |s| && IsYearText(s[..k]) && (k == |s| || s[k] == '-')
    requires ParseDate(s).Some?
    ensures ParseDate(s).value.year == DecimalValue(s[..k])
    ensures ParseDate(s).value.month.Some? <==> k < |s|
    ensures k < |s| ==> ParseDate(s).value.month.value == DecimalValue(s[k + 1..k + 3])
    ensures ParseDate(s).value.day.Some? <==> k + 3 < |s|
    ensures k + 3 < |s| ==> ParseDate(s).value.day.value == DecimalValue(s[k + 4..])
  {
    LeadingDigitsAt(s, k);
    if k < |s| {
      assert s[k..][1..3] == s[k + 1..k + 3];
      if k + 3 < |s| {
        assert s[k..][3..][1..] == s[k + 4..];
      }
    }
  }

  /** `str(date)` of a valid date is read back by `parse_date` as that date. */
  lemma ParseIsoText(d: Date)
    requires IsValidDate(d)
    ensures ParseDate(IsoText(d)) == Some(DateParts(d.year, Some(d.month), Some(d.day)))
  {
    var y := PadLeft(DecimalText(d.year), 4);
    var m := PadLeft(DecimalText(d.month), 2);
    var dd := PadLeft(DecimalText(d.day), 2);
    PaddedDecimal(d.year, 4);
    PaddedField(d.month);
    PaddedField(d.day);
    assert IsoText(d) == y + "-" + m + "-" + dd;
    ParseCompleteDate(y, m, dd);
  }

  /** `'%02d' % v` of a month or day number is a token `DATE_REGEX` accepts for it. */
  lemma PaddedField(v: nat)
    requires 1 <= v <= 31
    ensures var t := PadLeft(DecimalText(v), 2);
      && IsDayToken(t) && TokenValue(t) == v
      && (v <= 12 ==> IsMonthToken(t))
  {
    var t := PadLeft(DecimalText(v), 2);
    PaddedDecimal(v, 2);
    assert |t| == 2;
    assert TokenValue(t) == v;
  }
}
