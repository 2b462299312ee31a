/** `format_hours`: a duration shown to the nearest half hour. The duration
    is kept in whole seconds; `number * 2` hours is `seconds / 1800`, which
    Python's `round` takes to the nearest integer, ties to the even one. */
module Hours {
  import opened Wrappers
  import opened Text

  const SecondsPerHalfHour := 1800

  /** `round(seconds / 1800)`: the nearest whole number of half hours,
      an exact tie going to the even neighbour. */
  function RoundHalves(seconds: int): (k: int)
    ensures -900 <= seconds - SecondsPerHalfHour * k <= 900
    ensures seconds - SecondsPerHalfHour * k == 900 || seconds - SecondsPerHalfHour * k == -900 ==> k % 2 == 0
  {
    var q := seconds / SecondsPerHalfHour;
    var r := seconds % SecondsPerHalfHour;
    if r < 900 then q
    else if r > 900 then q + 1
    else if q % 2 == 0 then q
    else q + 1
  }

  /** The two conditions above pin the rounding down: no other count of
      half hours meets them. */
  lemma RoundHalvesUnique(seconds: int, k: int)
    requires -900 <= seconds - SecondsPerHalfHour * k <= 900
    requires seconds - SecondsPerHalfHour * k == 900 || seconds - SecondsPerHalfHour * k == -900 ==> k % 2 == 0
    ensures k == RoundHalves(seconds)
  {
  }

  /** `str(k / 2)` for an int k: the float with one decimal, `.0` or `.5`, and a sign
      only when negative. */
  function HalvesText(k: int): string {
    var m := if k < 0 then -k else k;
    (if k < 0 then "-" else "") + DecimalText(m / 2) + (if m % 2 == 0 then ".0" else ".5")
  }

  /** `format_hours(seconds / 3600)`: the text ends in `.0h` or `.5h` after
      at least one digit. */
  function FormatHours(seconds: int): (s: string)
    ensures |s| >= 4 && s[|s| - 3..] in {".0h", ".5h"}
    ensures IsDigit(s[|s| - 4])
  {
    var k := RoundHalves(seconds);
    var m := if k < 0 then -k else k;
    var digits := DecimalText(m / 2);
    var text := HalvesText(k) + "h";
    assert text[|text| - 4] == digits[|digits| - 1];
    assert text[|text| - 3..] == (if m % 2 == 0 then ".0h" else ".5h");
    text
  }

  /** Reads a displayed `<hours>h` back into its count of half hours. */
  function ReadHours(s: string): Option<int> {
    if |s| < 4 || s[|s| - 1] != 'h' || s[|s| - 3] != '.' || (s[|s| - 2] != '0' && s[|s| - 2] != '5') then None
    else
      var sign := s[..|s| - 3];
      var negative := |sign| > 0 && sign[0] == '-';
      var digits := if negative then sign[1..] else sign;
      if digits == [] || !AllDigits(digits) then None
      else
        var v := 2 * DecimalValue(digits) + (if s[|s| - 2] == '5' then 1 else 0);
        Some(if negative then -v else v)
  }

  /** The display loses nothing beyond the rounding: the shown text is read back
      as the rounded count of half hours. */
  lemma ReadFormattedHours(seconds: int)
    ensures ReadHours(FormatHours(seconds)) == Some(RoundHalves(seconds))
  {
    ReadHalvesText(RoundHalves(seconds));
  }

  /** Any count of half hours is read back from its text. */
  lemma ReadHalvesText(k: int)
    ensures ReadHours(HalvesText(k) + "h") == Some(k)
  {
    var m := if k < 0 then -k else k;
    var c := if m % 2 == 0 then '0' else '5';
    var sign := if k < 0 then "-" else "";
    assert HalvesText(k) + "h" == sign + DecimalText(m / 2) + ['.', c, 'h'];
    ReadHoursText(k < 0, m / 2, c);
    assert 2 * (m / 2) + (if c == '5' then 1 else 0) == m;
  }

  /** A sign, whole hours and a `.0` or `.5` are read back as that many half hours. */
  lemma ReadHoursText(negative: bool, q: nat, c: char)
    requires c == '0' || c == '5'
    ensures var v := 2 * q + (if c == '5' then 1 else 0);
      ReadHours((if negative then "-" else "") + DecimalText(q) + ['.', c, 'h']) == Some(if negative then -v else v)
  {
    var sign := if negative then "-" else "";
    var d := DecimalText(q);
    var s := sign + d + ['.', c, 'h'];
    assert s[..|s| - 3] == sign + d;
    assert s[|s| - 1] == 'h' && s[|s| - 2] == c && s[|s| - 3] == '.';
    DecimalRoundTrip(q);
    if negative {
      assert (sign + d)[0] == '-' && (sign + d)[1..] == d;
    } else {
      assert sign + d == d && d[0] != '-';
    }
  }

  /** Displayed values: 1.24h, 1.26h, 0h, and the ties 0.25h, 0.75h and
      2.25h, which go to the even neighbour. */
  lemma FormatHoursExamples()
    ensures FormatHours(4464) == "1.0h"
    ensures FormatHours(4536) == "1.5h"
    ensures FormatHours(0) == "0.0h"
    ensures FormatHours(900) == "0.0h"
    ensures FormatHours(2700) == "1.0h"
    ensures FormatHours(8100) == "2.0h"
  {
    assert RoundHalves(4464) == 2 && RoundHalves(4536) == 3 && RoundHalves(0) == 0;
    assert RoundHalves(900) == 0 && RoundHalves(2700) == 2 && RoundHalves(8100) == 4;
    assert HalvesText(0) == "0.0" && HalvesText(2) == "1.0";
    assert HalvesText(3) == "1.5" && HalvesText(4) == "2.0";
  }

  /** Rounding only the total is not rounding each row: two rows of a
      quarter hour each show 0.0h, their total shows 0.5h. */
  lemma RoundOnlyTheTotal()
    ensures FormatHours(900) == "0.0h" && FormatHours(900 + 900) == "0.5h"
  {
  }
}
