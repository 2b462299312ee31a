/** The string operations the report relies on, as Python defines them:
    `int()` and `str()` of non-negative integers in decimal, zero padding,
    `str.strip()`, `str.split(sep, 1)`, `str.join` and the code-point order
    that `sorted` uses on strings. */
module Text {
  import opened Wrappers
  import opened Sorting

  predicate IsDigit(c: char) {
    '0' <= c <= '9'
  }

  predicate AllDigits(s: string) {
    forall i :: 0 <= i < |s| ==> IsDigit(s[i])
  }

  function DigitValue(c: char): nat
    requires IsDigit(c)
  {
    c as int - '0' as int
  }

  function DigitChar(n: nat): (c: char)
    requires n < 10
    ensures IsDigit(c) && DigitValue(c) == n
  {
    ('0' as int + n) as char
  }

  /** `int(s)` for a run of decimal digits; leading zeros are allowed. */
  function DecimalValue(s: string): nat
    requires AllDigits(s)
  {
    if s == [] then 0 else 10 * DecimalValue(s[..|s| - 1]) + DigitValue(s[|s| - 1])
  }

  /** `str(n)` for a non-negative integer: no sign, no leading zero. */
  function DecimalText(n: nat): (s: string)
    ensures |s| > 0 && AllDigits(s)
    ensures n < 10 <==> |s| == 1
    ensures 10 <= n < 100 <==> |s| == 2
  {
    if n < 10 then [DigitChar(n)] else DecimalText(n / 10) + [DigitChar(n % 10)]
  }

  lemma {:induction false} DecimalRoundTrip(n: nat)
    ensures DecimalValue(DecimalText(n)) == n
  {
    if n >= 10 {
      var s := DecimalText(n);
      assert s[..|s| - 1] == DecimalText(n / 10);
      DecimalRoundTrip(n / 10);
    }
  }

  /** `int()` of four digits. */
  lemma YearValue(a: char, b: char, c: char, d: char)
    requires IsDigit(a) && IsDigit(b) && IsDigit(c) && IsDigit(d)
    ensures DecimalValue([a, b, c, d]) == 1000 * DigitValue(a) + 100 * DigitValue(b) + 10 * DigitValue(c) + DigitValue(d)
  {
    assert [a, b, c, d][..3] == [a, b, c];
    assert [a, b, c][..2] == [a, b];
    assert [a, b][..1] == [a];
    assert [a][..0] == [];
    assert DecimalValue([a]) == DigitValue(a);
    assert DecimalValue([a, b]) == 10 * DigitValue(a) + DigitValue(b);
    assert DecimalValue([a, b, c]) == 100 * DigitValue(a) + 10 * DigitValue(b) + DigitValue(c);
  }

  /** `'%0*d' % (width, n)` applied to the digits of n: pads with zeros on the left. */
  function PadLeft(s: string, width: nat): (r: string)
    ensures |r| == if |s| < width then width else |s|
    ensures r[|r| - |s|..] == s
    ensures forall i :: 0 <= i < |r| - |s| ==> r[i] == '0'
  {
    if |s| < width then seq(width - |s|, _ => '0') + s else s
  }

  lemma {:induction false} LeadingZeros(s: string, z: string)
    requires AllDigits(s) && forall i :: 0 <= i < |z| ==> z[i] == '0'
    ensures AllDigits(z + s) && DecimalValue(z + s) == DecimalValue(s)
    decreases |s|
  {
    if s == [] {
      ZerosAreZero(z);
      assert z + s == z;
    } else {
      assert (z + s)[..|z + s| - 1] == z + s[..|s| - 1];
      LeadingZeros(s[..|s| - 1], z);
    }
  }

  lemma {:induction false} ZerosAreZero(z: string)
    requires forall i :: 0 <= i < |z| ==> z[i] == '0'
    ensures AllDigits(z) && DecimalValue(z) == 0
  {
    if z != [] {
      ZerosAreZero(z[..|z| - 1]);
    }
  }

  lemma PaddedDecimal(n: nat, width: nat)
    ensures AllDigits(PadLeft(DecimalText(n), width))
    ensures DecimalValue(PadLeft(DecimalText(n), width)) == n
  {
    var t := DecimalText(n);
    var r := PadLeft(t, width);
    var z := r[..|r| - |t|];
    assert r == z + t;
    LeadingZeros(t, z);
    DecimalRoundTrip(n);
  }

  /** The characters `str.isspace()` holds of: Python's Unicode whitespace. */
  const Whitespace: set<char> := {
      '\U{9}', '\U{A}', '\U{B}', '\U{C}', '\U{D}', '\U{1C}', '\U{1D}', '\U{1E}',
      '\U{1F}', '\U{20}', '\U{85}', '\U{A0}', '\U{1680}', '\U{2000}', '\U{2001}',
      '\U{2002}', '\U{2003}', '\U{2004}', '\U{2005}', '\U{2006}', '\U{2007}',
      '\U{2008}', '\U{2009}', '\U{200A}', '\U{2028}', '\U{2029}', '\U{202F}',
      '\U{205F}', '\U{3000}'
    }

  predicate IsWhitespace(c: char) {
    c in Whitespace
  }

  /** The number of characters at the start of s that `drop` holds of. */
  function LeadingRun(s: string, drop: char -> bool): (n: nat)
    ensures n <= |s|
    ensures forall k :: 0 <= k < n ==> drop(s[k])
    ensures n < |s| ==> !drop(s[n])
  {
    if s != [] && drop(s[0]) then 1 + LeadingRun(s[1..], drop) else 0
  }

  /** The number of characters at the end of s that `drop` holds of. */
  function TrailingRun(s: string, drop: char -> bool): (n: nat)
    ensures n <= |s|
    ensures forall k :: |s| - n <= k < |s| ==> drop(s[k])
    ensures n < |s| ==> !drop(s[|s| - n - 1])
  {
    if s != [] && drop(s[|s| - 1]) then 1 + TrailingRun(s[..|s| - 1], drop) else 0
  }

  /** r is s[i..i + |r|] and `drop` holds of everything of s around it. */
  ghost predicate IsTrimmedSlice(s: string, r: string, i: int, drop: char -> bool) {
    && 0 <= i <= |s| - |r| && r == s[i..i + |r|]
    && (forall k :: 0 <= k < i ==> drop(s[k]))
    && (forall k :: i + |r| <= k < |s| ==> drop(s[k]))
  }

  /** s without the characters `drop` holds of at either end. */
  function Trim(s: string, drop: char -> bool): string {
    var i := LeadingRun(s, drop);
    s[i..|s| - TrailingRun(s[i..], drop)]
  }

  lemma TrimKeepsTheMiddle(s: string, drop: char -> bool)
    ensures var r := Trim(s, drop);
      && (r != [] ==> !drop(r[0]) && !drop(r[|r| - 1]))
      && IsTrimmedSlice(s, r, LeadingRun(s, drop), drop)
  {
    TrimmedEnds(s, drop);
    TrimmedAround(s, drop);
  }

  /** What Trim keeps starts and ends with characters `drop` does not hold of. */
  lemma TrimmedEnds(s: string, drop: char -> bool)
    ensures var r := Trim(s, drop);
      r != [] ==> !drop(r[0]) && !drop(r[|r| - 1])
  {
    var i := LeadingRun(s, drop);
    var rest := s[i..];
    var t := TrailingRun(rest, drop);
    var r := Trim(s, drop);
    if r != [] {
      assert r[0] == s[i];
      assert r[|r| - 1] == rest[|rest| - t - 1];
    }
  }

  /** What Trim keeps is a slice of s with only dropped characters around it. */
  lemma TrimmedAround(s: string, drop: char -> bool)
    ensures IsTrimmedSlice(s, Trim(s, drop), LeadingRun(s, drop), drop)
  {
    var i := LeadingRun(s, drop);
    var rest := s[i..];
    var t := TrailingRun(rest, drop);
    var r := Trim(s, drop);
    assert |r| == |rest| - t;
    forall k | i + |r| <= k < |s| ensures drop(s[k]) {
      assert s[k] == rest[k - i];
    }
  }

  /** `s.strip()`: s without its leading and trailing whitespace. */
  function Strip(s: string): (r: string)
    ensures |r| <= |s|
    ensures r != [] ==> !IsWhitespace(r[0]) && !IsWhitespace(r[|r| - 1])
  {
    TrimmedEnds(s, IsWhitespace);
    Trim(s, IsWhitespace)
  }

  /** What `strip` removes is whitespace, and what it keeps neither starts
      nor ends with whitespace. */
  lemma StripTrimsWhitespace(s: string)
    ensures var r := Strip(s);
      && (r != [] ==> !IsWhitespace(r[0]) && !IsWhitespace(r[|r| - 1]))
      && exists i :: IsTrimmedSlice(s, r, i, IsWhitespace)
  {
    TrimKeepsTheMiddle(s, IsWhitespace);
  }

  /** `s.split(sep, 1)`: the text before the first sep and the text after it,
      or None when s holds no sep (the source then fails to unpack a pair). */
  function SplitAtFirst(s: string, sep: char): (r: Option<(string, string)>)
    ensures r.None? <==> sep !in s
  {
    if s == [] then None
    else if s[0] == sep then Some(([], s[1..]))
    else
      match SplitAtFirst(s[1..], sep)
      case None => None
      case Some((before, after)) => Some(([s[0]] + before, after))
  }

  /** The split is at the first sep: the two parts put back around it give s,
      and the first part holds no sep. */
  lemma {:induction false} SplitAtFirstParts(s: string, sep: char)
    requires sep in s
    ensures var (before, after) := SplitAtFirst(s, sep).value;
      s == before + [sep] + after && sep !in before
  {
    if s[0] != sep {
      SplitAtFirstParts(s[1..], sep);
      assert s == [s[0]] + s[1..];
    }
  }

  /** The total length of the parts. */
  function TotalLength(parts: seq<string>): nat {
    if parts == [] then 0 else |parts[0]| + TotalLength(parts[1..])
  }

  /** `sep.join(parts)`: the first part leads, and the length is the parts'
      lengths plus one separator between each two. */
  function Join(sep: string, parts: seq<string>): (r: string)
    ensures parts == [] ==> r == []
    ensures parts != [] ==> parts[0] <= r
    ensures |r| == TotalLength(parts) + (if parts == [] then 0 else (|parts| - 1) * |sep|)
  {
    if |parts| == 0 then ""
    else if |parts| == 1 then parts[0]
    else parts[0] + sep + Join(sep, parts[1..])
  }

  /** Joining one more part appends a separator and that part: every part
      appears in order, with the separator between each two. */
  lemma {:induction false} JoinSnoc(sep: string, parts: seq<string>, p: string)
    requires parts != []
    ensures Join(sep, parts + [p]) == Join(sep, parts) + sep + p
  {
    if |parts| == 1 {
      assert parts + [p] == [parts[0], p];
    } else {
      JoinSnoc(sep, parts[1..], p);
      assert (parts + [p])[1..] == parts[1..] + [p];
    }
  }

  /** Python's `<` on str: lexicographic by code point, a proper prefix first. */
  predicate Less(a: string, b: string) {
    if a == [] then b != []
    else if b == [] then false
    else a[0] < b[0] || (a[0] == b[0] && Less(a[1..], b[1..]))
  }

  lemma {:induction false} LessIrreflexive(a: string)
    ensures !Less(a, a)
  {
    if a != [] { LessIrreflexive(a[1..]); }
  }

  lemma {:induction false} LessTransitive(a: string, b: string, c: string)
    requires Less(a, b) && Less(b, c)
    ensures Less(a, c)
  {
    if a != [] && a[0] == b[0] && b[0] == c[0] {
      LessTransitive(a[1..], b[1..], c[1..]);
    }
  }

  lemma {:induction false} LessTotal(a: string, b: string)
    ensures a == b || Less(a, b) || Less(b, a)
  {
    if a != [] && b != [] && a[0] == b[0] {
      LessTotal(a[1..], b[1..]);
      assert a == [a[0]] + a[1..] && b == [b[0]] + b[1..];
    }
  }

  lemma LessIsStrictTotalOrder()
    ensures IsStrictTotalOrder(Less)
  {
    forall a: string ensures !Less(a, a) { LessIrreflexive(a); }
    forall a: string, b: string, c: string | Less(a, b) && Less(b, c) ensures Less(a, c) {
      LessTransitive(a, b, c);
    }
    forall a: string, b: string ensures a == b || Less(a, b) || Less(b, a) { LessTotal(a, b); }
  }
}
