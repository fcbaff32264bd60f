/**
 * The `"YYYY-MM"` period labels that `read_inputs` builds from the integer
 * `YYYYMMDD` codes of a file's `time` variable, with
 * `datetime.strptime(str(int(date)), '%Y%m%d').strftime('%Y-%m')`.
 */
module Labels {
  import opened Wrappers
  import opened Text

  /** A date code as an 8-digit integer `YYYYMMDD` (so its year is 1000..9999). */
  type Code8 = c: int | 10000000 <= c <= 99999999 witness 10000000

  /** The shape of a label: four year digits (no leading zero), a dash, a month 01..12. */
  predicate IsLabel(s: string)
  {
    && |s| == 7
    && AllDigits(s[..4]) && s[0] != '0'
    && s[4] == '-'
    && AllDigits(s[5..]) && 1 <= DigitsValue(s[5..]) <= 12
  }

  type Label = s: string | IsLabel(s) witness "1000-01"

  /** The year a label names, as pandas' `.dt.year` or `int(label.split('-')[0])` gives it. */
  function LabelYear(l: Label): int
  {
    DigitsValue(l[..4])
  }

  /** The month a label names (1..12). */
  function LabelMonth(l: Label): int
  {
    DigitsValue(l[5..])
  }

  /** Proleptic Gregorian leap years, as Python's `datetime` uses them. */
  predicate IsLeapYear(y: int)
  {
    (y % 4 == 0 && y % 100 != 0) || y % 400 == 0
  }

  function DaysInMonth(y: int, m: int): (n: int)
    requires 1 <= m <= 12
    ensures 28 <= n <= 31
  {
    if m == 2 then (if IsLeapYear(y) then 29 else 28)
    else if m == 4 || m == 6 || m == 9 || m == 11 then 30
    else 31
  }

  /** What `strptime` accepts for an 8-digit `%Y%m%d` string. */
  predicate IsCalendarDate(y: int, m: int, d: int)
  {
    1 <= m <= 12 && 1 <= d <= DaysInMonth(y, m)
  }

  lemma Digits2Value(s: string)
    requires |s| == 2 && AllDigits(s)
    ensures DigitsValue(s) == DigitValue(s[0]) * 10 + DigitValue(s[1])
  {
    var t := s[1..];
    assert Pow10(1) == 10;
    assert t[1..] == [];
    assert DigitsValue(t) == DigitValue(t[0]) * Pow10(0) + DigitsValue(t[1..]);
  }

  lemma Digits4Value(s: string)
    requires |s| == 4 && AllDigits(s)
    ensures DigitsValue(s) ==
      DigitValue(s[0]) * 1000 + DigitValue(s[1]) * 100 + DigitValue(s[2]) * 10 + DigitValue(s[3])
  {
    assert Pow10(3) == 1000;
    Digits2Value(s[2..]);
    assert s[1..][1..] == s[2..];
    assert Pow10(2) == 100;
  }

  /** A number 1000..9999 is its four decimal digits. */
  lemma DecimalDigits4(y: int)
    requires 0 <= y <= 9999
    ensures y == (y / 1000) * 1000 + (y / 100 % 10) * 100 + (y / 10 % 10) * 10 + y % 10
  {
    TenthOfTenth(y);
    TenthOfTenth(y / 10);
    assert y / 10 / 100 == y / 1000;
    assert y == (y / 10) * 10 + y % 10;
    assert y / 10 == (y / 100) * 10 + y / 10 % 10;
    assert y / 100 == (y / 1000) * 10 + y / 100 % 10;
  }

  lemma TenthOfTenth(x: int)
    requires x >= 0
    ensures x / 10 / 10 == x / 100
  {
    var q, r := x / 100, x % 100;
    assert x == 10 * (10 * q + r / 10) + r % 10;
  }

  /** `strftime('%Y-%m')` for a year 1000..9999 and a month 1..12. */
  function MonthLabel(y: int, m: int): (l: Label)
    requires 1000 <= y <= 9999 && 1 <= m <= 12
    ensures LabelYear(l) == y && LabelMonth(l) == m
  {
    var s := [DigitChar(y / 1000), DigitChar(y / 100 % 10), DigitChar(y / 10 % 10), DigitChar(y % 10),
              '-', DigitChar(m / 10), DigitChar(m % 10)];
    Digits4Value(s[..4]);
    Digits2Value(s[5..]);
    DecimalDigits4(y);
    s
  }

  /**
   * One date code to its label. `None` is the `ValueError` that `strptime`
   * raises for a month outside 01..12 or a day the month does not have.
   */
  function LabelOfCode(c: Code8): (r: Option<Label>)
    ensures r.Some? <==> IsCalendarDate(c / 10000, c / 100 % 100, c % 100)
    ensures r.Some? ==> LabelYear(r.value) == c / 10000 && LabelMonth(r.value) == c / 100 % 100
  {
    var y, m, d := c / 10000, c / 100 % 100, c % 100;
    if IsCalendarDate(y, m, d) then Some(MonthLabel(y, m)) else None
  }

  /**
   * The list comprehension over a file's codes: the labels in code order, or
   * `None` when some code raises (the comprehension then yields nothing).
   */
  function LabelsOfCodes(cs: seq<Code8>): (r: Option<seq<Label>>)
    ensures r.Some? <==> forall i :: 0 <= i < |cs| ==> LabelOfCode(cs[i]).Some?
    ensures r.Some? ==> |r.value| == |cs| &&
                        forall i :: 0 <= i < |cs| ==> Some(r.value[i]) == LabelOfCode(cs[i])
    decreases |cs|
  {
    if |cs| == 0 then Some([])
    else
      match (LabelOfCode(cs[0]), LabelsOfCodes(cs[1..]))
      case (Some(l), Some(ls)) => Some([l] + ls)
      case _ => None
  }

  /** `f"{year}-01"`: the January label of a year text. */
  function JanuaryLabel(yearText: string): string
  {
    yearText + "-01"
  }

  /** `label.split('-')[0]` of a label is its four year digits. */
  lemma YearTextOfLabel(l: Label)
    ensures BeforeDash(l) == l[..4] && DigitsValue(BeforeDash(l)) == LabelYear(l)
  {
    BeforeDashAt(l, 4);
  }

  lemma {:induction false} BeforeDashAt(s: string, i: nat)
    requires i < |s| && s[i] == '-' && forall j :: 0 <= j < i ==> s[j] != '-'
    ensures BeforeDash(s) == s[..i]
    decreases i
  {
    if i > 0 {
      BeforeDashAt(s[1..], i - 1);
      assert [s[0]] + s[1..][..i - 1] == s[..i];
    }
  }

  /** Labels sort as strings exactly as their (year, month) pairs sort in time. */
  lemma LabelOrderIsChronological(a: Label, b: Label)
    ensures LexLe(a, b) <==>
            LabelYear(a) < LabelYear(b) || (LabelYear(a) == LabelYear(b) && LabelMonth(a) <= LabelMonth(b))
  {
    assert a == a[..4] + a[4..] && b == b[..4] + b[4..];
    LexLeConcat(a[..4], a[4..], b[..4], b[4..]);
    assert a[4..] == "-" + a[5..] && b[4..] == "-" + b[5..];
    assert LexLe(a[4..], b[4..]) == LexLe(a[5..], b[5..]);
    DigitsOrder(a[..4], b[..4]);
    DigitsOrder(a[5..], b[5..]);
    if a[..4] != b[..4] && LabelYear(a) == LabelYear(b) {
      DigitsInjective(a[..4], b[..4]);
    }
  }

  /** The worked example: code 19510307 is labelled "1951-03". */
  lemma ExampleCode()
    ensures LabelOfCode(19510307) == Some("1951-03")
  {
    assert 19510307 / 10000 == 1951 && 19510307 / 100 % 100 == 3 && 19510307 % 100 == 7;
    assert DaysInMonth(1951, 3) == 31;
    assert 1951 / 1000 == 1 && 1951 / 100 % 10 == 9 && 1951 / 10 % 10 == 5 && 1951 % 10 == 1;
    assert MonthLabel(1951, 3) == [DigitChar(1), DigitChar(9), DigitChar(5), DigitChar(1), '-', DigitChar(0), DigitChar(3)];
  }
}
