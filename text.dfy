/**
 * Python string operations the scripts rely on: `startswith`, `endswith`,
 * `split('-')[0]`, the `<=` order on `str` used by `sorted`, and the value
 * of a string of decimal digits (`int(...)`).
 */
module Text {

  /** `s.startswith(prefix)`. */
  predicate StartsWith(s: string, prefix: string)
  {
    |prefix| <= |s| && s[..|prefix|] == prefix
  }

  /** `s.endswith(suffix)`. */
  predicate EndsWith(s: string, suffix: string)
  {
    |suffix| <= |s| && s[|s| - |suffix|..] == suffix
  }

  /** `s.split('-')[0]`: everything before the first dash (all of `s` if it has none). */
  function BeforeDash(s: string): (r: string)
    ensures |r| <= |s| && r == s[..|r|]
    decreases |s|
  {
    if |s| == 0 || s[0] == '-' then [] else [s[0]] + BeforeDash(s[1..])
  }

  /**
   * Python's `a <= b` on strings: code points compared left to right, and a
   * proper prefix sorts before the longer string.
   */
  predicate LexLe(a: string, b: string)
    decreases |a|
  {
    if |a| == 0 then true
    else if |b| == 0 then false
    else if a[0] != b[0] then a[0] < b[0]
    else LexLe(a[1..], b[1..])
  }

  lemma {:induction false} LexLeReflexive(a: string)
    ensures LexLe(a, a)
    decreases |a|
  {
    if |a| > 0 { LexLeReflexive(a[1..]); }
  }

  lemma {:induction false} LexLeTotal(a: string, b: string)
    ensures LexLe(a, b) || LexLe(b, a)
    decreases |a|
  {
    if |a| > 0 && |b| > 0 && a[0] == b[0] { LexLeTotal(a[1..], b[1..]); }
  }

  lemma {:induction false} LexLeTransitive(a: string, b: string, c: string)
    requires LexLe(a, b) && LexLe(b, c)
    ensures LexLe(a, c)
    decreases |a|
  {
    if |a| > 0 && |b| > 0 && |c| > 0 && a[0] == b[0] && b[0] == c[0] {
      LexLeTransitive(a[1..], b[1..], c[1..]);
    }
  }

  lemma {:induction false} LexLeAntisymmetric(a: string, b: string)
    requires LexLe(a, b) && LexLe(b, a)
    ensures a == b
    decreases |a|
  {
    if |a| > 0 {
      LexLeAntisymmetric(a[1..], b[1..]);
      assert a == [a[0]] + a[1..] && b == [b[0]] + b[1..];
    }
  }

  /**
   * Comparing two strings that start with parts of equal length: the first
   * parts decide unless they are equal, in which case the rest decides.
   */
  lemma {:induction false} LexLeConcat(a: string, b: string, a2: string, b2: string)
    requires |a| == |a2|
    ensures LexLe(a + b, a2 + b2) == if a == a2 then LexLe(b, b2) else LexLe(a, a2)
    decreases |a|
  {
    if |a| > 0 {
      assert (a + b)[1..] == a[1..] + b;
      assert (a2 + b2)[1..] == a2[1..] + b2;
      LexLeConcat(a[1..], b, a2[1..], b2);
      if a[0] == a2[0] && a[1..] == a2[1..] {
        assert a == [a[0]] + a[1..] && a2 == [a2[0]] + a2[1..];
      }
    } else {
      assert a + b == b && a2 + b2 == b2;
    }
  }

  predicate IsDigit(c: char)
  {
    '0' <= c <= '9'
  }

  predicate AllDigits(s: string)
  {
    forall i :: 0 <= i < |s| ==> IsDigit(s[i])
  }

  function DigitValue(c: char): (d: nat)
    requires IsDigit(c)
    ensures d < 10
  {
    (c as int) - ('0' as int)
  }

  /** The character `str(d)` for one decimal digit. */
  function DigitChar(d: int): (c: char)
    requires 0 <= d < 10
    ensures IsDigit(c) && DigitValue(c) == d
  {
    (('0' as int) + d) as char
  }

  function Pow10(n: nat): (p: nat)
    ensures p >= 1
  {
    if n == 0 then 1 else 10 * Pow10(n - 1)
  }

  /** `int(s)` for a non-empty string of decimal digits (leading zeros allowed). */
  function DigitsValue(s: string): (v: nat)
    requires AllDigits(s)
    decreases |s|
  {
    if |s| == 0 then 0 else DigitValue(s[0]) * Pow10(|s| - 1) + DigitsValue(s[1..])
  }

  lemma {:induction false} DigitsValueBound(s: string)
    requires AllDigits(s)
    ensures DigitsValue(s) < Pow10(|s|)
    decreases |s|
  {
    if |s| > 0 {
      DigitsValueBound(s[1..]);
      var p := Pow10(|s| - 1);
      var d := DigitValue(s[0]);
      assert Pow10(|s|) == 10 * p;
      assert DigitsValue(s) == d * p + DigitsValue(s[1..]);
      DigitTimes(d, p);
    }
  }

  /** A digit times `p` is at most `9 * p`. */
  lemma {:induction false} DigitTimes(d: nat, p: nat)
    requires d < 10
    ensures d * p <= 9 * p
    decreases 9 - d
  {
    if d < 9 {
      DigitTimes(d + 1, p);
      assert (d + 1) * p == d * p + p;
    }
  }

  /**
   * On digit strings of one length, the string order is the numeric order:
   * this is why sorting zero-padded labels as strings sorts them by number.
   */
  lemma {:induction false} DigitsOrder(a: string, b: string)
    requires |a| == |b| && AllDigits(a) && AllDigits(b)
    ensures LexLe(a, b) <==> DigitsValue(a) <= DigitsValue(b)
    decreases |a|
  {
    if |a| > 0 {
      var p := Pow10(|a| - 1);
      DigitsValueBound(a[1..]);
      DigitsValueBound(b[1..]);
      var da, db := DigitValue(a[0]), DigitValue(b[0]);
      if a[0] == b[0] {
        DigitsOrder(a[1..], b[1..]);
      } else if a[0] < b[0] {
        LeadingDigitDecides(da, db, DigitsValue(a[1..]), DigitsValue(b[1..]), p);
      } else {
        LeadingDigitDecides(db, da, DigitsValue(b[1..]), DigitsValue(a[1..]), p);
      }
    }
  }

  /** A smaller leading digit makes a smaller number, whatever follows it. */
  lemma {:induction false} LeadingDigitDecides(da: nat, db: nat, ra: nat, rb: nat, p: nat)
    requires da < db && ra < p
    ensures da * p + ra < db * p + rb
    decreases db - da
  {
    if da + 1 == db {
      assert db * p == da * p + p;
    } else {
      LeadingDigitDecides(da, db - 1, ra, 0, p);
      assert db * p == (db - 1) * p + p;
    }
  }

  /** Equal-length digit strings with the same value are the same string. */
  lemma DigitsInjective(a: string, b: string)
    requires |a| == |b| && AllDigits(a) && AllDigits(b)
    requires DigitsValue(a) == DigitsValue(b)
    ensures a == b
  {
    DigitsOrder(a, b);
    DigitsOrder(b, a);
    LexLeAntisymmetric(a, b);
  }

  /** A non-empty sequence is its head followed by its tail. */
  lemma HeadTail<T>(s: seq<T>)
    requires |s| > 0
    ensures s == [s[0]] + s[1..]
  {
  }
}
