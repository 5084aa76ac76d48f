/// The few Python string and number built-ins the catalog logic relies on:
/// `str(n)` for a counter, `str.rjust`, `str.replace` of one character, the
/// `int(c)` digit test, and the ordering `sorted` uses on strings.
module Text {

  /** An ASCII decimal digit. */
  predicate IsDigit(c: char) {
    '0' <= c <= '9'
  }

  /** Whether Python's `int(c)` accepts the one-character string `c`. */
  predicate IsNumeric(c: char) {
    IsDigit(c)
  }

  predicate AllDigits(s: string) {
    forall i :: 0 <= i < |s| ==> IsDigit(s[i])
  }

  function DigitValue(c: char): nat {
    if IsDigit(c) then c as int - '0' as int else 0
  }

  function DigitChar(d: nat): (c: char)
    requires d < 10
    ensures IsDigit(c) && DigitValue(c) == d
  {
    ('0' as int + d) as char
  }

  /** The number a string of decimal digits denotes (leading zeros allowed). */
  function Value(s: string): nat
    decreases |s|
  {
    if s == [] then 0 else 10 * Value(s[..|s| - 1]) + DigitValue(s[|s| - 1])
  }

  /** Python's `str(n)` for a non-negative integer: decimal, no leading zero. */
  function Str(n: nat): (s: string)
    ensures |s| >= 1 && AllDigits(s)
    ensures Value(s) == n
    ensures s[0] == '0' ==> n == 0
    decreases n
  {
    if n < 10 then [DigitChar(n)]
    else
      var s := Str(n / 10) + [DigitChar(n % 10)];
      assert s[..|s| - 1] == Str(n / 10);
      s
  }

  /** `len(str(n))`: the number of decimal digits of `n`. */
  function Width(n: nat): nat {
    |Str(n)|
  }

  predicate PowerOfTen(m: nat) {
    m == 1 || (m >= 10 && m % 10 == 0 && PowerOfTen(m / 10))
  }

  lemma {:induction false} WidthUnfold(n: nat)
    ensures Width(n) == if n < 10 then 1 else 1 + Width(n / 10)
  {
  }

  /** Incrementing a counter adds a decimal digit exactly when the new value is
      10, 100, 1000, ...; otherwise the width stays the same. */
  lemma {:induction false} WidthStep(n: nat)
    ensures Width(n + 1) == Width(n) + (if n + 1 >= 10 && PowerOfTen(n + 1) then 1 else 0)
    decreases n
  {
    WidthUnfold(n);
    WidthUnfold(n + 1);
    if n + 1 < 10 {
    } else if n + 1 == 10 {
      assert PowerOfTen(1);
    } else {
      var m := n / 10;
      assert Width(n) == 1 + Width(m);
      if (n + 1) % 10 == 0 {
        assert (n + 1) / 10 == m + 1;
        assert Width(n + 1) == 1 + Width(m + 1);
        WidthStep(m);
        assert PowerOfTen(n + 1) <==> PowerOfTen(m + 1);
        assert PowerOfTen(m + 1) ==> m + 1 >= 10;
      } else {
        assert (n + 1) / 10 == m;
        assert Width(n + 1) == 1 + Width(m);
        assert !PowerOfTen(n + 1);
      }
    }
  }

  /** The two facts about widths the expander needs: they never shrink, and a
      width change is a one-digit growth. */
  lemma WidthGrows(n: nat)
    ensures Width(n) <= Width(n + 1) <= Width(n) + 1
  {
    WidthStep(n);
  }

  /** Python's `s.rjust(width, fill)`: pad on the left up to `width`, never truncate. */
  function RJust(s: string, width: nat, fill: char): (r: string)
    ensures |r| == if |s| < width then width else |s|
    ensures r[|r| - |s|..] == s
    ensures forall i :: 0 <= i < |r| - |s| ==> r[i] == fill
  {
    if |s| < width then seq(width - |s|, _ => fill) + s else s
  }

  lemma {:induction false} LeadingZeros(z: string, s: string)
    requires forall i :: 0 <= i < |z| ==> z[i] == '0'
    ensures Value(z + s) == Value(s)
    decreases |s|
  {
    if s == [] {
      assert z + s == z;
      ZerosValue(z);
    } else {
      assert (z + s)[..|z + s| - 1] == z + s[..|s| - 1];
      LeadingZeros(z, s[..|s| - 1]);
    }
  }

  lemma {:induction false} ZerosValue(z: string)
    requires forall i :: 0 <= i < |z| ==> z[i] == '0'
    ensures Value(z) == 0
    decreases |z|
  {
    if z != [] {
      ZerosValue(z[..|z| - 1]);
    }
  }

  /** Zero-padding a digit string keeps it a digit string of the same value. */
  lemma PadKeepsValue(s: string, width: nat)
    ensures Value(RJust(s, width, '0')) == Value(s)
    ensures AllDigits(s) ==> AllDigits(RJust(s, width, '0'))
  {
    var r := RJust(s, width, '0');
    assert r == r[..|r| - |s|] + s;
    LeadingZeros(r[..|r| - |s|], s);
  }

  /** Python's `s.replace(from, to)` for one-character `from` and `to`. */
  function Replace(s: string, from: char, to: char): (r: string)
    ensures |r| == |s|
    ensures forall i :: 0 <= i < |s| ==> r[i] == (if s[i] == from then to else s[i])
    ensures from != to ==> from !in r
  {
    if s == [] then []
    else [if s[0] == from then to else s[0]] + Replace(s[1..], from, to)
  }

  /** Python's `s.replace(c, "")`: every occurrence of `c` dropped, the rest kept. */
  function Strip(s: string, c: char): (r: string)
    ensures c !in r
    ensures multiset(r) == multiset(s)[c := 0]
    ensures c !in s ==> r == s
  {
    if s == [] then []
    else
      assert s == [s[0]] + s[1..];
      (if s[0] == c then [] else [s[0]]) + Strip(s[1..], c)
  }

  /** Python's `<` on `str`: lexicographic by code point, a proper prefix first. */
  predicate Less(a: string, b: string)
    decreases |a|
  {
    |b| > 0 && (|a| == 0 || a[0] < b[0] || (a[0] == b[0] && Less(a[1..], b[1..])))
  }

  lemma {:induction false} LessIrreflexive(a: string)
    ensures !Less(a, a)
    decreases |a|
  {
    if |a| > 0 {
      LessIrreflexive(a[1..]);
    }
  }

  lemma {:induction false} LessTrans(a: string, b: string, c: string)
    requires Less(a, b) && Less(b, c)
    ensures Less(a, c)
    decreases |a|
  {
    if |a| > 0 && a[0] == b[0] && b[0] == c[0] {
      LessTrans(a[1..], b[1..], c[1..]);
    }
  }

  lemma {:induction false} LessTotal(a: string, b: string)
    ensures Less(a, b) || a == b || Less(b, a)
    decreases |a|
  {
    if |a| > 0 && |b| > 0 && a[0] == b[0] {
      LessTotal(a[1..], b[1..]);
      if a[1..] == b[1..] {
        assert a == [a[0]] + a[1..] && b == [b[0]] + b[1..];
      }
    }
  }
}
