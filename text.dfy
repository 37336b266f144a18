/** Text helpers shared by the model: SQLite's BINARY ordering of TEXT values, decimal
    rendering of naturals (JavaScript's `toString`), `padStart(2, '0')`, and the
    `HH:MM` clock string the import script builds. */
module Text {

  /** `a <= b` under SQLite's BINARY collation. The bytes are UTF-8, and UTF-8 byte
      order agrees with code point order, so this compares characters one by one; a
      proper prefix sorts first. */
  predicate LexLeq(a: string, b: string)
    decreases |a|
  {
    |a| == 0 || (|b| > 0 && (a[0] < b[0] || (a[0] == b[0] && LexLeq(a[1..], b[1..]))))
  }

  lemma {:induction false} LexLeqTotal(a: string, b: string)
    ensures LexLeq(a, b) || LexLeq(b, a)
    decreases |a|
  {
    if |a| > 0 && |b| > 0 && a[0] == b[0] {
      LexLeqTotal(a[1..], b[1..]);
    }
  }

  lemma {:induction false} LexLeqTransitive(a: string, b: string, c: string)
    requires LexLeq(a, b) && LexLeq(b, c)
    ensures LexLeq(a, c)
    decreases |a|
  {
    if |a| > 0 && a[0] == b[0] && b[0] == c[0] {
      LexLeqTransitive(a[1..], b[1..], c[1..]);
    }
  }

  lemma {:induction false} LexLeqReflexive(a: string)
    ensures LexLeq(a, a)
    decreases |a|
  {
    if |a| > 0 {
      LexLeqReflexive(a[1..]);
    }
  }

  lemma {:induction false} LexLeqAntisymmetric(a: string, b: string)
    requires LexLeq(a, b) && LexLeq(b, a)
    ensures a == b
    decreases |a|
  {
    if |a| > 0 {
      LexLeqAntisymmetric(a[1..], b[1..]);
      assert a == [a[0]] + a[1..] && b == [b[0]] + b[1..];
    }
  }

  function Min(a: nat, b: nat): nat {
    if a <= b then a else b
  }

  predicate IsDigit(c: char) {
    '0' <= c <= '9'
  }

  function DigitChar(d: nat): (c: char)
    requires d < 10
    ensures IsDigit(c) && DigitValue(c) == d
  {
    (48 + d) as char
  }

  function DigitValue(c: char): nat
    requires IsDigit(c)
  {
    (c as int) - 48
  }

  /** The decimal digits of `n`, most significant first, without leading zeros. */
  function NatToString(n: nat): (s: string)
    ensures 1 <= |s|
    ensures forall i :: 0 <= i < |s| ==> IsDigit(s[i])
    ensures n == 0 ==> s == "0"
    ensures n > 0 ==> s[0] != '0'
  {
    if n < 10 then [DigitChar(n)] else NatToString(n / 10) + [DigitChar(n % 10)]
  }

  /** The number a string of decimal digits denotes. */
  function DecimalValue(s: string): nat
    requires forall i :: 0 <= i < |s| ==> IsDigit(s[i])
  {
    if s == [] then 0 else 10 * DecimalValue(s[..|s| - 1]) + DigitValue(s[|s| - 1])
  }

  lemma {:induction false} NatToStringValue(n: nat)
    ensures DecimalValue(NatToString(n)) == n
  {
    if n >= 10 {
      var s := NatToString(n);
      assert s[..|s| - 1] == NatToString(n / 10);
      NatToStringValue(n / 10);
    }
  }

  /** JavaScript's `padStart(2, '0')`: left-pad with '0' to length 2; a longer string
      is returned as it is. */
  function PadStart2(s: string): (r: string)
    ensures |r| == if |s| < 2 then 2 else |s|
    ensures r[|r| - |s|..] == s
    ensures forall i :: 0 <= i < |r| - |s| ==> r[i] == '0'
  {
    if |s| >= 2 then s else if |s| == 1 then "0" + s else "00"
  }

  /** Two decimal digits for a value below 100: `padStart(2, '0')` of its `toString`. */
  lemma TwoDigits(n: nat)
    requires n < 100
    ensures var s := PadStart2(NatToString(n));
      |s| == 2 && IsDigit(s[0]) && IsDigit(s[1]) &&
      10 * DigitValue(s[0]) + DigitValue(s[1]) == n
  {
    if n < 10 {
      assert NatToString(n) == [DigitChar(n)];
      assert PadStart2(NatToString(n)) == "0" + [DigitChar(n)];
    } else {
      var q, d := n / 10, n % 10;
      assert q < 10 && n == 10 * q + d;
      assert NatToString(q) == [DigitChar(q)];
      assert NatToString(n) == [DigitChar(q), DigitChar(d)];
    }
  }

  /** The clock string of a minute count: hours and minutes, each zero-padded to
      two digits, joined by ':'. */
  function FormatTime(totalMinutes: nat): string
  {
    PadStart2(NatToString(totalMinutes / 60)) + ":" + PadStart2(NatToString(totalMinutes % 60))
  }

  /** A well-formed `HH:MM` string: two digits, ':', and two digits for a minute
      below 60. */
  predicate IsClock(s: string) {
    |s| == 5 && s[2] == ':' && IsDigit(s[0]) && IsDigit(s[1]) && IsDigit(s[3]) && IsDigit(s[4]) &&
    10 * DigitValue(s[3]) + DigitValue(s[4]) < 60
  }

  /** Reads an `HH:MM` string back as a minute count. */
  function ParseTime(s: string): nat
    requires IsClock(s)
  {
    (10 * DigitValue(s[0]) + DigitValue(s[1])) * 60 + 10 * DigitValue(s[3]) + DigitValue(s[4])
  }

  /** Below 100 hours the clock string is a well-formed `HH:MM` string, and reading it
      back gives the minute count. */
  lemma FormatTimeRoundTrip(totalMinutes: nat)
    requires totalMinutes < 6000
    ensures var s := FormatTime(totalMinutes);
      IsClock(s) && ParseTime(s) == totalMinutes
  {
    TwoDigits(totalMinutes / 60);
    TwoDigits(totalMinutes % 60);
  }

  /** A clock string is determined by its reading: two well-formed `HH:MM` strings
      for the same minute count are equal. */
  lemma ParseTimeInjective(s: string, t: string)
    requires IsClock(s) && IsClock(t) && ParseTime(s) == ParseTime(t)
    ensures s == t
  {
    var hs, ms := 10 * DigitValue(s[0]) + DigitValue(s[1]), 10 * DigitValue(s[3]) + DigitValue(s[4]);
    var ht, mt := 10 * DigitValue(t[0]) + DigitValue(t[1]), 10 * DigitValue(t[3]) + DigitValue(t[4]);
    assert hs * 60 + ms == ht * 60 + mt && ms < 60 && mt < 60;
    assert hs == ht && ms == mt;
    DigitPair(s[0], s[1], t[0], t[1]);
    DigitPair(s[3], s[4], t[3], t[4]);
    assert s == [s[0], s[1], s[2], s[3], s[4]] && t == [t[0], t[1], t[2], t[3], t[4]];
  }

  /** Two digits denote a number below 100 in one way only. */
  lemma DigitPair(a: char, b: char, c: char, d: char)
    requires IsDigit(a) && IsDigit(b) && IsDigit(c) && IsDigit(d)
    requires 10 * DigitValue(a) + DigitValue(b) == 10 * DigitValue(c) + DigitValue(d)
    ensures a == c && b == d
  {
    assert DigitValue(a) == DigitValue(c);
  }
}
