/**
 * `formatDate`: the key under which a day's record is stored, `Y-MM-DD` with the 0-based
 * month shifted by one, month and day zero-padded to two digits and the year unpadded,
 * as JavaScript's `String(n)` writes it.
 *
 * A parser for the keys is the partner that shows the format loses nothing: every key of a
 * valid date parses back to that date, so distinct dates never share a key.
 */
module DateKey {
  import opened Wrappers
  import opened Calendar

  predicate IsDigit(c: char) {
    '0' <= c <= '9'
  }

  predicate AllDigits(s: string) {
    forall i | 0 <= i < |s| :: IsDigit(s[i])
  }

  function DigitChar(k: int): (c: char)
    requires 0 <= k < 10
    ensures IsDigit(c)
  {
    ('0' as int + k) as char
  }

  function DigitValue(c: char): (k: int)
    requires IsDigit(c)
    ensures 0 <= k < 10 && DigitChar(k) == c
  {
    c as int - '0' as int
  }

  /** `String(n)` for a natural number: decimal digits, no leading zero. */
  function NatToString(n: nat): (s: string)
    ensures |s| >= 1 && AllDigits(s)
    ensures n < 10 <==> |s| == 1
    ensures 10 <= n < 100 <==> |s| == 2
    decreases n
  {
    if n < 10 then [DigitChar(n)] else NatToString(n / 10) + [DigitChar(n % 10)]
  }

  /** `String(n)` for any integer: a minus sign before the digits of a negative number. */
  function IntToString(n: int): (s: string)
    ensures |s| >= 1
  {
    if n < 0 then "-" + NatToString(-n) else NatToString(n)
  }

  /** The value of a string of decimal digits. */
  function ParseNat(s: string): nat
    requires AllDigits(s)
  {
    if |s| == 0 then 0 else 10 * ParseNat(s[..|s| - 1]) + DigitValue(s[|s| - 1])
  }

  /** The value of an optional minus sign followed by at least one digit; None for any other string. */
  function ParseInt(s: string): Option<int> {
    if |s| >= 2 && s[0] == '-' && AllDigits(s[1..]) then Some(-(ParseNat(s[1..]) as int))
    else if |s| >= 1 && AllDigits(s) then Some(ParseNat(s))
    else None
  }

  lemma {:induction false} ParseNatToString(n: nat)
    ensures ParseNat(NatToString(n)) == n
    decreases n
  {
    if n >= 10 {
      var s := NatToString(n / 10);
      var t := s + [DigitChar(n % 10)];
      assert t[..|t| - 1] == s;
      ParseNatToString(n / 10);
    }
  }

  /** `String(n)` of an integer reads back as `n`. */
  lemma ParseIntToString(n: int)
    ensures ParseInt(IntToString(n)) == Some(n)
  {
    var s := IntToString(n);
    if n < 0 {
      var digits := NatToString(-n);
      assert s[1..] == digits && AllDigits(s[1..]);
      ParseNatToString(-n);
      assert ParseNat(s[1..]) == -n;
    } else {
      assert IsDigit(s[0]) && s[0] != '-';
      ParseNatToString(n);
    }
  }

  /** `String(n).padStart(2, "0")`: at least two characters, a zero in front of a single digit. */
  function Pad2(n: nat): (s: string)
    ensures AllDigits(s)
    ensures n < 100 ==> |s| == 2
  {
    var digits := NatToString(n);
    if |digits| >= 2 then digits else "0" + digits
  }

  lemma Pad2Value(n: nat)
    requires n < 100
    ensures ParseNat(Pad2(n)) == n
  {
    ParseNatToString(n);
    if n < 10 {
      var s := Pad2(n);
      assert s[..1] == "0" && s[..1][..0] == [];
    }
  }

  /** `formatDate(d)`: `${y}-${m}-${day}` with the 1-based month and the day padded. */
  function FormatDate(d: Date): (key: string)
    requires IsValidDate(d)
    ensures |key| == |IntToString(d.year)| + 6
    ensures key[|key| - 6] == '-' && key[|key| - 3] == '-'
    ensures key[..|key| - 6] == IntToString(d.year)
  {
    IntToString(d.year) + "-" + Pad2(d.month + 1) + "-" + Pad2(d.day)
  }

  /** Reads a key back: the year before the last six characters, then `-MM-DD`. */
  function ParseDateKey(key: string): Option<Date> {
    if |key| < 7 then None
    else
      var n := |key|;
      var yearPart, monthPart, dayPart := key[..n - 6], key[n - 5..n - 3], key[n - 2..];
      if key[n - 6] != '-' || key[n - 3] != '-' || !AllDigits(monthPart) || !AllDigits(dayPart) then None
      else
        match ParseInt(yearPart)
        case None => None
        case Some(y) => Some(Date(y, ParseNat(monthPart) - 1, ParseNat(dayPart)))
  }

  /** A key assembled from a year, two month digits and two day digits parses back into its parts. */
  lemma {:induction false} ParseDateKeyParts(ys: string, ms: string, ds: string)
    requires |ms| == 2 && |ds| == 2 && AllDigits(ms) && AllDigits(ds)
    requires ParseInt(ys).Some?
    ensures ParseDateKey(ys + "-" + ms + "-" + ds) == Some(Date(ParseInt(ys).value, ParseNat(ms) - 1, ParseNat(ds)))
  {
    var key := ys + "-" + ms + "-" + ds;
    var n := |key|;
    assert |ys| >= 1;
    assert key[..n - 6] == ys;
    assert key[n - 5..n - 3] == ms;
    assert key[n - 2..] == ds;
    assert key[n - 6] == '-' && key[n - 3] == '-';
  }

  /** Every key of a valid date reads back as that date. */
  lemma {:induction false} ParseFormatDate(d: Date)
    requires IsValidDate(d)
    ensures ParseDateKey(FormatDate(d)) == Some(d)
  {
    var ys, ms, ds := IntToString(d.year), Pad2(d.month + 1), Pad2(d.day);
    ParseIntToString(d.year);
    Pad2Value(d.month + 1);
    Pad2Value(d.day);
    assert FormatDate(d) == ys + "-" + ms + "-" + ds;
    ParseDateKeyParts(ys, ms, ds);
  }

  /** Distinct dates get distinct keys, so records of different days never collide. */
  lemma FormatDateInjective(a: Date, b: Date)
    requires IsValidDate(a) && IsValidDate(b)
    requires FormatDate(a) == FormatDate(b)
    ensures a == b
  {
    ParseFormatDate(a);
    ParseFormatDate(b);
  }
}
