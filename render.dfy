/**
 * How main.py turns numbers into text: a quantized Decimal printed with
 * `str()` (digits, a point, two decimals) and the A1-notation ranges it
 * passes to the sheet ("C7:D9", "A1:A1000").
 */
module Render {
  import opened Wrappers

  predicate IsDigit(c: char)
  {
    '0' <= c <= '9'
  }

  predicate AllDigits(s: string)
  {
    forall i :: 0 <= i < |s| ==> IsDigit(s[i])
  }

  function DigitChar(d: nat): (c: char)
    requires d < 10
    ensures IsDigit(c) && c as int - '0' as int == d
  {
    ('0' as int + d) as char
  }

  /** Digits as Python prints an int: at least one, and no leading zero unless the number is 0. */
  predicate Canonical(d: string)
  {
    d != [] && AllDigits(d) && (d[0] == '0' ==> |d| == 1)
  }

  /** Decimal digits of `n` without leading zeros ("0" for zero), as Python prints an int. */
  function NatToDigits(n: nat): (s: string)
    ensures |s| >= 1 && AllDigits(s)
    ensures s[0] == '0' ==> n == 0 && |s| == 1
  {
    if n < 10 then [DigitChar(n)] else NatToDigits(n / 10) + [DigitChar(n % 10)]
  }

  /** The number a string of decimal digits denotes. */
  function DigitsValue(s: string): nat
    requires AllDigits(s)
  {
    if s == [] then 0 else DigitsValue(s[..|s| - 1]) * 10 + (s[|s| - 1] as int - '0' as int)
  }

  /** Reading back the digits of `n` gives `n`. */
  lemma {:induction false} DigitsRoundTrip(n: nat)
    ensures DigitsValue(NatToDigits(n)) == n
  {
    if n >= 10 {
      DigitsRoundTrip(n / 10);
      var s := NatToDigits(n);
      assert s[..|s| - 1] == NatToDigits(n / 10);
    }
  }

  /** Canonical digits are the digits of the number they denote: Python prints each number one way. */
  lemma {:induction false} CanonicalDigits(d: string)
    requires Canonical(d)
    ensures NatToDigits(DigitsValue(d)) == d
  {
    var n := |d| - 1;
    if n > 0 {
      var d' := d[..n];
      assert d'[0] == d[0];
      CanonicalDigits(d');
      assert DigitsValue(d) == DigitsValue(d') * 10 + (d[n] as int - '0' as int);
      assert d == d' + [d[n]];
    }
  }

  /** The unsigned part of a printed amount: whole dollars, a point and two decimals. */
  function FormatUnsignedCents(a: nat): (s: string)
    ensures |s| >= 4 && s[|s| - 3] == '.' && IsDigit(s[0])
  {
    var r := a % 100;
    NatToDigits(a / 100) + "." + [DigitChar(r / 10), DigitChar(r % 10)]
  }

  /**
   * `str()` of a Decimal quantized to 0.01 holding `cents`: an optional minus
   * sign, the whole dollars, a point and exactly two decimals.
   */
  function FormatCents(cents: int): (s: string)
    ensures |s| >= 4 && s[|s| - 3] == '.'
    ensures (s[0] == '-') <==> cents < 0
  {
    if cents < 0 then "-" + FormatUnsignedCents(-cents) else FormatUnsignedCents(cents)
  }

  /**
   * A printed amount is written as Python writes it: the whole dollars
   * (after any minus sign) have no leading zero unless they are 0, and
   * exactly two decimal digits follow the point.
   */
  lemma FormatCentsCanonical(cents: int)
    ensures var s := FormatCents(cents);
      && Canonical(s[(if cents < 0 then 1 else 0)..|s| - 3])
      && IsDigit(s[|s| - 2]) && IsDigit(s[|s| - 1])
  {
    var s := FormatCents(cents);
    var a := if cents < 0 then -cents else cents;
    var whole := NatToDigits(a / 100);
    var u := FormatUnsignedCents(a);
    assert u == whole + "." + [DigitChar(a % 100 / 10), DigitChar(a % 100 % 10)];
    assert u[..|u| - 3] == whole;
    if cents < 0 {
      assert s == "-" + u;
      assert s[1..|s| - 3] == u[..|u| - 3];
    } else {
      assert s == u;
    }
  }

  /**
   * Reads digits, a point and two digits back into a number of cents. The
   * whole dollars must be written as Python writes them: no leading zero.
   */
  function ParseUnsignedCents(s: string): Option<nat>
  {
    if |s| < 4 || s[|s| - 3] != '.' then None
    else
      var whole, frac := s[..|s| - 3], s[|s| - 2..];
      if !Canonical(whole) || !AllDigits(frac) then None
      else Some(DigitsValue(whole) * 100 + DigitsValue(frac))
  }

  /** Reads an amount in the shape FormatCents prints back into cents. */
  function ParseCents(s: string): Option<int>
  {
    if |s| > 0 && s[0] == '-' then
      match ParseUnsignedCents(s[1..])
      case None => None
      case Some(v) => Some(0 - v)
    else
      match ParseUnsignedCents(s)
      case None => None
      case Some(v) => Some(v)
  }

  /** Two printed digits read back as the two-digit number they print. */
  lemma TwoDigits(x: nat, y: nat)
    requires x < 10 && y < 10
    ensures DigitsValue([DigitChar(x), DigitChar(y)]) == x * 10 + y
  {
    var d := [DigitChar(x), DigitChar(y)];
    assert d[..1] == [DigitChar(x)] && d[..1][..0] == [];
    assert DigitsValue(d[..1]) == x;
    assert DigitsValue(d) == DigitsValue(d[..1]) * 10 + y;
  }

  /** The whole dollars, the tens of cents and the cents make up the amount. */
  lemma CentsPlaces(a: nat)
    ensures a == a / 100 * 100 + (a % 100 / 10) * 10 + a % 100 % 10
  {
    var r := a % 100;
    assert a == a / 100 * 100 + r;
    assert r == r / 10 * 10 + r % 10;
  }

  /** An unsigned printed amount reads back as its cents. */
  lemma UnsignedCentsRoundTrip(a: nat)
    ensures ParseUnsignedCents(FormatUnsignedCents(a)) == Some(a)
  {
    var whole := NatToDigits(a / 100);
    var r := a % 100;
    var frac := [DigitChar(r / 10), DigitChar(r % 10)];
    var s := FormatUnsignedCents(a);
    assert s == whole + "." + frac;
    assert s[..|s| - 3] == whole;
    assert s[|s| - 2..] == frac;
    TwoDigits(r / 10, r % 10);
    DigitsRoundTrip(a / 100);
    CentsPlaces(a);
  }

  /** A logged amount reads back as the amount that was logged. */
  lemma FormatCentsRoundTrip(cents: int)
    ensures ParseCents(FormatCents(cents)) == Some(cents)
  {
    var s := FormatCents(cents);
    if cents < 0 {
      var u := FormatUnsignedCents(-cents);
      assert s == "-" + u;
      UnsignedCentsRoundTrip(-cents);
      assert s[1..] == u;
      assert s[0] == '-' && ParseUnsignedCents(s[1..]) == Some(-cents);
    } else {
      assert s == FormatUnsignedCents(cents);
      UnsignedCentsRoundTrip(cents);
      assert s[0] != '-' && ParseUnsignedCents(s) == Some(cents);
    }
  }

  /** Two digit characters read as the number they denote, and print back as themselves. */
  lemma TwoDigitsExact(frac: string)
    requires |frac| == 2 && AllDigits(frac)
    ensures var f := DigitsValue(frac);
      f < 100 && frac == [DigitChar(f / 10), DigitChar(f % 10)]
  {
    var x, y := frac[0] as int - '0' as int, frac[1] as int - '0' as int;
    assert frac[..1][..0] == [];
    assert DigitsValue(frac[..1]) == x;
    assert DigitsValue(frac) == x * 10 + y;
  }

  /** An amount whose cents part is below 100 splits back into its dollars and cents. */
  lemma SplitCents(w: nat, f: nat)
    requires f < 100
    ensures (w * 100 + f) / 100 == w && (w * 100 + f) % 100 == f
  {
  }

  /** Every text the unsigned reader accepts is the printed form of what it reads. */
  lemma UnsignedCentsExact(s: string, a: nat)
    requires ParseUnsignedCents(s) == Some(a)
    ensures s == FormatUnsignedCents(a)
  {
    var whole, frac := s[..|s| - 3], s[|s| - 2..];
    var w, f := DigitsValue(whole), DigitsValue(frac);
    assert a == w * 100 + f;
    CanonicalDigits(whole);
    TwoDigitsExact(frac);
    SplitCents(w, f);
    assert s == whole + "." + frac;
  }

  /**
   * Every text the amount reader accepts is the printed form of what it
   * reads, except "-0.00", which reads as 0 but is printed "0.00".
   */
  lemma FormatCentsExact(s: string, cents: int)
    requires ParseCents(s) == Some(cents)
    ensures s == FormatCents(cents) || (cents == 0 && s == "-" + FormatCents(0))
  {
    if |s| > 0 && s[0] == '-' {
      var v := ParseUnsignedCents(s[1..]).value;
      UnsignedCentsExact(s[1..], v);
      assert s == "-" + s[1..];
    } else {
      UnsignedCentsExact(s, cents);
    }
  }

  /**
   * The A1-notation range from column `c1`, row `r1` to column `c2`, row
   * `r2`, with the rows printed as Python prints an int: it reads back as
   * exactly those corners, and ParseA1Range accepts no other text for them.
   */
  function A1Range(c1: char, r1: nat, c2: char, r2: nat): (s: string)
    ensures |s| >= 5 && s[0] == c1
    ensures ':' in s
    ensures ParseA1Range(s) == Some((c1, r1, c2, r2))
  {
    var s := [c1] + NatToDigits(r1) + ":" + [c2] + NatToDigits(r2);
    ReadBackRange(c1, r1, c2, r2, s);
    s
  }

  /** The index of the first colon of `s`, or `|s|` when there is none. */
  function ColonIndex(s: string): (i: nat)
    ensures i <= |s|
    ensures i < |s| ==> s[i] == ':'
    ensures forall k :: 0 <= k < i ==> s[k] != ':'
  {
    if s == [] || s[0] == ':' then 0 else 1 + ColonIndex(s[1..])
  }

  /**
   * Reads a range text back into its two corners: a column, the digits of
   * a row, a colon, a column, the digits of a row. Rows with a leading
   * zero are refused.
   */
  function ParseA1Range(s: string): Option<(char, nat, char, nat)>
  {
    if s == [] then None
    else
      var rest := s[1..];
      var i := ColonIndex(rest);
      if i + 1 >= |rest| then None
      else
        match (ParseRow(rest[..i]), ParseRow(rest[i + 2..]))
        case (Some(r1), Some(r2)) => Some((s[0], r1, rest[i + 1], r2))
        case _ => None
  }

  /** Reads the canonical digits of a row number. */
  function ParseRow(d: string): Option<nat>
  {
    if Canonical(d) then Some(DigitsValue(d)) else None
  }

  /** The printed digits of a row read back as that row. */
  lemma RowRoundTrip(n: nat)
    ensures ParseRow(NatToDigits(n)) == Some(n)
  {
    DigitsRoundTrip(n);
  }

  /** Digits the row reader accepts are the printed digits of the row it reads. */
  lemma RowExact(d: string)
    requires ParseRow(d).Some?
    ensures NatToDigits(ParseRow(d).value) == d
  {
    CanonicalDigits(d);
  }

  /** A colon after a digit string is the first colon of the whole. */
  lemma NoColonAmongDigits(x: string, y: string, k: nat)
    requires AllDigits(x) && k < |x|
    ensures (x + ":" + y)[k] != ':'
  {
    assert (x + ":" + y)[k] == x[k];
  }

  /** The first colon of a digit string, a colon and anything is the one after the digits. */
  lemma ColonAfterDigits(x: string, y: string)
    requires AllDigits(x)
    ensures ColonIndex(x + ":" + y) == |x|
  {
    var s := x + ":" + y;
    var i := ColonIndex(s);
    if i < |x| {
      NoColonAmongDigits(x, y, i);
    }
    assert s[|x|] == ':';
  }

  /** The text A1Range builds reads back as the corners it was built from. */
  lemma ReadBackRange(c1: char, r1: nat, c2: char, r2: nat, s: string)
    requires s == [c1] + NatToDigits(r1) + ":" + [c2] + NatToDigits(r2)
    ensures ParseA1Range(s) == Some((c1, r1, c2, r2))
  {
    var d1, d2 := NatToDigits(r1), NatToDigits(r2);
    var rest := s[1..];
    assert rest == d1 + ":" + ([c2] + d2);
    ColonAfterDigits(d1, [c2] + d2);
    var i := |d1|;
    assert rest[..i] == d1;
    assert rest[i + 2..] == d2;
    assert rest[i + 1] == c2;
    RowRoundTrip(r1);
    RowRoundTrip(r2);
  }

  /** Every text the parser accepts is the range text of the corners it reads. */
  lemma A1RangeExact(s: string, c1: char, r1: nat, c2: char, r2: nat)
    requires ParseA1Range(s) == Some((c1, r1, c2, r2))
    ensures s == A1Range(c1, r1, c2, r2)
  {
    var rest := s[1..];
    var i := ColonIndex(rest);
    assert i + 1 < |rest|;
    var d1, d2 := rest[..i], rest[i + 2..];
    assert ParseRow(d1) == Some(r1) && ParseRow(d2) == Some(r2) && rest[i + 1] == c2 && s[0] == c1;
    RowExact(d1);
    RowExact(d2);
    SplitRange(s, i);
    SameRangeText(s, c1, r1, c2, r2);
  }

  /** A text whose tail has a colon at `i` is its head, the digits before the colon, the colon and the rest. */
  lemma SplitRange(s: string, i: nat)
    requires i + 2 < |s| && s[i + 1] == ':'
    ensures s == [s[0]] + s[1..][..i] + ":" + [s[i + 2]] + s[1..][i + 2..]
  {
  }

  /** A column, the digits of a row, a colon, a column and the digits of a row make a range text. */
  lemma SameRangeText(s: string, c1: char, r1: nat, c2: char, r2: nat)
    requires s == [c1] + NatToDigits(r1) + ":" + [c2] + NatToDigits(r2)
    ensures s == A1Range(c1, r1, c2, r2)
  {
  }

  /** A range text names its corners unambiguously: equal texts mean equal corners. */
  lemma A1RangeInjective(c1: char, r1: nat, c2: char, r2: nat, c1': char, r1': nat, c2': char, r2': nat)
    requires A1Range(c1, r1, c2, r2) == A1Range(c1', r1', c2', r2')
    ensures c1 == c1' && r1 == r1' && c2 == c2' && r2 == r2'
  {
  }
}
