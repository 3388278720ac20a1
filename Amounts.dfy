/**
 * Rendering of non-negative integers as decimal text: `str(n)` (plain digits) and
 * `fmt_amt(n)`, i.e. the format `f"{n:,}"` with comma thousands separators.
 * The inverse `ParseAmt` accepts exactly the strings `FmtAmt` produces.
 */
module Amounts {
  import opened Wrappers

  predicate IsDigit(c: char) { '0' <= c <= '9' }

  predicate AllDigits(s: string) { forall i :: 0 <= i < |s| ==> IsDigit(s[i]) }

  function DigitChar(d: nat): (c: char)
    requires d < 10
    ensures IsDigit(c)
  {
    ('0' as int + d) as char
  }

  function DigitValue(c: char): (d: nat)
    requires IsDigit(c)
    ensures d < 10 && DigitChar(d) == c
  {
    c as int - '0' as int
  }

  function Pow10(k: nat): (p: nat)
    ensures p >= 1
  {
    if k == 0 then 1 else 10 * Pow10(k - 1)
  }

  /** `str(n)` for a non-negative Python int: decimal digits, no leading zeros. */
  function Decimal(n: nat): string
  {
    if n < 10 then [DigitChar(n)] else Decimal(n / 10) + [DigitChar(n % 10)]
  }

  /** The three digits of a group below the leading one, zero-padded. */
  function Pad3(r: nat): string
    requires r < 1000
  {
    [DigitChar(r / 100), DigitChar(r / 10 % 10), DigitChar(r % 10)]
  }

  /** `fmt_amt(n)`: digits of `n` in groups of three, separated by commas. */
  function FmtAmt(n: nat): string
  {
    if n < 1000 then Decimal(n) else FmtAmt(n / 1000) + "," + Pad3(n % 1000)
  }

  /** The number a string of decimal digits denotes (the empty string denotes 0). */
  function DigitsValue(s: string): nat
    requires AllDigits(s)
  {
    if s == [] then 0 else DigitsValue(s[..|s| - 1]) * 10 + DigitValue(s[|s| - 1])
  }

  /** The text with every comma deleted. */
  function StripCommas(s: string): (r: string)
    ensures ',' !in r
  {
    if s == [] then [] else StripCommas(s[..|s| - 1]) + (if s[|s| - 1] == ',' then [] else [s[|s| - 1]])
  }

  /**
   * A thousands-grouped numeral: a leading group of one to three digits and then
   * any number of groups of exactly three digits, each preceded by a comma.
   */
  predicate Grouped(s: string)
    decreases |s|
  {
    if ',' !in s then 1 <= |s| <= 3 && AllDigits(s)
    else |s| >= 5 && s[|s| - 4] == ',' && AllDigits(s[|s| - 3..]) && Grouped(s[..|s| - 4])
  }

  /** A grouped numeral without leading zeros (only "0" itself starts with '0'). */
  predicate Canonical(s: string)
  {
    Grouped(s) && (s[0] == '0' ==> s == "0")
  }

  function GroupValue(s: string): nat
    requires Grouped(s)
    decreases |s|
  {
    if ',' !in s then DigitsValue(s) else GroupValue(s[..|s| - 4]) * 1000 + DigitsValue(s[|s| - 3..])
  }

  /** Reads back an amount rendered by `FmtAmt`; every other string is rejected. */
  function ParseAmt(s: string): Option<nat>
  {
    if Canonical(s) then Some(GroupValue(s)) else None
  }

  // ---------------------------------------------------------------------------
  // Digit strings

  lemma AllDigitsAppend(a: string, b: string)
    requires AllDigits(a) && AllDigits(b)
    ensures AllDigits(a + b)
  {
    forall i | 0 <= i < |a + b| ensures IsDigit((a + b)[i]) {
      if i < |a| { assert (a + b)[i] == a[i]; } else { assert (a + b)[i] == b[i - |a|]; }
    }
  }

  lemma ShiftDigit(x: int, p: int, y: int, d: int)
    ensures (x * p + y) * 10 + d == x * (p * 10) + (y * 10 + d)
  {
  }

  lemma {:induction false} DigitsValueAppend(a: string, b: string)
    requires AllDigits(a) && AllDigits(b)
    ensures AllDigits(a + b)
    ensures DigitsValue(a + b) == DigitsValue(a) * Pow10(|b|) + DigitsValue(b)
    decreases |b|
  {
    AllDigitsAppend(a, b);
    if b == [] {
      assert a + b == a;
    } else {
      var b' := b[..|b| - 1];
      var d := DigitValue(b[|b| - 1]);
      assert (a + b)[..|a + b| - 1] == a + b';
      assert (a + b)[|a + b| - 1] == b[|b| - 1];
      assert AllDigits(b');
      DigitsValueAppend(a, b');
      assert DigitsValue(a + b) == DigitsValue(a + b') * 10 + d;
      assert DigitsValue(b) == DigitsValue(b') * 10 + d;
      assert Pow10(|b|) == Pow10(|b'|) * 10;
      ShiftDigit(DigitsValue(a), Pow10(|b'|), DigitsValue(b'), d);
    }
  }

  lemma {:induction false} DigitsValueBound(s: string)
    requires AllDigits(s)
    ensures DigitsValue(s) < Pow10(|s|)
    decreases |s|
  {
    if s != [] {
      DigitsValueBound(s[..|s| - 1]);
    }
  }

  lemma {:induction false} DigitsValueLeading(s: string)
    requires AllDigits(s) && |s| >= 1 && s[0] != '0'
    ensures DigitsValue(s) >= 1
    decreases |s|
  {
    if |s| > 1 {
      DigitsValueLeading(s[..|s| - 1]);
    } else {
      assert s[..0] == [];
      assert DigitChar(0) == '0';
    }
  }

  /** `str(n)` is a non-empty digit string without leading zero that denotes `n`. */
  lemma {:induction false} DecimalDenotes(n: nat)
    ensures |Decimal(n)| >= 1 && AllDigits(Decimal(n))
    ensures DigitsValue(Decimal(n)) == n
    ensures Decimal(n)[0] == '0' ==> n == 0
    ensures n < 1000 ==> |Decimal(n)| <= 3
  {
    if n < 10 {
      assert Decimal(n)[..0] == [];
      assert n != 0 ==> DigitChar(n) != '0';
    } else {
      DecimalDenotes(n / 10);
      var s := Decimal(n);
      assert s[..|s| - 1] == Decimal(n / 10);
      assert s[0] == Decimal(n / 10)[0];
      if n < 1000 {
        assert n / 10 < 100;
        if n / 10 >= 10 {
          assert Decimal(n / 10) == Decimal(n / 100) + [DigitChar(n / 10 % 10)];
          assert n / 10 / 10 < 10;
        }
      }
    }
  }

  /** A digit string without leading zero is `str` of the number it denotes. */
  lemma {:induction false} DecimalOfDigits(s: string)
    requires AllDigits(s) && |s| >= 1 && (s[0] == '0' ==> |s| == 1)
    ensures Decimal(DigitsValue(s)) == s
    decreases |s|
  {
    var init := s[..|s| - 1];
    var d := DigitValue(s[|s| - 1]);
    if |s| == 1 {
      assert init == [];
      assert s == [s[0]];
    } else {
      assert AllDigits(init) && init[0] == s[0];
      DigitsValueLeading(init);
      DecimalOfDigits(init);
      var v := DigitsValue(s);
      assert v == DigitsValue(init) * 10 + d;
      assert v / 10 == DigitsValue(init) && v % 10 == d;
      assert s == init + [s[|s| - 1]];
    }
  }

  /** A three-digit string denotes its digits weighted 100, 10 and 1. */
  lemma DigitsValue3(t: string)
    requires |t| == 3 && AllDigits(t)
    ensures DigitsValue(t) == DigitValue(t[0]) * 100 + DigitValue(t[1]) * 10 + DigitValue(t[2])
  {
    assert t[..2][..1] == [t[0]];
    assert t[..2][..1][..0] == [];
    assert DigitsValue(t[..2][..1]) == DigitValue(t[0]);
    assert DigitsValue(t[..2]) == DigitValue(t[0]) * 10 + DigitValue(t[1]);
  }

  lemma Pad3Denotes(r: nat)
    requires r < 1000
    ensures |Pad3(r)| == 3 && AllDigits(Pad3(r)) && DigitsValue(Pad3(r)) == r
  {
    DigitsValue3(Pad3(r));
  }

  lemma Pad3OfDigits(t: string)
    requires |t| == 3 && AllDigits(t)
    ensures DigitsValue(t) < 1000 && Pad3(DigitsValue(t)) == t
  {
    DigitsValue3(t);
    var a, b, c := DigitValue(t[0]), DigitValue(t[1]), DigitValue(t[2]);
    SplitDigits3(a, b, c);
    assert Pad3(a * 100 + b * 10 + c) == [t[0], t[1], t[2]];
  }

  lemma SplitDigits3(a: nat, b: nat, c: nat)
    requires a < 10 && b < 10 && c < 10
    ensures var v := a * 100 + b * 10 + c;
            v < 1000 && v / 100 == a && v / 10 % 10 == b && v % 10 == c
  {
    var v := a * 100 + b * 10 + c;
    assert v / 10 == a * 10 + b;
  }

  /** Appending a comma and three digits to a grouped numeral adds one group. */
  lemma GroupedAppend(p: string, t: string)
    requires Grouped(p) && |t| == 3 && AllDigits(t)
    ensures Grouped(p + "," + t)
    ensures GroupValue(p + "," + t) == GroupValue(p) * 1000 + DigitsValue(t)
    ensures (p + "," + t)[0] == p[0]
  {
    var s := p + "," + t;
    assert s[|s| - 4] == ',';
    assert s[..|s| - 4] == p;
    assert s[|s| - 3..] == t;
    assert ',' in s;
  }

  // ---------------------------------------------------------------------------
  // fmt_amt and its inverse

  /** `fmt_amt(n)` is a canonical grouped numeral that denotes `n`. */
  lemma {:induction false} FmtAmtCanonical(n: nat)
    ensures Canonical(FmtAmt(n)) && GroupValue(FmtAmt(n)) == n
  {
    if n < 1000 {
      FmtAmtSmall(n);
      DecimalDenotes(n);
      var s := FmtAmt(n);
      if s[0] == '0' { assert s == "0"; }
    } else {
      var q, r := n / 1000, n % 1000;
      FmtAmtCanonical(q);
      Pad3Denotes(r);
      GroupedAppend(FmtAmt(q), Pad3(r));
      assert FmtAmt(q) != "0" by {
        assert "0"[..0] == [];
        assert DigitsValue("0") == 0;
      }
    }
  }

  /** Round trip: reading back a rendered amount gives the amount. */
  lemma ParseFmtAmt(n: nat)
    ensures ParseAmt(FmtAmt(n)) == Some(n)
  {
    FmtAmtCanonical(n);
  }

  lemma {:induction false} GroupValueLeading(s: string)
    requires Grouped(s) && s[0] != '0'
    ensures GroupValue(s) >= 1
    decreases |s|
  {
    if ',' !in s {
      DigitsValueLeading(s);
    } else {
      assert s[..|s| - 4][0] == s[0];
      GroupValueLeading(s[..|s| - 4]);
    }
  }

  /** Round trip the other way: a canonical numeral is the rendering of its value. */
  lemma {:induction false} FmtAmtOfCanonical(s: string)
    requires Canonical(s)
    ensures FmtAmt(GroupValue(s)) == s
    decreases |s|
  {
    if ',' !in s {
      DigitsValueBound(s);
      assert Pow10(|s|) <= 1000 by {
        assert Pow10(1) == 10 && Pow10(2) == 100 && Pow10(3) == 1000;
      }
      DecimalOfDigits(s);
    } else {
      var p, t := s[..|s| - 4], s[|s| - 3..];
      assert s != "0";
      assert p[0] == s[0];
      GroupValueLeading(p);
      FmtAmtOfCanonical(p);
      Pad3OfDigits(t);
      var v, w := GroupValue(p), DigitsValue(t);
      var n := v * 1000 + w;
      assert n / 1000 == v && n % 1000 == w;
      assert s == p + "," + t;
    }
  }

  /** `ParseAmt` accepts exactly the renderings of amounts. */
  lemma FmtAmtParseAmt(s: string, n: nat)
    ensures ParseAmt(s) == Some(n) <==> FmtAmt(n) == s
  {
    if ParseAmt(s) == Some(n) {
      FmtAmtOfCanonical(s);
    }
    if FmtAmt(n) == s {
      ParseFmtAmt(n);
    }
  }

  lemma {:induction false} StripCommasAppend(a: string, b: string)
    ensures StripCommas(a + b) == StripCommas(a) + StripCommas(b)
    decreases |b|
  {
    if b == [] {
      assert a + b == a;
    } else {
      assert (a + b)[..|a + b| - 1] == a + b[..|b| - 1];
      StripCommasAppend(a, b[..|b| - 1]);
    }
  }

  lemma {:induction false} StripCommasDigits(s: string)
    requires AllDigits(s)
    ensures StripCommas(s) == s
    decreases |s|
  {
    if s != [] {
      StripCommasDigits(s[..|s| - 1]);
      assert s == s[..|s| - 1] + [s[|s| - 1]];
    }
  }

  /** The digits after a comma are kept when the commas go. */
  lemma StripCommasComma(p: string, t: string)
    requires AllDigits(t)
    ensures StripCommas(p + "," + t) == StripCommas(p) + t
  {
    var pc := p + ",";
    assert StripCommas(",") == [] by { assert ","[..0] == []; }
    StripCommasAppend(p, ",");
    StripCommasAppend(pc, t);
    StripCommasDigits(t);
  }

  /** Deleting the commas keeps the last three-digit group after its comma. */
  lemma StripCommasGroup(s: string)
    requires |s| >= 4 && s[|s| - 4] == ',' && AllDigits(s[|s| - 3..])
    ensures StripCommas(s) == StripCommas(s[..|s| - 4]) + s[|s| - 3..]
  {
    var p, t := s[..|s| - 4], s[|s| - 3..];
    assert s == p + "," + t;
    StripCommasComma(p, t);
  }

  /** Appending one three-digit group to a digit string of value `g`. */
  lemma DigitsGroupStep(d: string, t: string, g: nat)
    requires AllDigits(d) && |d| >= 1 && DigitsValue(d) == g
    requires AllDigits(t) && |t| == 3
    ensures AllDigits(d + t) && |d + t| >= 1 && (d + t)[0] == d[0]
    ensures DigitsValue(d + t) == g * 1000 + DigitsValue(t)
  {
    DigitsValueAppend(d, t);
    assert Pow10(3) == 1000;
  }

  /** Deleting the commas of a grouped numeral leaves a digit string of the same value. */
  lemma {:induction false} StripCommasGrouped(s: string)
    requires Grouped(s)
    ensures AllDigits(StripCommas(s)) && |StripCommas(s)| >= 1
    ensures DigitsValue(StripCommas(s)) == GroupValue(s)
    ensures StripCommas(s)[0] == s[0]
    decreases |s|
  {
    if ',' !in s {
      StripCommasDigits(s);
    } else {
      var p, t := s[..|s| - 4], s[|s| - 3..];
      StripCommasGrouped(p);
      StripCommasGroup(s);
      DigitsGroupStep(StripCommas(p), t, GroupValue(p));
      assert p[0] == s[0];
    }
  }

  lemma StripCommasFmtAmt(n: nat)
    ensures StripCommas(FmtAmt(n)) == Decimal(n)
  {
    var s := FmtAmt(n);
    FmtAmtCanonical(n);
    StripCommasGrouped(s);
    var d := StripCommas(s);
    if d[0] == '0' {
      assert s == "0";
      assert d == "0" by { assert d == StripCommas(s); assert "0"[..0] == []; }
    }
    DecimalOfDigits(d);
  }

  /** Amounts below one thousand carry no separator: `fmt_amt(n) == str(n)`. */
  lemma FmtAmtSmall(n: nat)
    requires n < 1000
    ensures FmtAmt(n) == Decimal(n) && ',' !in FmtAmt(n)
  {
    DecimalDenotes(n);
    var s := Decimal(n);
    assert forall i :: 0 <= i < |s| ==> IsDigit(s[i]);
  }

  /** A table value in thousands, scaled by 1000, renders as its digits followed by ",000". */
  lemma FmtAmtThousands(k: nat)
    requires 1 <= k < 1000
    ensures FmtAmt(k * 1000) == Decimal(k) + ",000"
  {
    assert (k * 1000) / 1000 == k && (k * 1000) % 1000 == 0;
    FmtAmtSmall(k);
    assert Pad3(0) == "000";
  }
}
