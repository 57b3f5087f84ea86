/**
 * Table cells and their numeric coercion (`pd.to_numeric(..., errors='coerce')`,
 * streamlit_app.py line 29).
 */
module Cells {
  import opened Wrappers

  /** A cell as `read_csv` leaves it: a parsed number, an empty (NaN) cell, or text. */
  datatype Cell = Num(x: real) | Empty | Text(s: string)

  predicate IsDigit(c: char) { '0' <= c <= '9' }

  predicate AllDigits(s: string) { forall i :: 0 <= i < |s| ==> IsDigit(s[i]) }

  /** The characters a decimal literal is made of. */
  predicate NumberChar(c: char) { IsDigit(c) || c == '.' || c == '-' || c == '+' }

  function DigitValue(c: char): (d: nat)
    requires IsDigit(c)
    ensures d < 10
  {
    c as int - '0' as int
  }

  function DigitChar(d: nat): (c: char)
    requires d < 10
    ensures IsDigit(c) && DigitValue(c) == d
  {
    ('0' as int + d) as char
  }

  /** The number a string of decimal digits denotes, most significant digit first. */
  function DigitsValue(s: string): nat
    requires AllDigits(s)
  {
    if s == [] then 0 else 10 * DigitsValue(s[..|s| - 1]) + DigitValue(s[|s| - 1])
  }

  function Pow10(k: nat): (p: nat)
    ensures p >= 1
  {
    if k == 0 then 1 else 10 * Pow10(k - 1)
  }

  /** Index of the first '.' of `s`, or `|s|` when there is none. */
  function DotIndex(s: string): (k: nat)
    ensures k <= |s|
    ensures k < |s| ==> s[k] == '.'
    ensures forall j :: 0 <= j < k ==> s[j] != '.'
  {
    if s == [] then 0 else if s[0] == '.' then 0 else 1 + DotIndex(s[1..])
  }

  /** The value of the whole digits `whole` followed by the fraction digits `frac`. */
  function DecimalValue(whole: string, frac: string): real
    requires AllDigits(whole) && AllDigits(frac)
  {
    DigitsValue(whole) as real + DigitsValue(frac) as real / Pow10(|frac|) as real
  }

  /** An unsigned decimal literal: digits, optionally a '.' and more digits, at least one digit in all. */
  function ParseUnsigned(s: string): (r: Option<real>)
    ensures r.Some? ==> |s| > 0 && forall i :: 0 <= i < |s| ==> IsDigit(s[i]) || s[i] == '.'
    ensures r.Some? ==> r.value >= 0.0
  {
    var d := DotIndex(s);
    var whole := s[..d];
    var frac := if d < |s| then s[d + 1..] else [];
    if AllDigits(whole) && AllDigits(frac) && |whole| + |frac| > 0 then
      assert forall i :: d < i < |s| ==> s[i] == frac[i - d - 1];
      Some(DecimalValue(whole, frac))
    else
      None
  }

  /**
   * The unsigned decimal literals, stated independently of the parser: digits
   * with at most one '.', and not the lone '.'.
   */
  predicate IsUnsignedLiteral(u: string)
  {
    && |u| > 0 && u != "."
    && (AllDigits(u) || exists k :: 0 <= k < |u| && u[k] == '.' && AllDigits(u[..k]) && AllDigits(u[k + 1..]))
  }

  /** An unsigned decimal literal, optionally preceded by one '-' or '+'. */
  predicate IsDecimalLiteral(s: string)
  {
    || IsUnsignedLiteral(s)
    || (|s| > 0 && (s[0] == '-' || s[0] == '+') && IsUnsignedLiteral(s[1..]))
  }

  /** A text cell read as a signed decimal literal; anything else is missing. */
  function ParseNumber(s: string): (r: Option<real>)
    ensures r.Some? ==> |s| > 0 && forall i :: 0 <= i < |s| ==> NumberChar(s[i])
  {
    if |s| > 0 && (s[0] == '-' || s[0] == '+') then
      match ParseUnsigned(s[1..])
      case None => None
      case Some(v) => Some(if s[0] == '-' then -v else v)
    else
      ParseUnsigned(s)
  }

  /** The text coercion reads is exactly the signed decimal literals. */
  lemma ParseNumberAccepts(s: string)
    ensures ParseNumber(s).Some? <==> IsDecimalLiteral(s)
  {
    if |s| > 0 && (s[0] == '-' || s[0] == '+') {
      UnsignedLiteral(s[1..]);
      SignNotUnsigned(s);
    } else {
      UnsignedLiteral(s);
    }
  }

  /** The parser accepts exactly the unsigned decimal literals. */
  lemma UnsignedLiteral(u: string)
    ensures ParseUnsigned(u).Some? <==> IsUnsignedLiteral(u)
  {
    var d := DotIndex(u);
    if AllDigits(u) {
      DigitsHaveNoDot(u);
      assert u[..d] == u;
    } else {
      if ParseUnsigned(u).Some? {
        assert u[..|u|] == u;
        assert |u| > 1;
      }
      if IsUnsignedLiteral(u) {
        var k :| 0 <= k < |u| && u[k] == '.' && AllDigits(u[..k]) && AllDigits(u[k + 1..]);
        assert d <= k;
        assert forall j :: 0 <= j < k ==> IsDigit(u[j]) by {
          assert forall j :: 0 <= j < k ==> u[j] == u[..k][j];
        }
        assert d == k;
        assert |u| > 1 by {
          assert |u| == 1 ==> u == ".";
        }
      }
    }
  }

  /** A text that starts with a sign is never an unsigned literal. */
  lemma SignNotUnsigned(s: string)
    requires |s| > 0 && (s[0] == '-' || s[0] == '+')
    ensures !IsUnsignedLiteral(s)
  {
    assert !IsDigit(s[0]) && s[0] != '.';
    forall k | 0 < k <= |s|
      ensures !AllDigits(s[..k])
    {
      assert s[..k][0] == s[0];
    }
  }

  /**
   * `pd.to_numeric(errors='coerce')` on one cell: numbers are kept as they are,
   * an empty cell stays missing, and text becomes its decimal value or missing.
   * It never fails.
   */
  function Coerce(c: Cell): (r: Option<real>)
    ensures c.Num? ==> r == Some(c.x)
    ensures c.Empty? ==> r == None
    ensures c.Text? && (exists i :: 0 <= i < |c.s| && !NumberChar(c.s[i])) ==> r == None
  {
    match c
    case Num(x) => Some(x)
    case Empty => None
    case Text(s) => ParseNumber(s)
  }

  /** A text cell becomes a number exactly when it is a signed decimal literal. */
  lemma CoerceText(s: string)
    ensures Coerce(Text(s)).Some? <==> IsDecimalLiteral(s)
  {
    ParseNumberAccepts(s);
  }

  /** Decimal digits of a natural number, no leading zeros. */
  function NatDigits(n: nat): (s: string)
    ensures |s| > 0 && AllDigits(s)
  {
    if n < 10 then [DigitChar(n)] else NatDigits(n / 10) + [DigitChar(n % 10)]
  }

  /** How an integer is written in the CSV file. */
  function Show(n: int): string
  {
    if n < 0 then "-" + NatDigits(-n) else NatDigits(n)
  }

  lemma {:induction false} NatDigitsValue(n: nat)
    ensures DigitsValue(NatDigits(n)) == n
  {
    if n >= 10 {
      var s := NatDigits(n);
      assert s[..|s| - 1] == NatDigits(n / 10);
      NatDigitsValue(n / 10);
    }
  }

  /** A string of `k` digits denotes a number below 10^k. */
  lemma {:induction false} DigitsValueBound(s: string)
    requires AllDigits(s)
    ensures DigitsValue(s) < Pow10(|s|)
  {
    if s != [] {
      DigitsValueBound(s[..|s| - 1]);
    }
  }

  lemma {:induction false} DigitsHaveNoDot(s: string)
    requires AllDigits(s)
    ensures DotIndex(s) == |s|
  {
    if s != [] {
      DigitsHaveNoDot(s[1..]);
    }
  }

  /** Coercion reads back every integer written in decimal. */
  lemma ParseShowRoundTrip(n: int)
    ensures ParseNumber(Show(n)) == Some(n as real)
    ensures Coerce(Text(Show(n))) == Some(n as real)
  {
    var m: nat := if n < 0 then -n else n;
    var ds := NatDigits(m);
    NatDigitsValue(m);
    DigitsHaveNoDot(ds);
    assert ds[..|ds|] == ds;
    assert ParseUnsigned(ds) == Some(m as real);
    if n < 0 {
      assert Show(n)[1..] == ds;
    }
  }

  /** In digits followed by '.', the first '.' is the one after the digits. */
  lemma {:induction false} DotAfterDigits(ds: string, rest: string)
    requires AllDigits(ds)
    ensures DotIndex(ds + "." + rest) == |ds|
  {
    if ds != [] {
      assert (ds + "." + rest)[1..] == ds[1..] + "." + rest;
      DotAfterDigits(ds[1..], rest);
    }
  }

  lemma UnsignedDecimal(ds: string, f: string)
    requires |ds| > 0 && AllDigits(ds) && AllDigits(f)
    ensures ParseUnsigned(ds + "." + f) == Some(DecimalValue(ds, f))
  {
    var s := ds + "." + f;
    DotAfterDigits(ds, f);
    var d := DotIndex(s);
    assert d == |ds| && d < |s|;
    var whole, frac := s[..d], s[d + 1..];
    assert whole == ds;
    assert frac == f;
    assert AllDigits(whole) && AllDigits(frac) && |whole| + |frac| > 0;
  }

  /** Text that starts with a digit is read unsigned. */
  lemma ParseUnsignedStart(s: string)
    requires |s| > 0 && IsDigit(s[0])
    ensures ParseNumber(s) == ParseUnsigned(s)
  {
  }

  /** Text that starts with '-' is the negated reading of the rest. */
  lemma ParseNegativeStart(s: string)
    requires |s| > 0 && s[0] == '-' && ParseUnsigned(s[1..]).Some?
    ensures ParseNumber(s) == Some(-ParseUnsigned(s[1..]).value)
  {
  }

  /**
   * Coercion reads a decimal with a fractional part as its whole digits plus
   * its fraction digits over the matching power of ten (`DecimalValue`).
   */
  lemma DecimalRoundTrip(ds: string, f: string)
    requires |ds| > 0 && AllDigits(ds) && AllDigits(f)
    ensures ParseNumber(ds + "." + f) == Some(DecimalValue(ds, f))
  {
    UnsignedDecimal(ds, f);
    ParseUnsignedStart(ds + "." + f);
  }

  /** The same with a leading '-': the value is negated. */
  lemma NegativeDecimalRoundTrip(ds: string, f: string)
    requires |ds| > 0 && AllDigits(ds) && AllDigits(f)
    ensures ParseNumber("-" + ds + "." + f) == Some(-DecimalValue(ds, f))
  {
    UnsignedDecimal(ds, f);
    var s := "-" + ds + "." + f;
    assert s[1..] == ds + "." + f;
    ParseNegativeStart(s);
  }

  lemma CoerceDecimalExample()
    ensures Coerce(Text("12.5")) == Some(12.5)
  {
    assert DotIndex("12.5") == 2;
    assert "12.5"[..2] == "12" && "12.5"[3..] == "5";
    assert DigitsValue("12") == 12 by { assert "12"[..1] == "1"; }
  }

  lemma CoerceNegativeExample()
    ensures Coerce(Text("-0.25")) == Some(-0.25)
  {
    var u := "-0.25"[1..];
    assert u == "0.25";
    assert DotIndex(u) == 1;
    assert u[..1] == "0" && u[2..] == "25";
    assert DigitsValue("25") == 25 by { assert "25"[..1] == "2"; }
  }

  lemma CoerceNonNumericExamples()
    ensures Coerce(Text("12 km2")) == None
    ensures Coerce(Text("")) == None
    ensures Coerce(Text(".")) == None
  {
    assert !NumberChar("12 km2"[2]);
    assert DotIndex(".") == 0;
    assert "."[..0] == [] && "."[1..] == [];
  }

  /** Text made only of number characters that is still no number becomes missing. */
  lemma CoerceMalformedNumberExamples()
    ensures Coerce(Text("1.2.3")) == None
    ensures Coerce(Text("+-1")) == None
    ensures Coerce(Text("-")) == None
  {
    assert "1.2.3"[1] == '.' && !IsDigit("1.2.3"[3]);
    assert !IsDecimalLiteral("1.2.3") by {
      UnsignedLiteral("1.2.3");
      assert DotIndex("1.2.3") == 1;
      assert !AllDigits("1.2.3"[2..]);
    }
    assert !IsDigit("+-1"[1]) && "+-1"[1] != '.';
    assert !IsUnsignedLiteral("+-1"[1..]) by {
      SignNotUnsigned("+-1"[1..]);
    }
    assert "-"[1..] == "";
  }
}
