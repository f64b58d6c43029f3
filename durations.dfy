/** Spreadsheet cells holding a process duration, Python's `float()` on such a
    cell, and the two-decimal rounding of a duration difference.

    Durations are exact reals: the binary floating-point representation the
    source works with is not modelled. */
module Durations {
  import opened Collect

  /** A cell as the spreadsheet reader hands it over: a number, or text. */
  datatype Cell = Num(value: real) | Text(text: string)

  predicate IsDigit(ch: char) { '0' <= ch <= '9' }

  predicate AllDigits(s: string) { forall i :: 0 <= i < |s| ==> IsDigit(s[i]) }

  function DigitValue(ch: char): (v: nat)
    requires IsDigit(ch)
    ensures v < 10
  {
    ch as int - '0' as int
  }

  /** The value of a string of decimal digits, most significant first. */
  function IntValue(s: string): nat
    requires AllDigits(s)
  {
    if |s| == 0 then 0 else IntValue(s[..|s| - 1]) * 10 + DigitValue(s[|s| - 1])
  }

  /** The value of the digits after a decimal point. */
  function FracValue(s: string): (v: real)
    requires AllDigits(s)
    ensures 0.0 <= v < 1.0
  {
    if |s| == 0 then 0.0 else (DigitValue(s[0]) as real + FracValue(s[1..])) / 10.0
  }

  /** The index of the first '.' in `s`, if any. */
  function DotIndex(s: string): (r: Option<nat>)
    ensures r.Some? ==> r.value < |s| && s[r.value] == '.' && forall j :: 0 <= j < r.value ==> s[j] != '.'
    ensures r.None? ==> forall j :: 0 <= j < |s| ==> s[j] != '.'
  {
    if |s| == 0 then None
    else if s[0] == '.' then Some(0)
    else match DotIndex(s[1..])
      case None => None
      case Some(k) => Some(k + 1)
  }

  /** An unsigned decimal numeral: digits, optionally a point and more digits,
      with at least one digit in all. */
  function ParseUnsigned(s: string): Option<real>
  {
    match DotIndex(s)
    case None =>
      if |s| > 0 && AllDigits(s) then Some(IntValue(s) as real) else None
    case Some(p) =>
      var whole, frac := s[..p], s[p + 1..];
      if AllDigits(whole) && AllDigits(frac) && |whole| + |frac| > 0
      then Some(IntValue(whole) as real + FracValue(frac))
      else None
  }

  /** Digits and points only, at most one point, and at least one digit. */
  predicate UnsignedNumeral(u: string)
  {
    && (forall k :: 0 <= k < |u| ==> IsDigit(u[k]) || u[k] == '.')
    && (forall k, l :: 0 <= k < l < |u| && u[k] == '.' ==> u[l] != '.')
    && (exists k :: 0 <= k < |u| && IsDigit(u[k]))
  }

  /** `s` without its leading sign, if it has one. */
  function Unsigned(s: string): string
  {
    if |s| > 0 && (s[0] == '-' || s[0] == '+') then s[1..] else s
  }

  /** The text `float()` accepts here: an optional sign, then digits with at
      most one decimal point somewhere among them. */
  predicate IsNumeral(s: string)
  {
    UnsignedNumeral(Unsigned(s))
  }

  /** The model's unsigned parser accepts exactly the unsigned numerals, a
      subset of the unsigned text `float()` reads. */
  lemma UnsignedAccepts(u: string)
    ensures ParseUnsigned(u).Some? <==> UnsignedNumeral(u)
  {
    match DotIndex(u)
    case None =>
      if UnsignedNumeral(u) {
        forall k | 0 <= k < |u| ensures IsDigit(u[k]) {
        }
      }
      if ParseUnsigned(u).Some? {
        assert IsDigit(u[0]);
      }
    case Some(p) =>
      var whole, frac := u[..p], u[p + 1..];
      if UnsignedNumeral(u) {
        forall k | 0 <= k < |whole| ensures IsDigit(whole[k]) {
          assert whole[k] == u[k];
        }
        forall k | 0 <= k < |frac| ensures IsDigit(frac[k]) {
          assert frac[k] == u[p + 1 + k];
        }
        var k :| 0 <= k < |u| && IsDigit(u[k]);
        assert k != p;
        if k < p { assert |whole| > 0; } else { assert |frac| > 0; }
      }
      if ParseUnsigned(u).Some? {
        forall k | 0 <= k < |u| ensures k == p || IsDigit(u[k]) {
          if k < p { assert u[k] == whole[k]; }
          else if k > p { assert u[k] == frac[k - p - 1]; }
        }
        if |whole| > 0 {
          assert IsDigit(u[0]) by { assert u[0] == whole[0]; }
        } else {
          assert IsDigit(u[p + 1]) by { assert u[p + 1] == frac[0]; }
        }
      }
  }

  /** The model's reading of a text cell: the subset of Python's `float()`
      made of an optional sign, then digits with at most one point. Exactly
      these numerals are read; other text `float()` also reads (an exponent,
      surrounding blanks, `inf`, `nan`, underscores) is refused here. */
  function ParseReal(s: string): (r: Option<real>)
    ensures r.Some? <==> IsNumeral(s)
  {
    UnsignedAccepts(Unsigned(s));
    if |s| > 0 && s[0] == '-' then
      match ParseUnsigned(s[1..])
      case None => None
      case Some(v) => Some(-v)
    else if |s| > 0 && s[0] == '+' then ParseUnsigned(s[1..])
    else ParseUnsigned(s)
  }

  /** Python's `float()` on a cell: numbers pass through, text is parsed and
      refused unless it is a numeral. */
  function ToFloat(c: Cell): (r: Option<real>)
    ensures c.Num? ==> r == Some(c.value)
    ensures c.Text? ==> (r.Some? <==> IsNumeral(c.text))
  {
    match c
    case Num(v) => Some(v)
    case Text(s) => ParseReal(s)
  }

  /** The decimal numeral of `n`, without leading zeros. */
  function Show(n: nat): (s: string)
    ensures |s| > 0 && AllDigits(s)
    ensures IntValue(s) == n
  {
    var last := ['0' + ((n % 10) as char)];
    assert DigitValue(last[0]) == n % 10;
    if n < 10 then last
    else
      var s := Show(n / 10) + last;
      assert s[..|s| - 1] == Show(n / 10);
      s
  }

  /** A string of digits reads as its value. */
  lemma ParseWhole(w: string)
    requires |w| > 0 && AllDigits(w)
    ensures ParseReal(w) == Some(IntValue(w) as real)
  {
    assert IsDigit(w[0]);
    assert DotIndex(w) == None by {
      forall j | 0 <= j < |w| ensures w[j] != '.' { assert IsDigit(w[j]); }
    }
  }

  /** Digits `w`, a point and digits `f` read as the whole part plus the
      fraction. */
  lemma ParseDecimal(w: string, f: string)
    requires AllDigits(w) && AllDigits(f) && |w| + |f| > 0
    ensures ParseReal(w + "." + f) == Some(IntValue(w) as real + FracValue(f))
  {
    UnsignedDecimal(w, f);
    UnsignedReads(w + "." + f);
  }

  lemma UnsignedDecimal(w: string, f: string)
    requires AllDigits(w) && AllDigits(f) && |w| + |f| > 0
    ensures ParseUnsigned(w + "." + f) == Some(IntValue(w) as real + FracValue(f))
    ensures |w + "." + f| > 0 && (w + "." + f)[0] != '-' && (w + "." + f)[0] != '+'
  {
    var s := w + "." + f;
    if |w| > 0 { assert s[0] == w[0] && IsDigit(w[0]); } else { assert s[0] == '.'; }
    assert forall j :: 0 <= j < |w| ==> w[j] != '.' by {
      forall j | 0 <= j < |w| ensures w[j] != '.' { assert IsDigit(w[j]); }
    }
    FirstDotAfter(w, f);
    assert s[..|w|] == w;
    assert s[|w| + 1..] == f;
  }

  /** Text without a leading sign is read by the unsigned parser. */
  lemma UnsignedReads(u: string)
    requires |u| > 0 && u[0] != '-' && u[0] != '+'
    ensures ParseReal(u) == ParseUnsigned(u)
  {
  }

  /** A '-' in front of an unsigned numeral negates its value; a '+' keeps it. */
  lemma SignedNumeral(u: string, v: real)
    requires |u| > 0 && u[0] != '-' && u[0] != '+' && ParseReal(u) == Some(v)
    ensures ParseReal("-" + u) == Some(-v)
    ensures ParseReal("+" + u) == Some(v)
  {
    assert ("-" + u)[1..] == u && ("+" + u)[1..] == u;
  }

  /** Text outside the model's numerals is refused: an exponent, a second
      point, a lone sign, the empty text, a leading blank. `float()` itself
      refuses the second point, the lone sign and the empty text, but reads
      `1e3` as 1000.0 and ` 5` as 5.0. */
  lemma RefusedText()
    ensures ToFloat(Text("1e3")) == None
    ensures ToFloat(Text("1.2.3")) == None
    ensures ToFloat(Text("-")) == None
    ensures ToFloat(Text("")) == None
    ensures ToFloat(Text(" 5")) == None
  {
    assert !IsNumeral("1e3") by { assert !(IsDigit("1e3"[1]) || "1e3"[1] == '.'); }
    assert !IsNumeral("1.2.3") by { assert "1.2.3"[1] == '.' && "1.2.3"[3] == '.'; }
    assert Unsigned("-") == "";
    assert !IsNumeral(" 5") by { assert !(IsDigit(" 5"[0]) || " 5"[0] == '.'); }
  }

  /** The numeral of a natural number reads back as that number. */
  lemma ParseShow(n: nat)
    ensures ParseReal(Show(n)) == Some(n as real)
  {
    ParseWhole(Show(n));
  }

  lemma {:induction false} ZerosHaveNoFraction(z: string)
    requires forall i :: 0 <= i < |z| ==> z[i] == '0'
    ensures AllDigits(z) && FracValue(z) == 0.0
  {
    if |z| > 0 {
      ZerosHaveNoFraction(z[1..]);
    }
  }

  lemma {:induction false} FirstDotAfter(a: string, b: string)
    requires forall j :: 0 <= j < |a| ==> a[j] != '.'
    ensures DotIndex(a + "." + b) == Some(|a|)
  {
    if |a| > 0 {
      assert (a + "." + b)[1..] == a[1..] + "." + b;
      FirstDotAfter(a[1..], b);
    }
  }

  /** Trailing zeros after a decimal point do not change the value read:
      "10" and "10.00" are the same duration. */
  lemma TrailingZerosIgnored(whole: string, z: string)
    requires |whole| > 0 && AllDigits(whole)
    requires forall i :: 0 <= i < |z| ==> z[i] == '0'
    ensures ParseReal(whole + "." + z) == ParseReal(whole)
  {
    var s := whole + "." + z;
    assert IsDigit(s[0]) && IsDigit(whole[0]);
    assert forall j :: 0 <= j < |whole| ==> whole[j] != '.' by {
      forall j | 0 <= j < |whole| ensures whole[j] != '.' { assert IsDigit(whole[j]); }
    }
    assert forall j :: 0 <= j < |whole| ==> s[j] == whole[j];
    FirstDotAfter(whole, z);
    assert DotIndex(whole) == None;
    assert s[..|whole|] == whole;
    assert s[|whole| + 1..] == z;
    ZerosHaveNoFraction(z);
  }

  /** Python's `round(x, 2)`: to the nearest hundredth, an exact half going
      to the even hundredth. */
  function Round2(x: real): (r: real)
    ensures (r * 100.0).Floor as real == r * 100.0
    ensures -0.005 <= r - x <= 0.005
  {
    var y := x * 100.0;
    var k := y.Floor;
    var f := y - k as real;
    var n := if f > 0.5 || (f == 0.5 && k % 2 == 1) then k + 1 else k;
    assert 0.0 <= f < 1.0;
    assert (n as real).Floor == n;
    assert (n as real / 100.0) * 100.0 == n as real;
    assert -0.5 <= n as real - y <= 0.5;
    n as real / 100.0
  }

  /** A value that already has at most two decimals is left as it is. */
  lemma Round2Exact(x: real)
    requires (x * 100.0).Floor as real == x * 100.0
    ensures Round2(x) == x
  {
  }

  /** Rounding never flips the sign of a difference (it may reach zero). */
  lemma Round2KeepsSign(x: real)
    ensures x >= 0.0 ==> Round2(x) >= 0.0
    ensures x <= 0.0 ==> Round2(x) <= 0.0
  {
    var k := (x * 100.0).Floor;
    if x >= 0.0 { assert k >= 0; }
    if x <= 0.0 { assert k <= 0; }
  }
}
