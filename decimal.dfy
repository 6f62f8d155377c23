/** Python's `float(text)` restricted to plain decimal notation: an optional
    sign, then digits with an optional fraction (`12`, `12.`, `12.5`, `.5`).
    Amounts are exact reals, so no rounding happens. A text outside this
    grammar is the `ValueError` case and parses to `None`. */
module Decimal {
  import opened Options

  predicate IsDigit(c: char)
  {
    '0' <= c <= '9'
  }

  predicate AllDigits(s: string)
  {
    forall k :: 0 <= k < |s| ==> IsDigit(s[k])
  }

  function DigitValue(c: char): (d: nat)
    requires IsDigit(c)
    ensures d < 10
  {
    (c as int) - ('0' as int)
  }

  /** The character of a digit value: the inverse of `DigitValue`. */
  function DigitChar(d: nat): (c: char)
    requires d < 10
    ensures IsDigit(c) && DigitValue(c) == d
  {
    (('0' as int) + d) as char
  }

  /** The value of a run of decimal digits, most significant first. */
  function Natural(ds: string): nat
    requires AllDigits(ds)
  {
    if ds == [] then 0 else 10 * Natural(ds[..|ds| - 1]) + DigitValue(ds[|ds| - 1])
  }

  function Pow10(n: nat): (p: nat)
    ensures p >= 1
  {
    if n == 0 then 1 else 10 * Pow10(n - 1)
  }

  /** The length of the run of digits at the start of `s`. */
  function LeadingDigits(s: string): (n: nat)
    ensures n <= |s| && AllDigits(s[..n])
    ensures n == |s| || !IsDigit(s[n])
  {
    if |s| > 0 && IsDigit(s[0]) then 1 + LeadingDigits(s[1..]) else 0
  }

  /** An unsigned decimal: `digits`, `digits.`, `digits.digits` or `.digits`. */
  function ParseUnsigned(s: string): Option<real>
  {
    var n := LeadingDigits(s);
    if n == |s| then
      if n == 0 then None else Some(Natural(s) as real)
    else if s[n] != '.' then None
    else ParsePoint(s[..n], s[n + 1..])
  }

  /** The digits around a decimal point: at least one digit on either side. */
  function ParsePoint(whole: string, frac: string): Option<real>
    requires AllDigits(whole)
  {
    if !AllDigits(frac) || (whole == [] && frac == []) then None
    else Some(PointValue(whole, frac))
  }

  /** The value of `whole.frac`. */
  function PointValue(whole: string, frac: string): real
    requires AllDigits(whole) && AllDigits(frac)
  {
    Natural(whole) as real + Natural(frac) as real / Pow10(|frac|) as real
  }

  /** The accepted grammar, stated on its own: digits, or digits with one
      decimal point anywhere among them, with at least one digit in all. */
  predicate IsDecimal(u: string)
  {
    || (u != [] && AllDigits(u))
    || exists p :: 0 <= p < |u| && u[p] == '.' && AllDigits(u[..p]) && AllDigits(u[p + 1..]) && |u| > 1
  }

  /** An optional `+` or `-`, then an unsigned decimal. */
  predicate WellFormed(s: string)
  {
    if |s| > 0 && (s[0] == '-' || s[0] == '+') then IsDecimal(s[1..]) else IsDecimal(s)
  }

  /** `float(s)` on plain decimal text: an optional `+` or `-`, then an
      unsigned decimal. It succeeds exactly on the texts of the grammar. */
  function Parse(s: string): (r: Option<real>)
    ensures r.Some? <==> WellFormed(s)
  {
    if |s| > 0 && s[0] == '-' then
      UnsignedGrammar(s[1..]);
      match ParseUnsigned(s[1..])
      case None => None
      case Some(v) => Some(-v)
    else if |s| > 0 && s[0] == '+' then
      UnsignedGrammar(s[1..]);
      ParseUnsigned(s[1..])
    else
      UnsignedGrammar(s);
      ParseUnsigned(s)
  }

  /** `ParseUnsigned` accepts exactly the unsigned decimals of the grammar. */
  lemma UnsignedGrammar(u: string)
    ensures ParseUnsigned(u).Some? <==> IsDecimal(u)
  {
    var n := LeadingDigits(u);
    // Any point in `u` that has only digits before it sits at `n`.
    assert forall k :: 0 <= k < n ==> IsDigit(u[k]) by {
      forall k | 0 <= k < n ensures IsDigit(u[k]) { assert u[..n][k] == u[k]; }
    }
    forall p | 0 <= p < |u| && u[p] == '.' && AllDigits(u[..p]) ensures p == n {
      forall k | 0 <= k < p ensures IsDigit(u[k]) { assert u[..p][k] == u[k]; }
    }
    if n == |u| {
      assert u[..n] == u;
    } else {
      assert !AllDigits(u);
      if u[n] == '.' {
        assert |u| == n + 1 + |u[n + 1..]|;
        if ParseUnsigned(u).Some? {
          assert u[n] == '.' && AllDigits(u[..n]) && AllDigits(u[n + 1..]) && |u| > 1;
        }
      }
    }
  }

  /** The characters a number may be written with. */
  predicate IsNumeral(c: char)
  {
    IsDigit(c) || c == '.' || c == '+' || c == '-'
  }

  /** Only non-empty text made of digits, a point and a sign parses; any
      other character (a letter, a currency code, a space) makes the text
      unparsable. */
  lemma ParseAlphabet(s: string)
    ensures Parse(s).Some? ==> s != [] && forall k :: 0 <= k < |s| ==> IsNumeral(s[k])
  {
    if Parse(s).Some? {
      var t := if |s| > 0 && (s[0] == '-' || s[0] == '+') then s[1..] else s;
      assert ParseUnsigned(t).Some?;
      ParseUnsignedAlphabet(t);
      forall k | 0 <= k < |s| ensures IsNumeral(s[k]) {
        if t != s && k > 0 { assert s[k] == t[k - 1]; }
      }
    }
  }

  lemma ParseUnsignedAlphabet(t: string)
    requires ParseUnsigned(t).Some?
    ensures t != [] && forall k :: 0 <= k < |t| ==> IsDigit(t[k]) || t[k] == '.'
  {
    var n := LeadingDigits(t);
    forall k | 0 <= k < |t| ensures IsDigit(t[k]) || t[k] == '.' {
      if k < n {
        assert t[k] == t[..n][k];
      } else if k > n {
        assert t[k] == t[n + 1..][k - n - 1];
      }
    }
  }

  /** Texts at the edge of the grammar: a bare fraction and an explicit plus
      are accepted; a lone point, a lone sign, a second point and an inner
      sign are not. */
  lemma GrammarExamples()
    ensures Parse(".5") == Some(0.5) && Parse("+5") == Some(5.0)
    ensures Parse(".").None? && Parse("-").None?
    ensures Parse("1.2.3").None? && Parse("1-2").None?
  {
    GrammarAccepts();
    GrammarRejectsBare();
    GrammarRejectsInner();
  }

  lemma GrammarAccepts()
    ensures Parse(".5") == Some(0.5) && Parse("+5") == Some(5.0)
  {
  }

  lemma GrammarRejectsBare()
    ensures Parse(".").None? && Parse("-").None?
  {
  }

  lemma GrammarRejectsInner()
    ensures Parse("1.2.3").None? && Parse("1-2").None?
  {
  }

  /** A leading minus negates the value of an unsigned decimal, and fails
      exactly when the unsigned text fails. */
  lemma ParseNegative(t: string)
    requires t == [] || (t[0] != '-' && t[0] != '+')
    ensures Parse(t).None? ==> Parse("-" + t).None?
    ensures Parse(t).Some? ==> Parse("-" + t) == Some(-Parse(t).value)
  {
    assert ("-" + t)[1..] == t;
  }

  /** Decimal digits of `n`, most significant first, without leading zeros. */
  function FormatNat(n: nat): (s: string)
    ensures s != [] && AllDigits(s)
  {
    if n < 10 then [DigitChar(n)] else FormatNat(n / 10) + [DigitChar(n % 10)]
  }

  /** `str(n)` for an integer. */
  function FormatInt(n: int): string
  {
    if n < 0 then "-" + FormatNat(-n) else FormatNat(n)
  }

  /** Exactly `places` digits of `m`, padded with leading zeros. */
  function PadDigits(m: nat, places: nat): (s: string)
    ensures |s| == places && AllDigits(s)
  {
    if places == 0 then [] else PadDigits(m / 10, places - 1) + [DigitChar(m % 10)]
  }

  /** `n / 10^places` written with exactly `places` fraction digits, as a
      sheet shows a fixed-point amount (`25.50`, `-0.125`). */
  function FormatFixed(n: int, places: nat): string
    requires places > 0
  {
    if n < 0 then "-" + FixedDigits(-n, places) else FixedDigits(n, places)
  }

  /** The unsigned text of `a / 10^places`: whole part, point, `places` digits. */
  function FixedDigits(a: nat, places: nat): string
    requires places > 0
  {
    var p := Pow10(places);
    DivMod(a, p);
    FormatNat(a / p) + "." + PadDigits(a % p, places)
  }

  /** Euclidean division of a natural number by a positive one. */
  lemma DivMod(a: nat, p: nat)
    requires p >= 1
    ensures 0 <= a / p && 0 <= a % p < p
    ensures a == (a / p) * p + a % p
  {
  }

  /** Splitting `a` into whole part and remainder keeps its scaled value. */
  lemma ScaledSplit(a: nat, p: nat)
    requires p >= 1
    ensures (a / p) as real + (a % p) as real / p as real == a as real / p as real
  {
    DivMod(a, p);
    var q, r := a / p, a % p;
    assert a as real == (q * p) as real + r as real;
    assert (q * p) as real == q as real * p as real;
    calc {
      q as real + r as real / p as real;
      (q as real * p as real) / p as real + r as real / p as real;
      (q as real * p as real + r as real) / p as real;
      a as real / p as real;
    }
  }

  lemma {:induction false} NaturalFormatNat(n: nat)
    ensures Natural(FormatNat(n)) == n
  {
    if n >= 10 {
      NaturalFormatNat(n / 10);
      var s := FormatNat(n);
      assert s[..|s| - 1] == FormatNat(n / 10);
    }
  }

  lemma {:induction false} NaturalPadDigits(m: nat, places: nat)
    requires m < Pow10(places)
    ensures Natural(PadDigits(m, places)) == m
  {
    if places > 0 {
      LastDigit(m, Pow10(places - 1));
      NaturalPadDigits(m / 10, places - 1);
      var s := PadDigits(m, places);
      assert s[..|s| - 1] == PadDigits(m / 10, places - 1);
      assert s[|s| - 1] == DigitChar(m % 10);
    }
  }

  /** Splitting off the last decimal digit of `m < 10 * p`. */
  lemma LastDigit(m: nat, p: nat)
    requires m < 10 * p
    ensures m / 10 < p && m == 10 * (m / 10) + m % 10
  {
  }

  lemma LeadingDigitsOf(ds: string, rest: string)
    requires AllDigits(ds)
    requires rest == [] || !IsDigit(rest[0])
    ensures LeadingDigits(ds + rest) == |ds|
    decreases |ds|
  {
    if ds != [] {
      assert (ds + rest)[1..] == ds[1..] + rest;
      LeadingDigitsOf(ds[1..], rest);
    }
  }

  /** Round trip: an integer written out in decimal parses back to itself. */
  lemma ParseFormatInt(n: int)
    ensures Parse(FormatInt(n)) == Some(n as real)
  {
    var a: nat := if n < 0 then -n else n;
    var ds := FormatNat(a);
    NaturalFormatNat(a);
    LeadingDigitsOf(ds, []);
    assert ds + [] == ds;
    assert ParseUnsigned(ds) == Some(a as real);
    if n < 0 {
      ParseNegative(ds);
    }
  }

  /** `whole.frac` parses to the whole part plus the scaled fraction. */
  lemma ParseUnsignedPoint(whole: string, frac: string)
    requires whole != [] && AllDigits(whole) && AllDigits(frac)
    ensures ParseUnsigned(whole + "." + frac) == Some(PointValue(whole, frac))
  {
    var t := whole + "." + frac;
    LeadingDigitsOf(whole, "." + frac);
    assert t == whole + ("." + frac);
    var k := |whole|;
    assert t[..k] == whole && t[k] == '.' && t[k + 1..] == frac;
    assert ParseUnsigned(t) == ParsePoint(t[..k], t[k + 1..]);
  }

  lemma FixedPointValue(q: nat, r: nat, places: nat)
    requires r < Pow10(places)
    ensures PointValue(FormatNat(q), PadDigits(r, places))
      == q as real + r as real / Pow10(places) as real
  {
    NaturalFormatNat(q);
    NaturalPadDigits(r, places);
  }

  /** `n / 10^places` as a real. */
  function Scaled(n: int, places: nat): real
  {
    n as real / Pow10(places) as real
  }

  lemma ScaledNegate(n: int, places: nat)
    ensures Scaled(-n, places) == -Scaled(n, places)
  {
  }

  lemma ParseFixedDigits(a: nat, places: nat)
    requires places > 0
    ensures FixedDigits(a, places) != [] && IsDigit(FixedDigits(a, places)[0])
    ensures Parse(FixedDigits(a, places)) == Some(Scaled(a, places))
  {
    var p := Pow10(places);
    DivMod(a, p);
    var q, r := a / p, a % p;
    var whole, frac := FormatNat(q), PadDigits(r, places);
    assert FixedDigits(a, places) == whole + "." + frac;
    ParseUnsignedPoint(whole, frac);
    FixedPointValue(q, r, places);
    ScaledSplit(a, p);
    assert (whole + "." + frac)[0] == whole[0];
  }

  /** Round trip: a fixed-point amount written with `places` fraction digits
      parses back to `n / 10^places`. */
  lemma ParseFormatFixed(n: int, places: nat)
    requires places > 0
    ensures Parse(FormatFixed(n, places)) == Some(n as real / Pow10(places) as real)
  {
    if n < 0 {
      ParseFormatFixedNegative(n, places);
    } else {
      ParseFixedDigits(n, places);
    }
  }

  lemma ParseFormatFixedNegative(n: int, places: nat)
    requires places > 0 && n < 0
    ensures Parse(FormatFixed(n, places)) == Some(Scaled(n, places))
  {
    var a: nat := -n;
    assert FormatFixed(n, places) == "-" + FixedDigits(a, places);
    ParseMinusFixedDigits(a, places);
    assert -(a as int) == n;
  }

  lemma ParseMinusFixedDigits(a: nat, places: nat)
    requires places > 0
    ensures Parse("-" + FixedDigits(a, places)) == Some(Scaled(-(a as int), places))
  {
    var t := FixedDigits(a, places);
    ParseFixedDigits(a, places);
    ParseNegative(t);
    ScaledNegate(a, places);
  }

}
