/** Python's `float(text)` for the plain decimal texts a map-pool cell may
    hold: an optional sign, digits, and an optional fractional part, with at
    least one digit. Anything else does not parse. */
module DecimalText {
  import opened Optional

  predicate IsDigit(c: char) { '0' <= c <= '9' }

  predicate AllDigits(s: string) { forall i :: 0 <= i < |s| ==> IsDigit(s[i]) }

  function Digit(d: nat): (c: char)
    requires d < 10
    ensures IsDigit(c)
  {
    "0123456789"[d]
  }

  function DigitValue(c: char): (d: nat)
    requires IsDigit(c)
    ensures d < 10
  {
    c as int - '0' as int
  }

  /** The value of a run of decimal digits, most significant first. */
  function DigitsValue(s: string): nat
    requires AllDigits(s)
  {
    if s == [] then 0 else DigitsValue(s[..|s| - 1]) * 10 + DigitValue(s[|s| - 1])
  }

  /** The value of the digits after a decimal point: "25" is 0.25. */
  function FractionValue(s: string): (v: real)
    requires AllDigits(s)
    ensures 0.0 <= v < 1.0
  {
    if s == [] then 0.0 else (DigitValue(s[0]) as real + FractionValue(s[1..])) / 10.0
  }

  /** The index of the first '.', or |s| when there is none. */
  function DotIndex(s: string): (k: nat)
    ensures k <= |s|
    ensures k < |s| ==> s[k] == '.'
    ensures forall i :: 0 <= i < k ==> s[i] != '.'
  {
    if s == [] then 0
    else if s[0] == '.' then 0
    else 1 + DotIndex(s[1..])
  }

  /** An unsigned decimal: digits, or digits '.' digits with a digit on at
      least one side of the point. */
  function ParseUnsigned(s: string): (r: Option<real>)
    ensures r.Some? ==> r.value >= 0.0
  {
    var k := DotIndex(s);
    if k == |s| then
      if s != [] && AllDigits(s) then Some(DigitsValue(s) as real) else None
    else
      var whole, frac := s[..k], s[k + 1..];
      if AllDigits(whole) && AllDigits(frac) && |whole| + |frac| > 0
      then Some(DigitsValue(whole) as real + FractionValue(frac))
      else None
  }

  /** `float(s)` on a decimal text, `None` where Python raises. Only a text
      with a leading '-' reads as a negative number. */
  function ParseDecimal(s: string): (r: Option<real>)
    ensures r.Some? && r.value < 0.0 ==> s != [] && s[0] == '-'
  {
    if s != [] && s[0] == '-' then
      match ParseUnsigned(s[1..])
      case Some(v) => Some(-v)
      case None => None
    else if s != [] && s[0] == '+' then ParseUnsigned(s[1..])
    else ParseUnsigned(s)
  }

  /** The decimal notation of a natural number, without leading zeros. */
  function Show(n: nat): (s: string)
    ensures s != [] && AllDigits(s)
  {
    if n < 10 then [Digit(n)] else Show(n / 10) + [Digit(n % 10)]
  }

  lemma {:induction false} ShowValue(n: nat)
    ensures DigitsValue(Show(n)) == n
  {
    var s := Show(n);
    if n < 10 {
      assert s[..0] == [];
    } else {
      ShowValue(n / 10);
      assert s[..|s| - 1] == Show(n / 10);
    }
  }

  lemma AllDigitsHasNoDot(s: string)
    requires AllDigits(s)
    ensures DotIndex(s) == |s|
  {
    if DotIndex(s) < |s| {
      assert !IsDigit(s[DotIndex(s)]);
    }
  }

  /** The notation of a natural number reads back as that number, and with a
      leading '-' as its negation. */
  lemma ParseShow(n: nat)
    ensures ParseDecimal(Show(n)) == Some(n as real)
    ensures ParseDecimal("-" + Show(n)) == Some(-(n as real))
  {
    ShowValue(n);
    AllDigitsHasNoDot(Show(n));
    assert Show(n)[0] != '-' && Show(n)[0] != '+' by { assert IsDigit(Show(n)[0]); }
    assert ("-" + Show(n))[1..] == Show(n);
  }

  /** A text without any digit never parses: the empty text, a sign or a
      point alone, and words such as "n/a". */
  lemma NoDigitNoValue(s: string)
    requires forall i :: 0 <= i < |s| ==> !IsDigit(s[i])
    ensures ParseDecimal(s) == None
  {
    forall t | t == s || (s != [] && t == s[1..]) ensures ParseUnsigned(t) == None {
      assert forall i :: 0 <= i < |t| ==> !IsDigit(t[i]) by {
        if t != s {
          forall i | 0 <= i < |t| ensures !IsDigit(t[i]) { assert t[i] == s[i + 1]; }
        }
      }
      var k := DotIndex(t);
      if k == |t| {
        if t != [] { assert !IsDigit(t[0]); }
      } else {
        var whole, frac := t[..k], t[k + 1..];
        if |whole| > 0 { assert !IsDigit(whole[0]); }
        if |frac| > 0 { assert frac[0] == t[k + 1]; assert !IsDigit(frac[0]); }
      }
    }
  }
}
