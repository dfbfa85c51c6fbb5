/** The text-to-value conversions the Python code borrows from its runtime:
    `int(...)`, `float(...)` and `str.rstrip(...)`. */
module Tokens {
  import opened Wrappers

  predicate IsDigit(c: char) { '0' <= c <= '9' }

  predicate AllDigits(s: string) { forall i :: 0 <= i < |s| ==> IsDigit(s[i]) }

  /** The value of a string of decimal digits, most significant first. */
  function DigitsValue(s: string): nat
    requires AllDigits(s)
  {
    if |s| == 0 then 0
    else DigitsValue(s[..|s| - 1]) * 10 + (s[|s| - 1] as int - '0' as int)
  }

  function Pow10(n: nat): (r: nat)
    ensures r >= 1
  {
    if n == 0 then 1 else 10 * Pow10(n - 1)
  }

  /** `int(s)` on a token: an optional sign followed by at least one digit.
      Anything else is the ValueError case, here None. */
  function ParseInt(s: string): (r: Option<int>)
    ensures r.Some? <==> SignedDigits(s, 0) || SignedDigits(s, 1)
  {
    if SignedDigits(s, 1) then
      var v := DigitsValue(s[1..]);
      Some(if s[0] == '-' then -(v as int) else v)
    else if SignedDigits(s, 0) then Some(DigitsValue(s))
    else None
  }

  /** `s[k..]` is a nonempty run of digits and `s[..k]` a sign (when k is 1). */
  predicate SignedDigits(s: string, k: nat)
  {
    && k <= 1 && k < |s|
    && (k == 1 ==> s[0] == '-' || s[0] == '+')
    && AllDigits(s[k..])
  }

  /** `float(s)` on a plain decimal token: an optional sign, digits, and an
      optional fraction after one '.', with at least one digit in all. */
  function ParseDecimal(s: string): (r: Option<real>)
  {
    var negative := |s| > 0 && s[0] == '-';
    var body := if |s| > 0 && (s[0] == '-' || s[0] == '+') then s[1..] else s;
    match UnsignedDecimal(body)
    case None => None
    case Some(v) => Some(if negative then -v else v)
  }

  function UnsignedDecimal(s: string): Option<real>
  {
    var dot := DotIndex(s);
    var whole := s[..dot];
    var frac := if dot < |s| then s[dot + 1..] else "";
    if |whole| + |frac| > 0 && AllDigits(whole) && AllDigits(frac) then
      Some(DigitsValue(whole) as real + DigitsValue(frac) as real / Pow10(|frac|) as real)
    else None
  }

  /** The index of the first '.', or |s| when there is none. */
  function DotIndex(s: string): (k: nat)
    ensures k <= |s|
    ensures k < |s| ==> s[k] == '.'
    ensures forall i :: 0 <= i < k ==> s[i] != '.'
  {
    if |s| == 0 then 0 else if s[0] == '.' then 0 else 1 + DotIndex(s[1..])
  }

  /** Decimal rendering of a natural number, without leading zeros. */
  function FormatNat(n: nat): (s: string)
    ensures |s| > 0 && AllDigits(s)
  {
    if n < 10 then [('0' as int + n) as char]
    else FormatNat(n / 10) + [('0' as int + n % 10) as char]
  }

  function FormatInt(n: int): (s: string)
  {
    if n < 0 then "-" + FormatNat(-n) else FormatNat(n)
  }

  lemma {:induction false} DigitsValueFormatNat(n: nat)
    ensures DigitsValue(FormatNat(n)) == n
  {
    var s := FormatNat(n);
    if n >= 10 {
      DigitsValueFormatNat(n / 10);
      assert s[..|s| - 1] == FormatNat(n / 10);
    }
  }

  /** `int` reads back every integer that was written out in decimal. */
  lemma ParseIntFormatInt(n: int)
    ensures ParseInt(FormatInt(n)) == Some(n)
  {
    if n < 0 {
      var body := FormatNat(-n);
      DigitsValueFormatNat(-n);
      assert FormatInt(n)[1..] == body;
      assert SignedDigits(FormatInt(n), 1);
    } else {
      DigitsValueFormatNat(n);
      assert FormatNat(n)[0..] == FormatNat(n);
      assert !SignedDigits(FormatInt(n), 1);
    }
  }

  lemma {:induction false} NoDotInDigits(s: string)
    requires AllDigits(s)
    ensures DotIndex(s) == |s|
  {
    if |s| > 0 {
      assert IsDigit(s[0]);
      NoDotInDigits(s[1..]);
    }
  }

  /** Every token that `int` accepts, `float` accepts with the same value. */
  lemma ParseDecimalExtendsParseInt(s: string)
    requires ParseInt(s).Some?
    ensures ParseDecimal(s) == Some(ParseInt(s).value as real)
  {
    var body := if |s| > 0 && (s[0] == '-' || s[0] == '+') then s[1..] else s;
    NoDotInDigits(body);
    assert body[..|body|] == body;
  }

  /** `s.rstrip('Z')`: drop every trailing 'Z'. */
  function StripTrailingZ(s: string): (r: string)
    ensures r <= s
    ensures |r| == 0 || r[|r| - 1] != 'Z'
    ensures forall i :: |r| <= i < |s| ==> s[i] == 'Z'
  {
    if |s| > 0 && s[|s| - 1] == 'Z' then StripTrailingZ(s[..|s| - 1]) else s
  }
}
