/** Python floats as they appear in the fact store and in rule conditions,
    idealised as exact decimals. A number is `mant / 10^exp`; `Normal`
    numbers carry no trailing zero after the decimal point, so each value
    has exactly one normal representation. `Text` is Python's `str(float)`
    in fixed notation (`40.0`, `-0.5`, `12.25`) and `Parse` is `float(s)`
    on plain decimal literals (`40`, `+40.`, `-.5`, `40.0`). */
module Decimal {
  import opened Basics

  datatype Dec = Dec(mant: int, exp: nat)

  predicate Normal(d: Dec) {
    d.exp == 0 || d.mant % 10 != 0
  }

  function Pow10(n: nat): (r: nat)
    ensures r >= 1
  {
    if n == 0 then 1 else 10 * Pow10(n - 1)
  }

  /** `a` and `b` denote the same rational number. */
  predicate SameValue(a: Dec, b: Dec) {
    a.mant * Pow10(b.exp) == b.mant * Pow10(a.exp)
  }

  /** Python's `a < b` on floats. */
  predicate Less(a: Dec, b: Dec) {
    a.mant * Pow10(b.exp) < b.mant * Pow10(a.exp)
  }

  /** Python's `a <= b` on floats. */
  predicate LessEq(a: Dec, b: Dec) {
    a.mant * Pow10(b.exp) <= b.mant * Pow10(a.exp)
  }

  /** Strip trailing zero digits of the fraction without changing the value. */
  function Normalize(m: int, e: nat): (d: Dec)
    ensures Normal(d)
    ensures SameValue(d, Dec(m, e))
    ensures d.exp <= e
    decreases e
  {
    if e > 0 && m % 10 == 0 then
      var d := Normalize(m / 10, e - 1);
      NormalizeStep(m, e, d);
      d
    else Dec(m, e)
  }

  lemma NormalizeStep(m: int, e: nat, d: Dec)
    requires e > 0 && m % 10 == 0
    requires SameValue(d, Dec(m / 10, e - 1))
    ensures SameValue(d, Dec(m, e))
  {
    calc {
      d.mant * Pow10(e);
      d.mant * (10 * Pow10(e - 1));
      10 * (d.mant * Pow10(e - 1));
      10 * ((m / 10) * Pow10(d.exp));
      (10 * (m / 10)) * Pow10(d.exp);
      m * Pow10(d.exp);
    }
  }

  // ---------------------------------------------------------------- digits

  /** An ASCII digit; the other Unicode decimal digits `float()` accepts
      are not modelled. */
  predicate IsDigit(c: char) {
    '0' <= c <= '9'
  }

  predicate AllDigits(s: string) {
    forall i :: 0 <= i < |s| ==> IsDigit(s[i])
  }

  function DigitChar(n: nat): (c: char)
    requires n < 10
    ensures IsDigit(c)
  {
    ('0' as int + n) as char
  }

  /** The value of a run of decimal digits (`int(s)` for digits only). */
  function DigitsValue(s: string): nat
    requires AllDigits(s)
  {
    if |s| == 0 then 0
    else DigitsValue(s[..|s| - 1]) * 10 + (s[|s| - 1] as int - '0' as int)
  }

  /** Python's `str(n)` for a natural number: shortest digit string. */
  function NatText(n: nat): (r: string)
    ensures |r| > 0 && AllDigits(r)
    ensures DigitsValue(r) == n
  {
    if n < 10 then [DigitChar(n)]
    else
      var r := NatText(n / 10) + [DigitChar(n % 10)];
      assert r[..|r| - 1] == NatText(n / 10);
      r
  }

  /** Exactly `w` digits of `f`, left-padded with zeros. */
  function FixedDigits(f: nat, w: nat): (r: string)
    requires f < Pow10(w)
    ensures |r| == w && AllDigits(r)
    ensures DigitsValue(r) == f
  {
    if w == 0 then []
    else
      var r := FixedDigits(f / 10, w - 1) + [DigitChar(f % 10)];
      assert r[..|r| - 1] == FixedDigits(f / 10, w - 1);
      r
  }

  function Abs(m: int): nat {
    if m < 0 then -m else m
  }

  /** Python's `str(i)` for an integer. */
  function IntText(i: int): string {
    if i < 0 then "-" + NatText(-i) else NatText(i)
  }

  /** Python's `str(x)` for a float, in fixed notation: an integral value
      prints with a `.0` suffix, any other with exactly its fraction digits. */
  function Text(d: Dec): string {
    var sign := SignText(d.mant < 0);
    var a := Abs(d.mant);
    if d.exp == 0 then sign + NatText(a) + ".0"
    else sign + NatText(WholeDigits(a, d.exp)) + "." + FracDigits(a, d.exp)
  }

  /** `a` with its last `e` digits dropped. */
  function WholeDigits(a: nat, e: nat): (q: nat)
    ensures q * Pow10(e) + a % Pow10(e) == a
  {
    var p := Pow10(e);
    DivMod(a, p);
    DivBound(a, p);
    a / p
  }

  lemma DivBound(a: nat, p: nat)
    requires p >= 1
    ensures 0 <= a / p <= a
  {
  }

  /** The last `e` digits of `a`. */
  function FracDigits(a: nat, e: nat): (r: string)
    ensures |r| == e && AllDigits(r)
    ensures DigitsValue(r) == a % Pow10(e)
  {
    var p := Pow10(e);
    ModBound(a, p);
    FixedDigits(a % p, e)
  }

  lemma ModBound(a: nat, p: nat)
    requires p >= 1
    ensures 0 <= a % p < p
  {
  }

  // --------------------------------------------------------------- parsing

  /** Python's `float(s)` on a decimal literal: an optional sign, digits,
      and an optional point followed by digits, with at least one digit in
      all. Any other text is a `ValueError`, reported as None. */
  function Parse(s: string): (r: Option<Dec>)
    ensures r.Some? ==> Normal(r.value)
  {
    var (neg, body) := SplitSign(s);
    match ParseUnsigned(body)
    case None => None
    case Some((mag, e)) => Some(Normalize(Signed(neg, mag), e))
  }

  function Signed(neg: bool, mag: nat): int {
    if neg then -(mag as int) else mag as int
  }

  function SignText(neg: bool): string {
    if neg then "-" else ""
  }

  /** Whether `s` starts with a minus sign, and `s` without its sign. */
  function SplitSign(s: string): (bool, string) {
    if |s| > 0 && (s[0] == '-' || s[0] == '+') then (s[0] == '-', s[1..]) else (false, s)
  }

  /** `digits[.digits]`, `.digits` or `digits.` as a magnitude and the
      number of fraction digits. */
  function ParseUnsigned(body: string): Option<(nat, nat)> {
    var dot := IndexOf(body, '.');
    var whole := body[..dot];
    var frac := if dot < |body| then body[dot + 1..] else [];
    if AllDigits(whole) && AllDigits(frac) && |whole| + |frac| > 0 then
      Some((Join(DigitsValue(whole), DigitsValue(frac), |frac|), |frac|))
    else None
  }

  /** The magnitude of `whole.frac` scaled by `10^n`, `n` being the number
      of fraction digits. */
  function Join(whole: nat, frac: nat, n: nat): nat {
    whole * Pow10(n) + frac
  }

  // ---------------------------------------------------------------- lemmas

  lemma NormalizeNormal(m: int, e: nat)
    requires Normal(Dec(m, e))
    ensures Normalize(m, e) == Dec(m, e)
  {
  }

  lemma DivMod(a: nat, p: nat)
    requires p >= 1
    ensures (a / p) * p + a % p == a
  {
  }

  /** `float(str(x)) == x`: parsing the text of a normal float gives it back. */
  lemma {:induction false} ParseText(d: Dec)
    requires Normal(d)
    ensures Parse(Text(d)) == Some(d)
  {
    if d.exp == 0 {
      ParseTextIntegral(d);
    } else {
      ParseTextFraction(d);
    }
  }

  lemma ParseTextIntegral(d: Dec)
    requires d.exp == 0
    ensures Parse(Text(d)) == Some(d)
  {
    var a := Abs(d.mant);
    var neg := d.mant < 0;
    var whole := NatText(a);
    assert Text(d) == SignText(neg) + (whole + "." + "0");
    assert DigitsValue("0") == 0;
    ParseLiteral(neg, whole, "0");
    SignedTimesTen(d.mant);
    NormalizeTimesTen(d.mant);
  }

  /** The literal `a.0` scales the magnitude by ten. */
  lemma SignedTimesTen(m: int)
    ensures Signed(m < 0, Join(Abs(m), 0, 1)) == m * 10
  {
    assert Pow10(1) == 10;
  }

  /** The trailing `.0` of an integral text normalizes away. */
  lemma NormalizeTimesTen(m: int)
    ensures Normalize(m * 10, 1) == Dec(m, 0)
  {
    assert (m * 10) % 10 == 0 && (m * 10) / 10 == m;
  }

  lemma ParseTextFraction(d: Dec)
    requires Normal(d) && d.exp > 0
    ensures Parse(Text(d)) == Some(d)
  {
    var a := Abs(d.mant);
    var neg := d.mant < 0;
    var whole, frac := NatText(WholeDigits(a, d.exp)), FracDigits(a, d.exp);
    assert Text(d) == SignText(neg) + (whole + "." + frac);
    ParseLiteral(neg, whole, frac);
    assert Join(WholeDigits(a, d.exp), DigitsValue(frac), d.exp) == a;
    assert Signed(neg, a) == d.mant;
    NormalizeNormal(d.mant, d.exp);
  }

  /** Parsing `[-]whole.frac` where both parts are digit runs. */
  lemma ParseLiteral(neg: bool, whole: string, frac: string)
    requires |whole| > 0 && AllDigits(whole) && AllDigits(frac)
    ensures Parse(SignText(neg) + (whole + "." + frac))
      == Some(Normalize(Signed(neg, Join(DigitsValue(whole), DigitsValue(frac), |frac|)), |frac|))
  {
    var body := whole + "." + frac;
    var s := SignText(neg) + body;
    assert IsDigit(body[0]);
    SplitSignDigits(neg, body);
    ParseUnsignedLiteral(whole, frac);
    var mag := Join(DigitsValue(whole), DigitsValue(frac), |frac|);
    ParseParts(s, neg, body, mag, |frac|);
  }

  lemma ParseParts(s: string, neg: bool, body: string, mag: nat, n: nat)
    requires SplitSign(s) == (neg, body)
    requires ParseUnsigned(body) == Some((mag, n))
    ensures Parse(s) == Some(Normalize(Signed(neg, mag), n))
  {
  }

  lemma SplitSignDigits(neg: bool, body: string)
    requires |body| > 0 && IsDigit(body[0])
    ensures SplitSign(SignText(neg) + body) == (neg, body)
  {
    var s := SignText(neg) + body;
    if neg {
      assert s[0] == '-' && s[1..] == body;
    } else {
      assert s == body;
    }
  }

  lemma ParseUnsignedLiteral(whole: string, frac: string)
    requires |whole| > 0 && AllDigits(whole) && AllDigits(frac)
    ensures ParseUnsigned(whole + "." + frac)
      == Some((Join(DigitsValue(whole), DigitsValue(frac), |frac|), |frac|))
  {
    var body := whole + "." + frac;
    IndexOfDigits(whole, frac);
    var dot := IndexOf(body, '.');
    assert dot == |whole| < |body|;
    assert body[..dot] == whole;
    assert body[dot + 1..] == frac;
  }

  lemma IndexOfDigits(whole: string, frac: string)
    requires AllDigits(whole)
    ensures IndexOf(whole + "." + frac, '.') == |whole|
  {
    var s := whole + "." + frac;
    assert s[|whole|] == '.';
  }

  /** Text that starts with anything but an ASCII digit, a sign or a
      point, such as a word, is not a number literal of the model. */
  lemma ParseRejectsWord(s: string)
    requires |s| > 0 && !IsDigit(s[0]) && s[0] != '+' && s[0] != '-' && s[0] != '.'
    ensures Parse(s) == None
  {
    assert SplitSign(s) == (false, s);
    var dot := IndexOf(s, '.');
    assert dot > 0;
    assert s[..dot][0] == s[0];
  }

  /** `str` is one-to-one on normal floats. */
  lemma TextInjective(a: Dec, b: Dec)
    requires Normal(a) && Normal(b)
    ensures Text(a) == Text(b) <==> a == b
  {
    if Text(a) == Text(b) {
      ParseText(a);
      ParseText(b);
    }
  }

  lemma Pow10Add(x: nat, y: nat)
    ensures Pow10(x + y) == Pow10(x) * Pow10(y)
  {
    if y > 0 {
      Pow10Add(x, y - 1);
      assert Pow10(x + y) == 10 * Pow10(x + y - 1);
    }
  }

  /** Each rational value has only one normal representation. */
  lemma {:induction false} NormalUnique(a: Dec, b: Dec)
    requires Normal(a) && Normal(b) && SameValue(a, b)
    ensures a == b
  {
    if a.exp < b.exp {
      NormalUniqueOrdered(a, b);
      assert false;
    } else if b.exp < a.exp {
      NormalUniqueOrdered(b, a);
      assert false;
    } else {
      assert a.mant * Pow10(a.exp) == b.mant * Pow10(a.exp);
    }
  }

  /** Same value with more fraction digits means a trailing zero. */
  lemma NormalUniqueOrdered(a: Dec, b: Dec)
    requires SameValue(a, b)
    requires a.exp < b.exp
    ensures b.mant % 10 == 0
  {
    var k: nat := b.exp - a.exp;
    Pow10Add(a.exp, k);
    ScaledEqual(a.mant, b.mant, Pow10(a.exp), Pow10(k));
    assert Pow10(k) == 10 * Pow10(k - 1);
    TenfoldMod(a.mant, Pow10(k - 1));
  }

  /** `m * (p * q) == n * p` with `p` positive gives `n == m * q`. */
  lemma ScaledEqual(m: int, n: int, p: int, q: int)
    requires p >= 1 && m * (p * q) == n * p
    ensures n == m * q
  {
    assert m * (p * q) == (m * q) * p;
    assert (n - m * q) * p == 0;
  }

  /** A multiple of ten ends in a zero digit. */
  lemma TenfoldMod(m: int, q: int)
    ensures (m * (10 * q)) % 10 == 0
  {
    assert m * (10 * q) == 10 * (m * q);
  }

  /** The `=` of two floats compares their texts, which is numeric equality. */
  lemma TextEqIffSameValue(a: Dec, b: Dec)
    requires Normal(a) && Normal(b)
    ensures Text(a) == Text(b) <==> SameValue(a, b)
  {
    TextInjective(a, b);
    if SameValue(a, b) {
      NormalUnique(a, b);
    }
  }
}
