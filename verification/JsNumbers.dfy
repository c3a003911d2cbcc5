/** Numbers and their decimal texts. */
module JsNumbers {
  import opened JsText

  /** The largest integer below which a double holds every integer. */
  const MAX_SAFE := 9007199254740991

  predicate IsDigit(c: int) { 48 <= c <= 57 }

  /** `String(n)`. */
  function Digits(n: nat): (r: Text)
    ensures |r| >= 1 && forall i | 0 <= i < |r| :: 48 <= r[i] <= 57
    ensures n > 0 ==> r[0] > 48
    ensures n == 0 ==> r == [48]
  {
    if n < 10 then [48 + n] else Digits(n / 10) + [48 + n % 10]
  }

  /** The integer that a run of digits denotes. */
  function DigitsValue(s: Text): nat
    requires forall i | 0 <= i < |s| :: IsDigit(s[i])
  {
    if s == [] then 0
    else
      assert IsDigit(s[|s| - 1]);
      DigitsValue(s[..|s| - 1]) * 10 + (s[|s| - 1] as int - 48)
  }

  lemma {:induction false} DigitsValueOfDigits(n: nat)
    ensures DigitsValue(Digits(n)) == n
  {
    var d := Digits(n);
    assert d == d[..|d| - 1] + [d[|d| - 1]];
    if n < 10 {
      assert d[..0] == [];
    } else {
      DigitsValueOfDigits(n / 10);
      assert d[..|d| - 1] == Digits(n / 10);
    }
  }

  function Power10(k: nat): (p: nat)
    ensures p > 0
  {
    if k == 0 then 1 else 10 * Power10(k - 1)
  }

  function Power2(k: nat): (p: nat)
    ensures p > 0
  {
    if k == 0 then 1 else 2 * Power2(k - 1)
  }

  /** Half of the least double above zero, which rounds to zero, is two to the power of minus this. */
  const UNDERFLOW := 1075

  /** True if the double nearest to `digits` times ten to the power of `scale` is zero. */
  predicate RoundsToZero(digits: nat, scale: int) {
    digits == 0 || (scale < 0 && digits * Power2(UNDERFLOW) <= Power10(-scale))
  }

  /** `digits` times ten to the power of `scale`, if that is an integer that a double holds exactly. */
  function Integral(digits: nat, scale: int): (r: Option<nat>)
    ensures r.Some? ==> r.value <= MAX_SAFE
    ensures r.Some? ==> if scale >= 0 then r.value == digits * Power10(scale) else r.value * Power10(-scale) == digits
  {
    if scale >= 0 then
      if digits * Power10(scale) <= MAX_SAFE then Some(digits * Power10(scale)) else None
    else if digits % Power10(-scale) == 0 && digits / Power10(-scale) <= MAX_SAFE then
      ExactQuotient(digits, Power10(-scale));
      Some(digits / Power10(-scale))
    else None
  }

  lemma ExactQuotient(n: nat, d: nat)
    requires d > 0 && n % d == 0
    ensures n / d * d == n
  {
  }

  lemma {:induction false} DigitsAreFew(n: nat, k: nat)
    requires k > 0 && n < Power10(k)
    ensures |Digits(n)| <= k
  {
    if n >= 10 {
      DigitsAreFew(n / 10, k - 1);
    }
  }

  /** Safe integers have at most sixteen digits. */
  lemma SafeDigits(n: nat)
    requires n <= MAX_SAFE
    ensures |Digits(n)| <= 16
  {
    assert Power10(4) == 10000;
    assert Power10(8) == 100000000;
    assert Power10(12) == 1000000000000;
    assert Power10(16) == 10000000000000000;
    DigitsAreFew(n, 16);
  }

  /** What `Number(text)` can be; only natural numbers matter here. */
  datatype JsNumber = NotANumber | Natural(n: nat) | OtherNumber

  /** `Number` reads back what `String` printed. */
  ghost predicate ReadsDecimal(number: Text -> JsNumber) {
    forall n: nat | n <= MAX_SAFE :: number(Digits(n)) == Natural(n)
  }
}
