/**
  Loosely typed scalars shared by the PHP and JavaScript halves of the plugin,
  and the one piece of PHP array-key semantics the catalog lookup depends on.
 */
module Values {

  datatype Option<+T> = None | Some(value: T)

  /** A scalar as post meta or a JSON object hands it back: nothing is
      guaranteed to be a boolean, so flags are read through a coercion. */
  datatype Value = Null | Bool(b: bool) | Int(i: int) | Str(s: string)

  /** JavaScript's ToBoolean on a scalar (NaN is not modelled). */
  predicate JsTruthy(v: Value) {
    match v
    case Null => false
    case Bool(b) => b
    case Int(i) => i != 0
    case Str(s) => s != ""
  }

  /** PHP_INT_MAX on a 64-bit build. */
  const PhpIntMax: nat := 0x7FFF_FFFF_FFFF_FFFF

  /** PHP's `empty()` on a string: true for '' and for '0'. */
  predicate PhpEmpty(s: string) {
    s == "" || s == "0"
  }

  predicate IsDigit(c: char) {
    '0' <= c <= '9'
  }

  function DigitValue(c: char): (d: nat)
    requires IsDigit(c)
    ensures d < 10
  {
    c as int - '0' as int
  }

  function DigitChar(d: nat): (c: char)
    requires d < 10
    ensures IsDigit(c) && DigitValue(c) == d
  {
    ('0' as int + d) as char
  }

  predicate AllDigits(s: string) {
    forall i | 0 <= i < |s| :: IsDigit(s[i])
  }

  /** A decimal numeral as PHP writes an integer: digits only, and no leading
      zero unless the numeral is "0" itself. */
  predicate CanonicalDecimal(s: string) {
    && |s| > 0
    && AllDigits(s)
    && (s[0] == '0' ==> |s| == 1)
  }

  /** The value of a string of digits, most significant first. */
  function DigitsValue(s: string): nat
    requires AllDigits(s)
  {
    if |s| == 0 then 0 else DigitsValue(s[..|s| - 1]) * 10 + DigitValue(s[|s| - 1])
  }

  /** The decimal numeral of `n`, as PHP prints an integer. */
  function Decimal(n: nat): (s: string)
    ensures CanonicalDecimal(s)
    ensures n >= 10 ==> |s| >= 2
  {
    if n < 10 then [DigitChar(n)] else Decimal(n / 10) + [DigitChar(n % 10)]
  }

  lemma {:induction false} DecimalValue(n: nat)
    ensures DigitsValue(Decimal(n)) == n
    decreases n
  {
    if n >= 10 {
      var s := Decimal(n);
      assert s[..|s| - 1] == Decimal(n / 10);
      DecimalValue(n / 10);
    }
  }

  lemma {:induction false} DecimalOfValue(s: string)
    requires CanonicalDecimal(s)
    ensures Decimal(DigitsValue(s)) == s
    decreases |s|
  {
    var last := s[|s| - 1];
    if |s| == 1 {
      assert DigitsValue(s) == DigitValue(last);
      assert [DigitChar(DigitValue(last))] == [last];
    } else {
      var prefix := s[..|s| - 1];
      assert prefix[0] == s[0];
      DecimalOfValue(prefix);
      var v := DigitsValue(prefix);
      // a prefix of value 0 would be the numeral "0", a leading zero of `s`
      assert prefix[0] != '0' && Decimal(0)[0] == '0';
      assert v != 0;
      var n := DigitsValue(s);
      assert n == v * 10 + DigitValue(last);
      assert n / 10 == v && n % 10 == DigitValue(last);
      assert Decimal(n) == Decimal(v) + [DigitChar(DigitValue(last))];
      assert s == prefix + [last];
    }
  }

  /** The list position a PHP array subscript string denotes. PHP casts a
      string key that is a canonical decimal integer within the platform's
      integer range to that integer; every other string stays a string key,
      which no position of a list carries. (Negative canonical integers are
      cast too, but never name a list position either.) */
  function ListIndexKey(key: string): (r: Option<nat>)
    ensures r.Some? ==> r.value <= PhpIntMax && Decimal(r.value) == key
    ensures forall n: nat | n <= PhpIntMax && key == Decimal(n) :: r == Some(n)
  {
    assert forall n: nat | key == Decimal(n) :: DigitsValue(key) == n by {
      forall n: nat | key == Decimal(n) {
        DecimalValue(n);
      }
    }
    if CanonicalDecimal(key) && DigitsValue(key) <= PhpIntMax then
      DecimalOfValue(key);
      Some(DigitsValue(key))
    else
      None
  }
}
