/**
 The parts of PHP's value semantics that the Elements endpoint depends on:
 the scalar values a request parameter or an element `id` can hold, PHP's
 truthiness test (`if ( $document_id )`), and the conversion PHP applies to a
 value used as an array offset (`$elements[ $element['id'] ]`), in which a
 string holding a canonical decimal integer becomes an integer key.
 */
module Php {

  const INT_MIN: int := -0x8000_0000_0000_0000
  const INT_MAX: int := 0x7fff_ffff_ffff_ffff

  /** A PHP `int` on a 64-bit build. */
  type PhpInt = i: int | INT_MIN <= i <= INT_MAX

  /** The scalar PHP values the model handles (floats and arrays are left out). */
  datatype PhpValue = Null | Bool(b: bool) | Int(i: PhpInt) | Str(s: string)

  /** A key of a PHP array: PHP arrays are keyed by integers or by strings. */
  datatype Key = IntKey(i: int) | StrKey(s: string)

  /** PHP's conversion of a scalar to bool: exactly five scalars are falsy. */
  predicate Truthy(v: PhpValue)
    ensures !Truthy(v) <==> v in {Null, Bool(false), Int(0), Str(""), Str("0")}
  {
    match v
    case Null => false
    case Bool(b) => b
    case Int(i) => i != 0
    case Str(s) => s != "" && s != "0"
  }

  // ---------------------------------------------------------------------
  // Decimal strings

  predicate IsDigit(c: char) { '0' <= c <= '9' }

  predicate AllDigits(s: string) { forall k :: 0 <= k < |s| ==> IsDigit(s[k]) }

  /** The value of a string of decimal digits, read most significant first. */
  function DigitsValue(s: string): nat
    requires AllDigits(s)
  {
    if s == [] then 0 else DigitsValue(s[..|s| - 1]) * 10 + (s[|s| - 1] as int - '0' as int)
  }

  function DigitChar(d: nat): (c: char)
    requires d < 10
    ensures IsDigit(c) && c as int - '0' as int == d
  {
    ('0' as int + d) as char
  }

  /** The shortest decimal spelling of a natural number. */
  function NatToDecimal(n: nat): (s: string)
    decreases n
  {
    if n < 10 then [DigitChar(n)] else NatToDecimal(n / 10) + [DigitChar(n % 10)]
  }

  /** PHP's string form of an integer: `(string) $i`. */
  function IntToDecimal(i: int): string
  {
    if i < 0 then "-" + NatToDecimal(-i) else NatToDecimal(i)
  }

  /** Digits with no leading zero, except for "0" itself. */
  predicate IsUnpaddedDigits(s: string)
  {
    |s| >= 1 && AllDigits(s) && (s[0] != '0' || |s| == 1)
  }

  /**
   A string PHP reads as a decimal integer when used as an array offset:
   an optional minus sign, then digits without a leading zero. "0" is one,
   "-0", "01", "+1", " 1" and "" are not.
   */
  predicate IsDecimalInteger(s: string)
  {
    IsUnpaddedDigits(s) || (|s| >= 2 && s[0] == '-' && s[1] != '0' && IsUnpaddedDigits(s[1..]))
  }

  function DecimalValue(s: string): int
    requires IsDecimalInteger(s)
  {
    if s[0] == '-' then -(DigitsValue(s[1..]) as int) else DigitsValue(s) as int
  }

  /**
   The array key a string offset stands for: an integer key when the string
   is a decimal integer within the range of a PHP `int`, the string itself
   otherwise.
   */
  function StringKey(s: string): (k: Key)
    ensures k.StrKey? ==> k.s == s
    ensures k.IntKey? ==> INT_MIN <= k.i <= INT_MAX
  {
    if IsDecimalInteger(s) && INT_MIN <= DecimalValue(s) <= INT_MAX
    then IntKey(DecimalValue(s))
    else StrKey(s)
  }

  /**
   The array key a scalar offset stands for: `null` is the empty string,
   booleans are 0 and 1, integers are themselves and strings are
   canonicalised by StringKey.
   */
  function ToKey(v: PhpValue): Key
  {
    match v
    case Null => StrKey("")
    case Bool(b) => IntKey(if b then 1 else 0)
    case Int(i) => IntKey(i)
    case Str(s) => StringKey(s)
  }

  // ---------------------------------------------------------------------
  // Lemmas about the decimal forms

  /** A zero leading digit of an unpadded spelling means the value zero. */
  lemma ZeroLeadingDigit(s: string)
    requires IsUnpaddedDigits(s) && s[0] == '0'
    ensures DigitsValue(s) == 0
  {
    assert s[..0] == [];
  }

  lemma {:induction false} NatToDecimalIsUnpadded(n: nat)
    ensures IsUnpaddedDigits(NatToDecimal(n))
    ensures DigitsValue(NatToDecimal(n)) == n
    decreases n
  {
    var s := NatToDecimal(n);
    if n >= 10 {
      NatToDecimalIsUnpadded(n / 10);
      var p := NatToDecimal(n / 10);
      assert s == p + [DigitChar(n % 10)];
      assert s[..|s| - 1] == p;
      assert s[0] == p[0];
      if p[0] == '0' {
        ZeroLeadingDigit(p);
      }
    } else {
      assert s[..0] == [];
    }
  }

  lemma {:induction false} LeadingDigitPositive(s: string)
    requires IsUnpaddedDigits(s) && s[0] != '0'
    ensures DigitsValue(s) >= 1
    decreases |s|
  {
    if |s| > 1 {
      var p := s[..|s| - 1];
      assert p[0] == s[0];
      LeadingDigitPositive(p);
    } else {
      assert s[..0] == [];
    }
  }

  lemma {:induction false} UnpaddedDigitsRoundTrip(s: string)
    requires IsUnpaddedDigits(s)
    ensures NatToDecimal(DigitsValue(s)) == s
    decreases |s|
  {
    var p := s[..|s| - 1];
    var d := s[|s| - 1] as int - '0' as int;
    if |s| == 1 {
      assert p == [];
      assert DigitsValue(s) == d;
      assert [DigitChar(d)] == s;
    } else {
      assert p[0] == s[0];
      LeadingDigitPositive(p);
      UnpaddedDigitsRoundTrip(p);
      var n := DigitsValue(s);
      assert n == DigitsValue(p) * 10 + d;
      assert n / 10 == DigitsValue(p) && n % 10 == d;
      assert s == p + [DigitChar(d)];
    }
  }

  /** PHP's decimal form of an in-range integer lands on that integer key. */
  lemma IntToDecimalKey(i: PhpInt)
    ensures StringKey(IntToDecimal(i)) == IntKey(i)
  {
    var s := IntToDecimal(i);
    if i < 0 {
      var n: nat := -(i as int);
      NatToDecimalIsUnpadded(n);
      var t := NatToDecimal(n);
      assert s[1..] == t;
      if t[0] == '0' {
        ZeroLeadingDigit(t);
      }
      assert IsDecimalInteger(s);
    } else {
      NatToDecimalIsUnpadded(i);
    }
  }

  /** A string that lands on an integer key is PHP's decimal form of it. */
  lemma IntKeyIsDecimal(s: string)
    requires StringKey(s).IntKey?
    ensures s == IntToDecimal(StringKey(s).i)
  {
    if s[0] == '-' {
      assert !IsUnpaddedDigits(s);
      UnpaddedDigitsRoundTrip(s[1..]);
      LeadingDigitPositive(s[1..]);
      assert s == "-" + s[1..];
    } else {
      UnpaddedDigitsRoundTrip(s);
    }
  }

  /**
   An integer key has exactly one string spelling: a string offset lands on
   integer key `i` if and only if it is PHP's decimal form of `i`.
   */
  lemma DecimalStringKey(s: string, i: PhpInt)
    ensures StringKey(s) == IntKey(i) <==> s == IntToDecimal(i)
  {
    if s == IntToDecimal(i) {
      IntToDecimalKey(i);
    }
    if StringKey(s) == IntKey(i) {
      IntKeyIsDecimal(s);
    }
  }

  /**
   Non-string offsets select the same slot as a string: an integer the same
   as its decimal form (`$a[1]` is `$a["1"]`), a boolean the same as "1" or
   "0", and null the same as "".
   */
  lemma ToKeyAsString(v: PhpValue)
    ensures v.Int? ==> ToKey(v) == StringKey(IntToDecimal(v.i))
    ensures v.Bool? ==> ToKey(v) == StringKey(if v.b then "1" else "0")
    ensures v.Null? ==> ToKey(v) == StringKey("")
    ensures ToKey(v).IntKey? ==> INT_MIN <= ToKey(v).i <= INT_MAX
  {
    match v
    case Int(i) =>
      IntToDecimalKey(i);
    case Bool(b) =>
      IntToDecimalKey(if b then 1 else 0);
      assert IntToDecimal(if b then 1 else 0) == if b then "1" else "0";
    case Null =>
    case Str(s) =>
  }

  /** Two different strings never select the same array slot. */
  lemma StringKeyInjective(s: string, t: string)
    requires StringKey(s) == StringKey(t)
    ensures s == t
  {
    if StringKey(s).IntKey? {
      IntKeyIsDecimal(s);
      IntKeyIsDecimal(t);
    }
  }
}
