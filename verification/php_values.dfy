/**
  The PHP values a request carries once its JSON body is decoded (json_decode
  with associative arrays), PHP's empty() test on them, and the way PHP turns a
  value into an array key.
*/
module PhpValues {
  import opened Wrappers
  import opened PhpStrings

  /** PHP_INT_MAX and PHP_INT_MIN on a 64-bit build. */
  const INT_MAX: int := 0x7FFF_FFFF_FFFF_FFFF
  const INT_MIN: int := -0x8000_0000_0000_0000

  /**
    A decoded JSON value. JSON objects and lists both decode to PHP arrays; only
    their elements are kept here, in order.
  */
  datatype JsonValue =
    | JNull
    | JBool(b: bool)
    | JInt(i: int)
    | JString(s: Bytes)
    | JArray(elements: seq<JsonValue>)

  /** empty() on a string: "" and "0" are empty. */
  predicate EmptyString(s: Bytes)
  {
    s == [] || s == [ZERO_DIGIT]
  }

  /** empty($v): null, false, 0, "", "0" and the empty array are empty; nothing else is. */
  predicate Empty(v: JsonValue)
  {
    match v
    case JNull => true
    case JBool(b) => !b
    case JInt(i) => i == 0
    case JString(s) => EmptyString(s)
    case JArray(elements) => elements == []
  }

  /** The decoded JSON body of a request, keyed by field name. */
  type Params = map<Bytes, JsonValue>

  /** $data['name']: a missing field reads as null. */
  function Field(data: Params, name: Bytes): JsonValue
  {
    if name in data then data[name] else JNull
  }

  // ---------------------------------------------------------------- decimal strings

  predicate IsDigit(c: Byte)
  {
    48 <= c <= 57
  }

  /** A decimal numeral without a sign and without leading zeros ("0" itself is allowed). */
  predicate CanonicalDigits(s: Bytes)
  {
    && |s| >= 1
    && (forall i :: 0 <= i < |s| ==> IsDigit(s[i]))
    && (s[0] != ZERO_DIGIT || |s| == 1)
  }

  /** The value of a run of decimal digits. */
  function DigitsValue(s: Bytes): nat
    requires forall i :: 0 <= i < |s| ==> IsDigit(s[i])
  {
    if |s| == 0 then 0
    else
      assert IsDigit(s[|s| - 1]);
      10 * DigitsValue(s[..|s| - 1]) + (s[|s| - 1] as int - 48)
  }

  /** The shortest decimal numeral of n. */
  function Digits(n: nat): (s: Bytes)
    ensures CanonicalDigits(s)
    ensures DigitsValue(s) == n
  {
    if n < 10 then [48 + n]
    else
      var prefix := Digits(n / 10);
      var s := prefix + [48 + n % 10];
      assert s[..|s| - 1] == prefix;
      s
  }

  /** The string PHP makes of an integer: (string)$i. */
  function DecimalString(i: int): Bytes
  {
    if i < 0 then [MINUS] + Digits(-i) else Digits(i)
  }

  /**
    The integer a string key stands for, if any: PHP stores "42" and "-7" as the
    integer keys 42 and -7, but keeps "042", "-0", "+1", " 1" and numerals out of
    the 64-bit range as string keys.
  */
  function IntegerKey(s: Bytes): (r: Option<int>)
    ensures r.Some? ==> INT_MIN <= r.value <= INT_MAX && DecimalString(r.value) == s
  {
    if |s| >= 2 && s[0] == MINUS && CanonicalDigits(s[1..]) && s[1] != ZERO_DIGIT
       && DigitsValue(s[1..]) <= -INT_MIN then
      DigitsOfValue(s[1..]);
      assert s == [MINUS] + s[1..];
      Some(0 - DigitsValue(s[1..]))
    else if CanonicalDigits(s) && DigitsValue(s) <= INT_MAX then
      DigitsOfValue(s);
      Some(DigitsValue(s))
    else
      None
  }

  /** A numeral whose first digit is not 0 has a positive value. */
  lemma {:induction false} LeadingDigitPositive(s: Bytes)
    requires |s| >= 1 && (forall i :: 0 <= i < |s| ==> IsDigit(s[i])) && s[0] != ZERO_DIGIT
    ensures DigitsValue(s) >= 1
    decreases |s|
  {
    if |s| > 1 {
      LeadingDigitPositive(s[..|s| - 1]);
    }
  }

  /** A canonical numeral is the shortest numeral of its own value. */
  lemma {:induction false} DigitsOfValue(s: Bytes)
    requires CanonicalDigits(s)
    ensures Digits(DigitsValue(s)) == s
    decreases |s|
  {
    if |s| > 1 {
      var prefix := s[..|s| - 1];
      LeadingDigitPositive(prefix);
      DigitsOfValue(prefix);
      assert s == prefix + [s[|s| - 1]];
    } else {
      assert s == [s[0]];
    }
  }

  /** Every 64-bit integer, written as PHP writes it, is read back as that integer key. */
  lemma IntegerKeyOfDecimalString(i: int)
    requires INT_MIN <= i <= INT_MAX
    ensures IntegerKey(DecimalString(i)) == Some(i)
  {
    var s := DecimalString(i);
    if i < 0 {
      assert s[1..] == Digits(-i);
      LeadingDigitPositive(Digits(-i));
    }
  }

  // ---------------------------------------------------------------- array keys

  /** A key of a PHP array: integer or string. */
  datatype ArrayKey = IntKey(i: int) | StrKey(s: Bytes)

  /**
    The key $cart[$v] uses: null becomes "", false and true become 0 and 1, an
    integer stays itself, a string that is the canonical numeral of a 64-bit
    integer becomes that integer and any other string stays a string. An array
    is an illegal offset (None: PHP 8 throws a TypeError).
  */
  function ArrayKeyOf(v: JsonValue): (r: Option<ArrayKey>)
    ensures r.None? <==> v.JArray?
    ensures v.JString? ==> r == Some(if IntegerKey(v.s).Some? then IntKey(IntegerKey(v.s).value) else StrKey(v.s))
  {
    match v
    case JNull => Some(StrKey([]))
    case JBool(b) => Some(IntKey(if b then 1 else 0))
    case JInt(i) => Some(IntKey(i))
    case JString(s) =>
      var k := IntegerKey(s);
      Some(if k.Some? then IntKey(k.value) else StrKey(s))
    case JArray(_) => None
  }

  /** (string)$i is empty() exactly when i is 0, as the integer itself is. */
  lemma DecimalStringEmpty(i: int)
    ensures EmptyString(DecimalString(i)) <==> i == 0
  {
    if i > 0 {
      assert DigitsValue(DecimalString(i)) == i;
    } else if i < 0 {
      assert DecimalString(i)[0] == MINUS;
    }
  }

  /** The integer i and the string (string)$i address the same array entry. */
  lemma NumericStringSameKey(i: int)
    requires INT_MIN <= i <= INT_MAX
    ensures ArrayKeyOf(JString(DecimalString(i))) == ArrayKeyOf(JInt(i))
  {
    IntegerKeyOfDecimalString(i);
  }
}
