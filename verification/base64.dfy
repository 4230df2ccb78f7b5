/**
  PHP's base64_encode and (non-strict) base64_decode, over the standard alphabet
  of section 4 of RFC 4648.

  base64_encode emits four alphabet characters per three input bytes; a final
  group of one or two bytes is filled with zero bits and followed by "==" or "=".

  The non-strict base64_decode never fails: it skips every byte that is not an
  alphabet character ('=' included), takes the remaining characters four at a
  time into three bytes, and turns a final group of three characters into two
  bytes, of two characters into one byte and of one character into nothing.
*/
module Base64 {
  import opened PhpStrings

  /** The character that stands for the 6-bit value v. */
  function AlphabetChar(v: int): (c: Byte)
    requires 0 <= v < 64
  {
    if v < 26 then 65 + v             // 'A' .. 'Z'
    else if v < 52 then 97 + (v - 26) // 'a' .. 'z'
    else if v < 62 then 48 + (v - 52) // '0' .. '9'
    else if v == 62 then 43           // '+'
    else 47                           // '/'
  }

  /** The 6-bit value of an alphabet character, or -1 for any other byte. */
  function AlphabetValue(c: Byte): (v: int)
    ensures -1 <= v < 64
    ensures v >= 0 ==> AlphabetChar(v) == c
  {
    if 65 <= c <= 90 then c - 65
    else if 97 <= c <= 122 then c - 71
    else if 48 <= c <= 57 then c + 4
    else if c == 43 then 62
    else if c == 47 then 63
    else -1
  }

  lemma AlphabetValueOfChar(v: int)
    requires 0 <= v < 64
    ensures AlphabetValue(AlphabetChar(v)) == v
  {
  }

  /** All values in a sequence are 6-bit values. */
  ghost predicate AllSextets(vs: seq<int>)
  {
    forall i :: 0 <= i < |vs| ==> 0 <= vs[i] < 64
  }

  /**
    The 6-bit groups of s, most significant bits first; a final partial group
    is filled with zero bits. Three bytes give four groups.
  */
  function Sextets(s: Bytes): (vs: seq<int>)
    ensures |vs| == (4 * |s| + 2) / 3
    ensures AllSextets(vs)
    decreases |s|
  {
    if |s| == 0 then []
    else if |s| == 1 then [s[0] / 4, (s[0] % 4) * 16]
    else if |s| == 2 then [s[0] / 4, (s[0] % 4) * 16 + s[1] / 16, (s[1] % 16) * 4]
    else [s[0] / 4, (s[0] % 4) * 16 + s[1] / 16, (s[1] % 16) * 4 + s[2] / 64, s[2] % 64]
         + Sextets(s[3..])
  }

  /** The alphabet characters for a sequence of 6-bit values. */
  function Chars(vs: seq<int>): (t: Bytes)
    requires AllSextets(vs)
    ensures |t| == |vs|
    ensures forall i :: 0 <= i < |t| ==> AlphabetValue(t[i]) == vs[i]
  {
    if |vs| == 0 then []
    else
      AlphabetValueOfChar(vs[0]);
      [AlphabetChar(vs[0])] + Chars(vs[1..])
  }

  /** n padding characters '='. */
  function Padding(n: nat): Bytes
  {
    seq(n, _ => EQUALS)
  }

  /**
    base64_encode($s). The output is a whole number of four-character groups;
    every byte before the padding is an alphabet character, and the padding is
    at most two '=' at the end.
  */
  function Base64Encode(s: Bytes): (r: Bytes)
    ensures |r| == 4 * ((|s| + 2) / 3)
    ensures var body := (4 * |s| + 2) / 3;
      && (forall i :: 0 <= i < body ==> AlphabetValue(r[i]) >= 0)
      && (forall i :: body <= i < |r| ==> r[i] == EQUALS)
      && |r| - body <= 2
  {
    Chars(Sextets(s)) + Padding((3 - |s| % 3) % 3)
  }

  /** The 6-bit values of the alphabet characters of t, in order; every other byte is skipped. */
  function DecodableSextets(t: Bytes): (vs: seq<int>)
    ensures AllSextets(vs)
    ensures |vs| <= |t|
  {
    if |t| == 0 then []
    else
      var v := AlphabetValue(t[0]);
      (if v >= 0 then [v] else []) + DecodableSextets(t[1..])
  }

  /**
    The bytes a run of 6-bit values stands for: four values give three bytes, and
    a final run of three, two or one values gives two, one or no bytes.
  */
  function Unsextets(vs: seq<int>): (s: Bytes)
    requires AllSextets(vs)
    ensures |s| == 3 * |vs| / 4
  {
    if |vs| >= 4 then
      [vs[0] * 4 + vs[1] / 16, (vs[1] % 16) * 16 + vs[2] / 4, (vs[2] % 4) * 64 + vs[3]]
      + Unsextets(vs[4..])
    else if |vs| == 3 then [vs[0] * 4 + vs[1] / 16, (vs[1] % 16) * 16 + vs[2] / 4]
    else if |vs| == 2 then [vs[0] * 4 + vs[1] / 16]
    else []
  }

  /** base64_decode($t) without the strict flag. */
  function Base64Decode(t: Bytes): (s: Bytes)
    ensures |s| <= 3 * |t| / 4
  {
    Unsextets(DecodableSextets(t))
  }

  // ---------------------------------------------------------------- round trip

  lemma {:induction false} DecodableSextetsAppend(a: Bytes, b: Bytes)
    ensures DecodableSextets(a + b) == DecodableSextets(a) + DecodableSextets(b)
    decreases |a|
  {
    if |a| > 0 {
      assert (a + b)[0] == a[0];
      assert (a + b)[1..] == a[1..] + b;
      DecodableSextetsAppend(a[1..], b);
    } else {
      assert a + b == b;
    }
  }

  lemma {:induction false} DecodableSextetsOfChars(vs: seq<int>)
    requires AllSextets(vs)
    ensures DecodableSextets(Chars(vs)) == vs
    decreases |vs|
  {
    if |vs| > 0 {
      var t := Chars(vs);
      assert t[1..] == Chars(vs[1..]);
      DecodableSextetsOfChars(vs[1..]);
    }
  }

  lemma {:induction false} DecodableSextetsOfPadding(n: nat)
    ensures DecodableSextets(Padding(n)) == []
    decreases n
  {
    if n > 0 {
      assert Padding(n)[1..] == Padding(n - 1);
      DecodableSextetsOfPadding(n - 1);
    }
  }

  /** Regrouping the 6-bit groups of s gives s back. */
  lemma {:induction false} UnsextetsSextets(s: Bytes)
    ensures Unsextets(Sextets(s)) == s
    decreases |s|
  {
    if |s| >= 3 {
      var vs := Sextets(s);
      var b0, b1, b2 := s[0], s[1], s[2];
      assert vs[..4] == [b0 / 4, (b0 % 4) * 16 + b1 / 16, (b1 % 16) * 4 + b2 / 64, b2 % 64];
      assert vs[4..] == Sextets(s[3..]);
      assert ((b0 % 4) * 16 + b1 / 16) / 16 == b0 % 4;
      assert ((b0 % 4) * 16 + b1 / 16) % 16 == b1 / 16;
      assert ((b1 % 16) * 4 + b2 / 64) / 4 == b1 % 16;
      assert ((b1 % 16) * 4 + b2 / 64) % 4 == b2 / 64;
      UnsextetsSextets(s[3..]);
      assert s == [b0, b1, b2] + s[3..];
    } else if |s| == 2 {
      var b0, b1 := s[0], s[1];
      assert ((b0 % 4) * 16 + b1 / 16) / 16 == b0 % 4;
      assert ((b0 % 4) * 16 + b1 / 16) % 16 == b1 / 16;
    }
  }

  /** base64_decode(base64_encode($s)) === $s for every string s. */
  lemma DecodeEncode(s: Bytes)
    ensures Base64Decode(Base64Encode(s)) == s
  {
    var vs := Sextets(s);
    DecodableSextetsAppend(Chars(vs), Padding((3 - |s| % 3) % 3));
    DecodableSextetsOfChars(vs);
    DecodableSextetsOfPadding((3 - |s| % 3) % 3);
    assert DecodableSextets(Base64Encode(s)) == vs;
    UnsextetsSextets(s);
  }
}
