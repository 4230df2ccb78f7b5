/**
  The token codec of the plugin (class JwtManager): compact serialization of a
  JSON Web Signature (section 7.1 of RFC 7515) with the HS256 algorithm (section
  3.2 of RFC 7518) and base64url framing without padding (section 5 of RFC 4648).

  A token is three '.'-separated segments: base64url of a fixed JSON header,
  base64url of the payload string, and base64url of the HMAC-SHA256 of the text
  "segment1.segment2" under the secret key.
*/
module Jwt {
  import opened Wrappers
  import opened PhpStrings
  import Base64

  /** A raw HMAC-SHA256 digest. */
  type Digest = d: Bytes | |d| == 32 witness seq(32, _ => 0)

  /** hash_hmac('sha256', $msg, $key, true), as a function of (key, msg); its internals are not modelled. */
  type Mac = (Bytes, Bytes) -> Digest

  /** A JwtManager object: its secret key is set once by the constructor and never changes. */
  datatype JwtManager = JwtManager(secretKey: Bytes, hmac: Mac)

  /** The argument of base64UrlEncode: a PHP string, or any value that is not a string. */
  datatype PhpValue = Str(bytes: Bytes) | NonString

  /** What validateToken and decodeToken give for a token: a value, or too few segments. */
  datatype Checked<+T> = Ok(value: T) | Malformed

  /** The characters of the base64url alphabet: A-Z, a-z, 0-9, '-' and '_'. */
  predicate IsUrlChar(c: Byte)
  {
    65 <= c <= 90 || 97 <= c <= 122 || 48 <= c <= 57 || c == 45 || c == 95
  }

  ghost predicate IsUrlText(s: Bytes)
  {
    forall i :: 0 <= i < |s| ==> IsUrlChar(s[i])
  }

  /** '+' and '/' of the standard alphabet, and their base64url replacements '-' and '_'. */
  const STANDARD_EXTRA: Bytes := [43, 47]
  const URL_EXTRA: Bytes := [45, 95]

  const QUOTE: Byte := 34        // '"'
  const COMMA: Byte := 44        // ','
  const COLON: Byte := 58        // ':'
  const OPEN_BRACE: Byte := 123  // '{'
  const CLOSE_BRACE: Byte := 125 // '}'

  /** PHP's string conversion of a string-or-false: false concatenates as the empty string. */
  function OrEmpty(v: Option<Bytes>): Bytes
  {
    if v.Some? then v.value else []
  }

  // ---------------------------------------------------------------- base64url

  /**
    base64UrlEncode: base64 of a string with '+' and '/' swapped for '-' and '_'
    and the trailing '=' removed; false (None) for any value that is not a string.
  */
  function Base64UrlEncode(data: PhpValue): (r: Option<Bytes>)
    ensures r.Some? <==> data.Str?
    ensures r.Some? ==> IsUrlText(r.value)
    ensures r.Some? ==> |r.value| == (4 * |data.bytes| + 2) / 3
  {
    if data.Str? then
      var base64 := Base64.Base64Encode(data.bytes);
      var base64Url := Strtr(base64, STANDARD_EXTRA, URL_EXTRA);
      UrlEncodeShape(data.bytes);
      Some(RTrim(base64Url, EQUALS))
    else
      None
  }

  /**
    base64UrlDecode: swaps '-' and '_' back, pads to strlen % 4 bytes (which
    never adds anything) and base64-decodes. The result is therefore exactly the
    base64 decoding of the swapped string.
  */
  function Base64UrlDecode(data: Bytes): (r: Bytes)
    ensures r == Base64.Base64Decode(Strtr(data, URL_EXTRA, STANDARD_EXTRA))
  {
    var base64 := Strtr(data, URL_EXTRA, STANDARD_EXTRA);
    var base64Padded := StrPadRight(base64, |base64| % 4, EQUALS);
    Base64.Base64Decode(base64Padded)
  }

  /** strtr($s, '+/', '-_') on one byte. */
  lemma ToUrlByte(c: Byte)
    ensures TranslateByte(c, STANDARD_EXTRA, URL_EXTRA) == if c == 43 then 45 else if c == 47 then 95 else c
  {
    assert STANDARD_EXTRA[..1] == [43] && URL_EXTRA[..1] == [45];
    assert [43][..0] == [];
  }

  /** strtr($s, '-_', '+/') on one byte. */
  lemma FromUrlByte(c: Byte)
    ensures TranslateByte(c, URL_EXTRA, STANDARD_EXTRA) == if c == 45 then 43 else if c == 95 then 47 else c
  {
    assert URL_EXTRA[..1] == [45] && STANDARD_EXTRA[..1] == [43];
    assert [45][..0] == [];
  }

  /** After the swap, the base64 text is url-safe up to its padding, and rtrim removes exactly the padding. */
  lemma UrlEncodeShape(s: Bytes)
    ensures var body := (4 * |s| + 2) / 3;
      var swapped := Strtr(Base64.Base64Encode(s), STANDARD_EXTRA, URL_EXTRA);
      && RTrim(swapped, EQUALS) == swapped[..body]
      && IsUrlText(swapped[..body])
  {
    var body := (4 * |s| + 2) / 3;
    var base64 := Base64.Base64Encode(s);
    var swapped := Strtr(base64, STANDARD_EXTRA, URL_EXTRA);
    forall i | 0 <= i < body
      ensures IsUrlChar(swapped[i])
    {
      assert Base64.AlphabetValue(base64[i]) >= 0;
      ToUrlByte(base64[i]);
    }
    forall i | body <= i < |swapped|
      ensures swapped[i] == EQUALS
    {
      assert base64[i] == EQUALS;
      ToUrlByte(base64[i]);
    }
    RTrimPadding(swapped, body);
  }

  /** rtrim of a text whose tail from n on is all '=' and whose byte before n is not, is the text up to n. */
  lemma {:induction false} RTrimPadding(t: Bytes, n: nat)
    requires n <= |t|
    requires forall i :: n <= i < |t| ==> t[i] == EQUALS
    requires forall i :: 0 <= i < n ==> t[i] != EQUALS
    ensures RTrim(t, EQUALS) == t[..n]
    decreases |t|
  {
    if |t| > n {
      RTrimPadding(t[..|t| - 1], n);
      assert t[..|t| - 1][..n] == t[..n];
    } else {
      assert t[..n] == t;
    }
  }

  /** Swapping back recovers the standard base64 text of s, padding aside. */
  lemma SwapBack(s: Bytes)
    ensures var body := (4 * |s| + 2) / 3;
      var base64 := Base64.Base64Encode(s);
      Strtr(Strtr(base64, STANDARD_EXTRA, URL_EXTRA)[..body], URL_EXTRA, STANDARD_EXTRA) == base64[..body]
  {
    var body := (4 * |s| + 2) / 3;
    var base64 := Base64.Base64Encode(s);
    var back := Strtr(Strtr(base64, STANDARD_EXTRA, URL_EXTRA)[..body], URL_EXTRA, STANDARD_EXTRA);
    forall i | 0 <= i < body
      ensures back[i] == base64[i]
    {
      assert Base64.AlphabetValue(base64[i]) >= 0;
      ToUrlByte(base64[i]);
      FromUrlByte(TranslateByte(base64[i], STANDARD_EXTRA, URL_EXTRA));
    }
  }

  /** The padding of base64_encode carries no data: decoding the text without it gives s back. */
  lemma DecodeWithoutPadding(s: Bytes)
    ensures var base64 := Base64.Base64Encode(s);
      Base64.Base64Decode(base64[..(4 * |s| + 2) / 3]) == s
  {
    var body := (4 * |s| + 2) / 3;
    var vs := Base64.Sextets(s);
    var base64 := Base64.Base64Encode(s);
    assert base64[..body] == Base64.Chars(vs);
    Base64.DecodableSextetsOfChars(vs);
    Base64.UnsextetsSextets(s);
  }

  /** base64UrlDecode(base64UrlEncode($s)) === $s for every string s. */
  lemma UrlRoundTrip(s: Bytes)
    ensures Base64UrlDecode(OrEmpty(Base64UrlEncode(Str(s)))) == s
  {
    var body := (4 * |s| + 2) / 3;
    var base64 := Base64.Base64Encode(s);
    var swapped := Strtr(base64, STANDARD_EXTRA, URL_EXTRA);
    UrlEncodeShape(s);
    assert OrEmpty(Base64UrlEncode(Str(s))) == swapped[..body];
    SwapBack(s);
    DecodeWithoutPadding(s);
  }

  // ---------------------------------------------------------------- tokens

  /** "key":"value", as json_encode writes a string member of an object. */
  function JsonStringMember(key: Bytes, value: Bytes): Bytes
  {
    [QUOTE] + key + [QUOTE, COLON, QUOTE] + value + [QUOTE]
  }

  /** json_encode(['alg' => 'HS256', 'typ' => 'JWT']): {"alg":"HS256","typ":"JWT"}. */
  const HEADER_JSON: Bytes :=
    [OPEN_BRACE] + JsonStringMember(Ascii("alg"), Ascii("HS256")) + [COMMA]
    + JsonStringMember(Ascii("typ"), Ascii("JWT")) + [CLOSE_BRACE]

  /** What base64UrlEncode($v) contributes to a concatenation: its text, or "" for false. */
  function Segment(v: PhpValue): (seg: Bytes)
    ensures IsUrlText(seg)
    ensures v.NonString? ==> seg == []
  {
    OrEmpty(Base64UrlEncode(v))
  }

  /** The first segment of every token: base64url of the fixed header. */
  function HeaderSegment(): Bytes
  {
    Segment(Str(HEADER_JSON))
  }

  /** The third segment for given first two segments: base64url of their HMAC under the secret key. */
  function SignatureSegment(jwt: JwtManager, headerSeg: Bytes, payloadSeg: Bytes): (r: Bytes)
    ensures |r| == 43 && IsUrlText(r)
  {
    var signature := jwt.hmac(jwt.secretKey, headerSeg + [DOT] + payloadSeg);
    Segment(Str(signature))
  }

  /** A url-safe text never contains the separator '.'. */
  lemma UrlTextHasNoDot(s: Bytes)
    requires IsUrlText(s)
    ensures DOT !in s
  {
    forall i | 0 <= i < |s|
      ensures s[i] != DOT
    {
      assert IsUrlChar(s[i]);
    }
  }

  /**
    generateToken($payload): header, payload and signature segments joined by '.'.
    A payload that is not a string encodes to false, which concatenates as "".
    The token has exactly three segments, and every byte is url-safe or '.'.
  */
  function GenerateToken(jwt: JwtManager, payload: PhpValue): (token: Bytes)
    ensures var parts := Explode(token, DOT);
      && |parts| == 3
      && parts[0] == HeaderSegment()
      && parts[1] == Segment(payload)
      && parts[2] == SignatureSegment(jwt, parts[0], parts[1])
  {
    var header := HeaderSegment();
    var body := Segment(payload);
    var signature := SignatureSegment(jwt, header, body);
    TokenSegments(header, body, signature);
    header + [DOT] + body + [DOT] + signature
  }

  /** The bytes a token may contain: the base64url alphabet and the separator. */
  ghost predicate IsTokenText(s: Bytes)
  {
    forall i :: 0 <= i < |s| ==> IsUrlChar(s[i]) || s[i] == DOT
  }

  lemma TokenTextAppend(a: Bytes, b: Bytes)
    requires IsTokenText(a) && IsTokenText(b)
    ensures IsTokenText(a + b)
  {
    forall i | 0 <= i < |a + b|
      ensures IsUrlChar((a + b)[i]) || (a + b)[i] == DOT
    {
      if i < |a| {
        assert (a + b)[i] == a[i];
      } else {
        assert (a + b)[i] == b[i - |a|];
      }
    }
  }

  /** Every byte of a generated token is a base64url character or '.'. */
  lemma TokenAlphabet(jwt: JwtManager, payload: PhpValue)
    ensures IsTokenText(GenerateToken(jwt, payload))
  {
    var header := HeaderSegment();
    var body := Segment(payload);
    JoinedSegmentsAreTokenText(header, body, SignatureSegment(jwt, header, body));
  }

  /** Three url-safe segments joined by '.' form a token text. */
  lemma JoinedSegmentsAreTokenText(a: Bytes, b: Bytes, c: Bytes)
    requires IsUrlText(a) && IsUrlText(b) && IsUrlText(c)
    ensures IsTokenText(a + [DOT] + b + [DOT] + c)
  {
    assert IsTokenText([DOT]);
    assert IsTokenText(a) && IsTokenText(b) && IsTokenText(c);
    TokenTextAppend(a, [DOT]);
    TokenTextAppend(a + [DOT], b);
    TokenTextAppend(a + [DOT] + b, [DOT]);
    TokenTextAppend(a + [DOT] + b + [DOT], c);
  }

  /** A text built from three url-safe segments explodes back into them. */
  lemma TokenSegments(a: Bytes, b: Bytes, c: Bytes)
    requires IsUrlText(a) && IsUrlText(b) && IsUrlText(c)
    ensures Explode(a + [DOT] + b + [DOT] + c, DOT) == [a, b, c]
  {
    UrlTextHasNoDot(a);
    UrlTextHasNoDot(b);
    UrlTextHasNoDot(c);
    ExplodeThree(a, b, c, DOT);
  }

  /**
    validateToken($token): recomputes the HMAC of the first two segments exactly
    as they appear and compares it with the decoded third segment (hash_equals,
    modelled as byte equality). Segments after the third are ignored. A token
    with fewer than three segments is Malformed.
  */
  function ValidateToken(jwt: JwtManager, token: Bytes): (r: Checked<bool>)
    ensures r.Malformed? <==> |Explode(token, DOT)| < 3
    ensures r == Ok(true) <==>
      var parts := Explode(token, DOT);
      |parts| >= 3 && Base64UrlDecode(parts[2]) == jwt.hmac(jwt.secretKey, parts[0] + [DOT] + parts[1])
    ensures r == Ok(true) ==> |Base64UrlDecode(Explode(token, DOT)[2])| == 32
  {
    var parts := Explode(token, DOT);
    if |parts| < 3 then Malformed
    else
      var signature := Base64UrlDecode(parts[2]);
      var expectedSignature := jwt.hmac(jwt.secretKey, parts[0] + [DOT] + parts[1]);
      Ok(signature == expectedSignature)
  }

  /**
    decodeToken($token) before its json_decode: the base64url decoding of the
    middle segment, with no signature check. Only the second segment is read, so
    only a token without any '.' is Malformed.
  */
  function DecodeToken(token: Bytes): (r: Checked<Bytes>)
    ensures r.Malformed? <==> DOT !in token
    ensures DOT in token ==> r == Ok(Base64UrlDecode(Explode(token, DOT)[1]))
  {
    var parts := Explode(token, DOT);
    if |parts| < 2 then Malformed
    else Ok(Base64UrlDecode(parts[1]))
  }

  /**
    Any two first segments without a '.', followed by the base64url of their
    HMAC, validate: the first two segments are signed as they stand, whether or not
    they are a canonical encoding of anything.
  */
  lemma SignedSegmentsValidate(jwt: JwtManager, headerSeg: Bytes, payloadSeg: Bytes)
    requires DOT !in headerSeg && DOT !in payloadSeg
    ensures ValidateToken(jwt, headerSeg + [DOT] + payloadSeg + [DOT] + SignatureSegment(jwt, headerSeg, payloadSeg)) == Ok(true)
  {
    var signature := SignatureSegment(jwt, headerSeg, payloadSeg);
    UrlTextHasNoDot(signature);
    ExplodeThree(headerSeg, payloadSeg, signature, DOT);
    UrlRoundTrip(jwt.hmac(jwt.secretKey, headerSeg + [DOT] + payloadSeg));
  }

  /** validateToken(generateToken($p)) is true for every payload, under the same secret. */
  lemma GenerateThenValidate(jwt: JwtManager, payload: PhpValue)
    ensures ValidateToken(jwt, GenerateToken(jwt, payload)) == Ok(true)
  {
    var header := HeaderSegment();
    var body := Segment(payload);
    UrlTextHasNoDot(header);
    UrlTextHasNoDot(body);
    SignedSegmentsValidate(jwt, header, body);
  }

  /** Segments after the third do not change the verdict of validateToken. */
  lemma ExtraSegmentsIgnored(jwt: JwtManager, a: Bytes, b: Bytes, c: Bytes, extra: Bytes)
    requires DOT !in a && DOT !in b && DOT !in c
    ensures ValidateToken(jwt, a + [DOT] + b + [DOT] + c + [DOT] + extra)
         == ValidateToken(jwt, a + [DOT] + b + [DOT] + c)
  {
    ExplodeThree(a, b, c, DOT);
    ExplodeThreeThenRest(a, b, c, extra, DOT);
    var parts := Explode(a + [DOT] + b + [DOT] + c + [DOT] + extra, DOT);
    assert parts == [a, b, c] + Explode(extra, DOT);
    assert parts[0] == a && parts[1] == b && parts[2] == c;
  }

  /**
    The signature text is not compared character by character: base64_decode
    skips '=' like every byte outside the alphabet, so '=' appended to the
    third segment leaves the verdict unchanged.
  */
  lemma PaddedSignatureSameVerdict(jwt: JwtManager, a: Bytes, b: Bytes, c: Bytes)
    requires DOT !in a && DOT !in b && DOT !in c
    ensures ValidateToken(jwt, a + [DOT] + b + [DOT] + c + [EQUALS])
         == ValidateToken(jwt, a + [DOT] + b + [DOT] + c)
  {
    ExplodeThree(a, b, c, DOT);
    ExplodeThree(a, b, c + [EQUALS], DOT);
    assert a + [DOT] + b + [DOT] + c + [EQUALS] == a + [DOT] + b + [DOT] + (c + [EQUALS]);
    DecodeSkipsEquals(c);
  }

  lemma DecodeSkipsEquals(c: Bytes)
    ensures Base64UrlDecode(c + [EQUALS]) == Base64UrlDecode(c)
  {
    var t := Strtr(c, URL_EXTRA, STANDARD_EXTRA);
    FromUrlByte(EQUALS);
    assert Strtr(c + [EQUALS], URL_EXTRA, STANDARD_EXTRA) == t + [EQUALS];
    Base64.DecodableSextetsAppend(t, [EQUALS]);
    assert Base64.AlphabetValue(EQUALS) < 0;
    assert Base64.DecodableSextets([EQUALS]) == [];
    assert Base64.DecodableSextets(t + [EQUALS]) == Base64.DecodableSextets(t);
  }

  /** A generated token with '=' appended is a different text that still validates. */
  lemma PaddedTokenValidates(jwt: JwtManager, payload: PhpValue)
    ensures GenerateToken(jwt, payload) + [EQUALS] != GenerateToken(jwt, payload)
    ensures ValidateToken(jwt, GenerateToken(jwt, payload) + [EQUALS]) == Ok(true)
  {
    var header := HeaderSegment();
    var body := Segment(payload);
    var signature := SignatureSegment(jwt, header, body);
    UrlTextHasNoDot(header);
    UrlTextHasNoDot(body);
    UrlTextHasNoDot(signature);
    SignedSegmentsValidate(jwt, header, body);
    PaddedSignatureSameVerdict(jwt, header, body, signature);
  }

  /**
    decodeToken does not look at the signature: a middle segment that is the
    base64url of p decodes to p whatever the first and last segments are.
  */
  lemma DecodeIgnoresSignature(headerSeg: Bytes, p: Bytes, rest: Bytes)
    requires DOT !in headerSeg
    ensures DecodeToken(headerSeg + [DOT] + Segment(Str(p)) + [DOT] + rest) == Ok(p)
  {
    var body := Segment(Str(p));
    var tail := body + [DOT] + rest;
    var token := headerSeg + [DOT] + tail;
    assert headerSeg + [DOT] + body + [DOT] + rest == token;
    assert Explode(token, DOT)[1] == body by {
      UrlTextHasNoDot(body);
      assert Explode(tail, DOT) == [body] + Explode(rest, DOT) by { ExplodeAfter(body, rest, DOT); }
      assert Explode(token, DOT) == [headerSeg] + Explode(tail, DOT) by { ExplodeAfter(headerSeg, tail, DOT); }
    }
    assert Base64UrlDecode(body) == p by {
      UrlRoundTrip(p);
    }
  }

  /** decodeToken(generateToken($p)) recovers p, before JSON decoding. */
  lemma GenerateThenDecode(jwt: JwtManager, p: Bytes)
    ensures DecodeToken(GenerateToken(jwt, Str(p))) == Ok(p)
  {
    var header := HeaderSegment();
    UrlTextHasNoDot(header);
    DecodeIgnoresSignature(header, p, SignatureSegment(jwt, header, Segment(Str(p))));
  }
}
