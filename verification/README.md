# HeadlessWoo token and request model

HeadlessWoo is a WordPress plugin that puts a small REST API in front of a
WooCommerce shop for a mobile app. A client logs in with a username and a
password and receives a JWT-like bearer token. It sends that token in the
`Authorization` header of every protected route. The plugin also keeps a
per-user cart in WordPress user meta.

This project models two parts of it.

- **The token codec** (`JwtManager`), in `jwt_manager.dfy`. It covers
  base64url encoding and decoding, token generation, signature validation and
  payload decoding. The token layout is the compact serialization of a JSON
  Web Signature (section 7.1 of RFC 7515) with HS256 (section 3.2 of RFC 7518).
  Base64url framing has no padding (section 5 of RFC 4648). PHP's
  `base64_encode` and its non-strict `base64_decode` are modelled in
  `base64.dfy`. The string built-ins the codec uses are modelled in
  `php_strings.dfy`: `strtr`, `rtrim`, `str_pad`, `explode` and `str_replace`.
- **The request policy of the controller** (`HeadlessWoo`), in
  `headless_woo.dfy`:
  - the bearer-token gate `validateRequest`;
  - the field checks of login and registration, and the claims and token
    that login issues;
  - the cart update of `addToCart`;
  - the two user-meta entries the controller writes, the issued token and the
    cart. They are fields of the class `Controller`. `HandleLogin`,
    `HandleLogout` and `AddToCart` update them; `GetCart` only reads the cart.

  `php_values.dfy` models two pieces of PHP behaviour the controller relies
  on:
  - which decoded JSON values count as `empty()`;
  - how PHP turns a value into an array key. Decimal strings such as `"42"`
    become the integer key `42`.

Bytes are integers in `0..255`, and PHP strings are sequences of them.
HMAC-SHA256 is a function field of the `JwtManager` value. It maps a key and a
message to 32 bytes, and its internals are not modelled. The following are
parameters of the model rather than modelled code:
- WordPress authentication (`wp_authenticate`);
- user creation (`wp_create_user`, with its sanitizers);
- `json_encode` of the login claims;
- the JSON decoding of a token payload up to its `user_id`;
- the clock values `time()` and `current_time('mysql')`.

What the model establishes:
- base64url encoding round-trips through decoding.
- A generated token has exactly three segments: the fixed header, the payload
  and the signature. Every byte is base64url or `.`.
- Every generated token validates under the same secret, and its payload
  decodes back.
- Validation accepts exactly the tokens whose third segment decodes to the
  HMAC of the first two as they stand, and it ignores later segments. The
  signature text is therefore malleable: a `=` appended to a valid token
  gives another valid token. Decoding never looks at the signature.
- The gate:
  - rejects a missing or `empty()` header with `auth_required`;
  - otherwise, passes exactly when the header, with every `"Bearer "`
    removed, validates;
  - passes a login token at any later time, because the `exp` claim is never
    read.
- Login and registration refuse `empty()` fields before any user lookup.
- `addToCart` sets exactly one cart line. It replaces an earlier line for the
  same product, and the number `i` and the string `"i"` address the same line.

## Model

| member | source | states |
|---|---|---|
| PhpStrings.RTrim | Auth/JwtManager.php:13 | `rtrim($s, '=')` gives a prefix of `s` that does not end in the trimmed byte; every removed byte is that byte |
| PhpStrings.StrPadRight | Auth/JwtManager.php:21 | `str_pad` right-pads with the pad byte up to the target length and never shortens |
| PhpStrings.Explode | Auth/JwtManager.php:37 | `explode` yields at least one part and more than one exactly when the delimiter occurs; no part contains the delimiter |
| PhpStrings.ExplodeAfter | Auth/JwtManager.php:45 | a delimiter-free first piece followed by the delimiter is split off as the first part |
| PhpStrings.ExplodeThree | Auth/JwtManager.php:33-37 | three delimiter-free pieces joined by `.` explode back into exactly those three |
| PhpStrings.ExplodeThreeThenRest | Auth/JwtManager.php:37 | after three delimiter-free pieces, whatever follows the third delimiter only adds further parts |
| PhpStrings.ExplodeImplode | Auth/JwtManager.php:33-37 | exploding the join of delimiter-free parts gives the parts back |
| PhpStrings.ImplodeExplode | Auth/JwtManager.php:33-37 | joining the parts of `explode` with the delimiter gives the original string back |
| PhpStrings.StrReplaceAround | headlesswoo.php:76 | for a search string that cannot overlap itself, `str_replace` replaces an occurrence wherever it stands: the text before it and the text after it are processed independently |
| PhpStrings.StrReplaceWithoutOccurrence | headlesswoo.php:76 | a string lacking the last byte of the search string is returned unchanged by `str_replace` |
| Base64.Base64Encode | Auth/JwtManager.php:11 | `base64_encode` output is 4 characters per started 3-byte group: alphabet characters followed by `=` padding |
| Base64.Base64Decode | Auth/JwtManager.php:22 | non-strict `base64_decode` yields at most 3 bytes per 4 input characters |
| Base64.DecodeEncode | Auth/JwtManager.php:11-22 | `base64_decode(base64_encode(s)) == s` for every byte string |
| Jwt.Base64UrlEncode | Auth/JwtManager.php:8-17 | a string encodes to base64url text (no `+`, `/`, `=`) of length ceil(4n/3); a non-string gives `false` |
| Jwt.Base64UrlDecode | Auth/JwtManager.php:18-23 | the `str_pad` to `strlen % 4` adds nothing, so decoding is the base64 decoding of the alphabet-swapped input |
| Jwt.UrlRoundTrip | Auth/JwtManager.php:8-23 | `base64UrlDecode(base64UrlEncode(s)) == s` for every string |
| Jwt.Segment | Auth/JwtManager.php:29-33 | a token segment is base64url text, and a non-string payload contributes the empty segment (`false` concatenates as "") |
| Jwt.SignatureSegment | Auth/JwtManager.php:31-32 | the signature segment is 43 base64url characters, the encoding of a 32-byte HMAC |
| Jwt.UrlTextHasNoDot | Auth/JwtManager.php:12-13 | base64url text never contains `.`, so segments cannot be confused |
| Jwt.GenerateToken | Auth/JwtManager.php:28-34 | a token has exactly three segments: the fixed header, the payload's encoding, and the signature of those two under the secret |
| Jwt.TokenAlphabet | Auth/JwtManager.php:28-34 | every byte of a generated token is a base64url character or `.` |
| Jwt.TokenSegments | Auth/JwtManager.php:33-37 | three base64url segments joined by `.` explode back into those three segments |
| Jwt.ValidateToken | Auth/JwtManager.php:35-41 | fewer than three segments is malformed; the verdict is true exactly when the third segment decodes to the HMAC of the first two as they stand, so an accepted signature is 32 bytes |
| Jwt.DecodeToken | Auth/JwtManager.php:42-48 | only a token without any `.` lacks a middle segment; otherwise the result is the base64url decoding of the second part of `explode` |
| Jwt.SignedSegmentsValidate | Auth/JwtManager.php:35-41 | any two segments without a `.`, followed by the encoding of their HMAC, validate: they are signed as they stand, not re-encoded |
| Jwt.GenerateThenValidate | Auth/JwtManager.php:28-41 | `validateToken(generateToken(p))` is true for every payload under the same secret |
| Jwt.ExtraSegmentsIgnored | Auth/JwtManager.php:37-40 | segments after the third do not change the validation verdict |
| Jwt.DecodeSkipsEquals | Auth/JwtManager.php:38 | a `=` appended to a segment does not change its base64url decoding |
| Jwt.PaddedSignatureSameVerdict | Auth/JwtManager.php:37-40 | a `=` appended to the third segment does not change the validation verdict: the signature text itself is not checked |
| Jwt.PaddedTokenValidates | Auth/JwtManager.php:35-41 | a generated token with `=` appended is a different text that still validates |
| Jwt.DecodeIgnoresSignature | Auth/JwtManager.php:42-47 | a middle segment that encodes `p` decodes to `p`, whatever the first and last segments are |
| Jwt.GenerateThenDecode | Auth/JwtManager.php:28-47 | `decodeToken(generateToken(p))` recovers `p` before JSON decoding |
| PhpValues.IntegerKey | headlesswoo.php:228 | a string is used as an integer key only if it is the canonical decimal of a 64-bit integer, and then of exactly that integer |
| PhpValues.IntegerKeyOfDecimalString | headlesswoo.php:228 | the decimal text of every 64-bit integer is read back as that integer key |
| PhpValues.ArrayKeyOf | headlesswoo.php:228 | only an array is an illegal key; a string becomes an integer key exactly when it is a canonical 64-bit numeral |
| PhpValues.NumericStringSameKey | headlesswoo.php:228 | the integer `i` and the string `"i"` address the same array entry |
| PhpValues.DecimalStringEmpty | headlesswoo.php:220 | the numeral `"i"` is `empty()` exactly when `i` is 0, as the integer `i` is |
| HeadlessWoo.ValidateRequest | headlesswoo.php:70-82 | `auth_required` exactly for a missing or `empty()` header; a pass exactly when the header with every `"Bearer "` removed validates; any other outcome is `invalid_token` |
| HeadlessWoo.StripBearerAround | headlesswoo.php:76 | every occurrence of `"Bearer "` is removed, wherever it stands, not only a leading prefix |
| HeadlessWoo.StripBearerWithoutSpace | headlesswoo.php:76 | a header without a space is used as the token unchanged |
| HeadlessWoo.BearerPrefixOptional | headlesswoo.php:70-82 | a non-empty header gets the same verdict with or without `"Bearer "` in front |
| HeadlessWoo.BearerRemovedFromTokenText | headlesswoo.php:76 | `"Bearer "` inserted anywhere in a token, including in front, is removed again and the token is recovered |
| HeadlessWoo.ValidTokenPasses | headlesswoo.php:76-81 | a valid token text passes the gate with `"Bearer "` put in front of it or anywhere inside it |
| HeadlessWoo.GeneratedTokenPasses | headlesswoo.php:76-81 | every generated token passes the gate, whatever its payload (including an `exp` in the past) |
| HeadlessWoo.DecodedTokenUser | headlesswoo.php:224-225 | with `"Bearer "` in front, the payload a route decodes is the token's own payload |
| HeadlessWoo.TokenNamesItsUser | headlesswoo.php:224-226 | a request carrying a token issued for some claims acts for the user those claims name |
| HeadlessWoo.Login | headlesswoo.php:114-143 | `missing_fields` exactly when username or password is `empty()`; `login_failed` exactly when authentication then returns an error; a fatal error exactly when it throws; 200 exactly when it returns a user, with that user and the token of its claims (id, login, now + 3600) |
| HeadlessWoo.LoginTokenPasses | headlesswoo.php:126-132 | the token issued at login validates and opens every protected route as a bearer token |
| HeadlessWoo.Register | headlesswoo.php:159-177 | `missing_fields` exactly when username, password or email is `empty()`; 201 exactly when the user is then created; a fatal error exactly when it throws; otherwise `registration_failed` with WordPress's message |
| HeadlessWoo.UpdateCart | headlesswoo.php:219-231 | refused exactly when product_id or quantity is `empty()`; a TypeError exactly for an array product_id; otherwise the product's line is the new quantity and time, and every other line is unchanged |
| HeadlessWoo.SecondAddReplacesFirst | headlesswoo.php:228-231 | adding the same product twice keeps only the second line: quantities are replaced, not summed |
| HeadlessWoo.NumericProductIdsShareLine | headlesswoo.php:228 | for every 64-bit `i`, a product id sent as the number `i` or as the string `"i"` has the same outcome: the same cart line, or for 0 the same refusal |
| HeadlessWoo.SetUserMeta | headlesswoo.php:133 | `update_user_meta` stores the value for a real user, refuses user 0 and leaves every other user's value alone |
| HeadlessWoo.DeleteUserMeta | headlesswoo.php:153 | `delete_user_meta` removes one real user's value, refuses user 0 and leaves every other user's value alone |
| HeadlessWoo.LoginStoresIssuedToken | headlesswoo.php:126-142 | when both fields are non-`empty()` and authentication returns a user, the stored tokens become those with the login token of that user's claims (id, login, now + 3600) stored under the user's id; for any other input they are unchanged |
| HeadlessWoo.StoredCartAfterWrite | headlesswoo.php:226-233 | a cart written for a user is read back for that user, and no other user's cart changes |
| HeadlessWoo.Controller.constructor | headlesswoo.php:31-36 | the signing secret is the stored option, or `default_secret` when it is absent |
| HeadlessWoo.Controller.HandleLogin | headlesswoo.php:114-143 | replies as `Login`; the stored tokens become those after that reply (with LoginStoresIssuedToken: the issued token for the user on success, unchanged otherwise); the carts do not change |
| HeadlessWoo.Controller.HandleLogout | headlesswoo.php:145-157 | behind the gate, deletes the stored token of the user the token names and replies 200 |
| HeadlessWoo.Controller.GetCart | headlesswoo.php:204-213 | behind the gate, replies with the stored cart of the token's user, or an empty cart |
| HeadlessWoo.Controller.AddToCart | headlesswoo.php:215-235 | behind the gate, applies `UpdateCart` to the user's stored cart, writes the result back and replies with it; refusals change nothing |

## Left out

- HMAC-SHA256 and SHA-256 internals. The MAC is a function parameter, so
  resistance to tampering with the first two segments, and to a different
  secret, is not stated; those are cryptographic assumptions. The third
  segment needs no such assumption: it is compared only after a non-strict
  decode, so other texts for the same signature bytes are accepted too
  (Jwt.PaddedTokenValidates).
- The constant-time comparison of `hash_equals` (Auth/JwtManager.php:40) is
  modelled as byte equality.
- JSON encoding and decoding. The login claims are encoded by a parameter. A
  token payload is read for `user_id` by a parameter that returns 0 when
  there is none. The fixed header JSON is a constant, and no lemma states its
  base64url text.
- JSON floats and objects. A decoded array keeps only its elements in order,
  which is enough for `empty()` and for array keys.
- Jwt.ValidateToken and Jwt.DecodeToken: a token with too few segments gives
  `Malformed`. PHP instead emits warnings on the short `list()` and returns
  `false`, or decodes an empty segment. The gate treats both the same way, as
  `invalid_token`.
- `wp_authenticate`, `wp_create_user` (with `sanitize_user` and
  `sanitize_email`) and `get_option` are parameters. The first two may return
  a value, return a `WP_Error` or throw. Which inputs make WordPress throw (a
  JSON array where it expects a string, for instance) is the parameter's
  business, because WordPress is not part of this model. The WordPress user-meta
  store is a per-user map of the one key each route uses, and it keeps values
  verbatim. WordPress's `update_metadata` runs `wp_unslash` on the value it
  stores, so a backslash in a cart quantity string is dropped from the stored
  cart, though not from the reply of the same `addToCart`.
- `time()` and `current_time('mysql')` are arguments. The addition
  `time() + 3600` is unbounded, with no 64-bit overflow.
- The JWT expiration setting of the admin page
  (`headlesswoo_field_jwt_expiration`) is never read by the controller. The
  token lifetime is the constant 3600.
- `makeWooRequest` and the proxy routes that only forward to WooCommerce:
  `getProducts`, `getProduct`, `getCategories`, `createOrder` and `getOrders`.
  They are HTTP plumbing.
- `registerRoutes` and the WordPress hooks, including the two routes whose
  callbacks (`verifyToken`, `removeFromCart`) do not exist in the class. Also
  left out: the WooCommerce admin notice, the settings page in
  Admin/headlesswoo_admin.php, and AuthClass.php. The plugin never loads
  AuthClass.php and never creates an `AuthClass`. The file builds a
  `JwtManager` with a fixed secret that nothing uses, and it registers three
  routes: `/login`, `/logout` and `/register`. The class has no `login` or
  `logout` method, and its `register` only dumps the request parameters.
- HeadlessWoo.UpdateCart: PHP 8 or later is assumed, so an array
  `product_id` is a TypeError (`Fatal`). On PHP 7.4, the assignment at
  headlesswoo.php:228 only raises an "Illegal offset type" warning and skips
  the write. `addToCart` then stores the unchanged cart and returns it with
  status 200. The model does not capture that outcome.
- The order of entries in a PHP array. A cart is a map from key to line, so
  the position at which a new line is appended is not kept.
- An expiry check. The code never reads `exp`, and it removes every
  occurrence of `"Bearer "`, not only a leading one. The model follows the
  code (see HeadlessWoo.GeneratedTokenPasses and
  HeadlessWoo.StripBearerAround).
