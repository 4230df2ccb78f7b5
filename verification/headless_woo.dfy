/**
  The request policy of the HeadlessWoo REST controller: the bearer-token gate
  in front of the protected routes, the required-field checks and the token
  issued by login, the field check of registration, and the per-user cart kept
  in WordPress user meta.

  WordPress itself is not modelled. wp_authenticate, wp_create_user (with
  sanitize_user and sanitize_email), json_encode of the login claims and the
  json_decode of a token payload up to its 'user_id' are parameters; the two
  user-meta entries the controller writes ('_headlesswoo_jwt_token' and
  '_headlesswoo_cart') are fields of the controller object; the clock values
  time() and current_time('mysql') are arguments.
*/
module HeadlessWoo {
  import opened Wrappers
  import opened PhpStrings
  import opened PhpValues
  import opened Jwt

  /** A WP_Error: error code, message and HTTP status. */
  datatype WpError = WpError(code: string, message: string, status: int)

  const AUTH_REQUIRED := WpError("auth_required", "Authorization header is required", 401)
  const INVALID_TOKEN := WpError("invalid_token", "Invalid or expired token", 401)
  const MISSING_LOGIN_FIELDS := WpError("missing_fields", "Username and password are required", 400)
  const LOGIN_FAILED := WpError("login_failed", "Invalid credentials", 401)
  const MISSING_REGISTER_FIELDS := WpError("missing_fields", "Required fields are missing", 400)
  const MISSING_CART_FIELDS := WpError("missing_fields", "Product ID and quantity are required", 400)

  /** The prefix clients put before the token in the Authorization header. */
  const BEARER: Bytes := Ascii("Bearer ")

  /** Seconds from login to the 'exp' claim of the token. */
  const TOKEN_LIFETIME: int := 3600

  /** The signing key used when the 'headlesswoo_field_jwt_secret' option is not set. */
  const DEFAULT_SECRET: Bytes := Ascii("default_secret")

  const USERNAME: Bytes := Ascii("username")
  const PASSWORD: Bytes := Ascii("password")
  const EMAIL: Bytes := Ascii("email")
  const PRODUCT_ID: Bytes := Ascii("product_id")
  const QUANTITY: Bytes := Ascii("quantity")

  /** A WordPress user as wp_authenticate returns it. User ids start at 1. */
  datatype User = User(id: nat, login: Bytes, email: Bytes)

  /** The claims of a login token: user id, login name and expiry time. */
  datatype Claims = Claims(userId: nat, username: Bytes, exp: int)

  /**
    What wp_authenticate($username, $password) does: returns the user, returns a
    WP_Error, or throws (a TypeError from WordPress's string handling when a
    field is a JSON array, say).
  */
  datatype Authentication = Authenticated(user: User) | Refused | Threw
  type Authenticator = (JsonValue, JsonValue) -> Authentication

  /** json_encode of the login claims: a string, or false when encoding fails. */
  type ClaimsEncoder = Claims -> PhpValue

  /** json_decode of a token payload followed by reading 'user_id' as WordPress does (absint); 0 when there is none. */
  type UserIdReader = Bytes -> nat

  /**
    wp_create_user on the sanitized username, the password and the sanitized
    e-mail: the new user's id, a WP_Error with its message, or a throw.
  */
  datatype Creation = Created(userId: nat) | CreateFailed(message: string) | CreateThrew
  type UserCreator = (JsonValue, JsonValue, JsonValue) -> Creation

  /** One cart line: the quantity as the client sent it and the time it was added. */
  datatype CartEntry = CartEntry(quantity: JsonValue, addedAt: Bytes)

  /** A cart: product key to cart line. */
  type Cart = map<ArrayKey, CartEntry>

  /** The body of a WP_REST_Response. */
  datatype Body =
    | CartBody(cart: Cart)
    | LoginBody(token: Bytes, user: User)
    | MessageBody(message: string)

  /** What a route callback produces: a response, a WP_Error, or an uncaught PHP error. */
  datatype Reply = Response(status: int, body: Body) | Error(error: WpError) | Fatal

  // ---------------------------------------------------------------- the token gate

  /** The outcome of validateRequest: true, or the WP_Error to return. */
  datatype Gate = Pass | Reject(error: WpError)

  /** str_replace('Bearer ', '', $header): every occurrence is removed, not only a leading one. */
  function StripBearer(header: Bytes): Bytes
  {
    StrReplace(BEARER, [], header)
  }

  /**
    validateRequest: a missing or empty() header is auth_required; otherwise the
    header with every "Bearer " removed must pass validateToken, or the request
    is invalid_token. Nothing else is consulted: no clock, no stored token.
  */
  function ValidateRequest(jwt: JwtManager, header: Option<Bytes>): (r: Gate)
    ensures r == Reject(AUTH_REQUIRED) <==> header.None? || EmptyString(header.value)
    ensures r.Pass? <==>
      header.Some? && !EmptyString(header.value) && ValidateToken(jwt, StripBearer(header.value)) == Ok(true)
    ensures r.Reject? ==> r.error == AUTH_REQUIRED || r.error == INVALID_TOKEN
  {
    if header.None? || EmptyString(header.value) then Reject(AUTH_REQUIRED)
    else if ValidateToken(jwt, StripBearer(header.value)) != Ok(true) then Reject(INVALID_TOKEN)
    else Pass
  }

  /** "Bearer " cannot overlap itself, so an occurrence is removed wherever it stands. */
  lemma StripBearerAround(a: Bytes, b: Bytes)
    ensures StripBearer(a + BEARER + b) == StripBearer(a) + StripBearer(b)
  {
    assert BEARER[6] == SPACE && SPACE !in BEARER[..6];
    StrReplaceAround(BEARER, [], a, b);
  }

  /** A text without a space has no "Bearer " in it and is left unchanged. */
  lemma StripBearerWithoutSpace(s: Bytes)
    requires SPACE !in s
    ensures StripBearer(s) == s
  {
    StrReplaceWithoutOccurrence(BEARER, [], s);
  }

  /** A token text (base64url characters and '.') contains no space. */
  lemma TokenTextHasNoSpace(t: Bytes)
    requires IsTokenText(t)
    ensures SPACE !in t
  {
    forall i | 0 <= i < |t|
      ensures t[i] != SPACE
    {
      assert IsUrlChar(t[i]) || t[i] == DOT;
    }
  }

  /** The "Bearer " prefix is optional: with or without it, a non-empty header gets the same verdict. */
  lemma BearerPrefixOptional(jwt: JwtManager, t: Bytes)
    requires !EmptyString(t)
    ensures ValidateRequest(jwt, Some(BEARER + t)) == ValidateRequest(jwt, Some(t))
  {
    StripBearerAround([], t);
    assert [] + BEARER + t == BEARER + t;
    assert StripBearer([]) == [];
    assert StripBearer(BEARER + t) == StripBearer(t);
    assert !EmptyString(BEARER + t) by {
      assert |BEARER + t| >= 7;
    }
  }

  /** Putting "Bearer " in front of or inside a token text is undone by the gate. */
  lemma BearerRemovedFromTokenText(t: Bytes, k: nat)
    requires IsTokenText(t) && k <= |t|
    ensures StripBearer(t[..k] + BEARER + t[k..]) == t
  {
    var a, b := t[..k], t[k..];
    TokenTextHasNoSpace(t);
    assert t == a + b;
    assert SPACE !in a && SPACE !in b;
    StripBearerAround(a, b);
    StripBearerWithoutSpace(a);
    StripBearerWithoutSpace(b);
  }

  /** "Bearer " inserted at position 0 is "Bearer " in front. */
  lemma BearerInFront(t: Bytes)
    ensures t[..0] + BEARER + t[0..] == BEARER + t
  {
  }

  /** A valid token text passes the gate with "Bearer " put in front of it or anywhere inside it. */
  lemma ValidTokenPasses(jwt: JwtManager, t: Bytes, k: nat)
    requires IsTokenText(t) && ValidateToken(jwt, t) == Ok(true) && k <= |t|
    ensures ValidateRequest(jwt, Some(t[..k] + BEARER + t[k..])) == Pass
  {
    BearerRemovedFromTokenText(t, k);
    assert |t[..k] + BEARER + t[k..]| >= 7;
  }

  /**
    Every generated token passes the gate, with "Bearer " put in front of it or
    anywhere inside it, whatever its payload says, including an 'exp' in the past.
  */
  lemma GeneratedTokenPasses(jwt: JwtManager, payload: PhpValue, k: nat)
    requires k <= |GenerateToken(jwt, payload)|
    ensures var token := GenerateToken(jwt, payload);
      ValidateRequest(jwt, Some(token[..k] + BEARER + token[k..])) == Pass
  {
    TokenAlphabet(jwt, payload);
    GenerateThenValidate(jwt, payload);
    ValidTokenPasses(jwt, GenerateToken(jwt, payload), k);
  }

  /**
    The user a request acts for: the decoded payload of the header's token, read
    for 'user_id'; 0 (no user) when the token has no payload segment.
  */
  function TokenUserId(readUserId: UserIdReader, header: Bytes): nat
  {
    match DecodeToken(StripBearer(header))
    case Ok(payload) => readUserId(payload)
    case Malformed => 0
  }

  /** A request carrying a token issued for some claims acts for the user those claims name. */
  lemma TokenNamesItsUser(jwt: JwtManager, encode: ClaimsEncoder, readUserId: UserIdReader, claims: Claims)
    requires encode(claims).Str? && readUserId(encode(claims).bytes) == claims.userId
    ensures TokenUserId(readUserId, BEARER + GenerateToken(jwt, encode(claims))) == claims.userId
  {
    TokenAlphabet(jwt, encode(claims));
    GenerateThenDecode(jwt, encode(claims).bytes);
    DecodedTokenUser(readUserId, GenerateToken(jwt, encode(claims)), encode(claims).bytes);
  }

  /** With "Bearer " in front, a token text is decoded as it stands. */
  lemma DecodedTokenUser(readUserId: UserIdReader, t: Bytes, payload: Bytes)
    requires IsTokenText(t) && DecodeToken(t) == Ok(payload)
    ensures TokenUserId(readUserId, BEARER + t) == readUserId(payload)
  {
    BearerRemovedFromTokenText(t, 0);
    assert t[..0] + BEARER + t[0..] == BEARER + t;
  }

  // ---------------------------------------------------------------- login and registration

  /**
    handleLogin without its user-meta write: an empty() username or password is
    missing_fields before authentication is tried; a failed authentication is
    login_failed; an exception out of wp_authenticate ends the request;
    otherwise the response carries the user and the token of the
    claims (id, login name, now + 3600), and that token passes validateToken.
  */
  function Login(jwt: JwtManager, data: Params, authenticate: Authenticator, encode: ClaimsEncoder, now: int): (r: Reply)
    ensures r == Error(MISSING_LOGIN_FIELDS) <==> Empty(Field(data, USERNAME)) || Empty(Field(data, PASSWORD))
    ensures r == Error(LOGIN_FAILED) <==>
      !Empty(Field(data, USERNAME)) && !Empty(Field(data, PASSWORD))
      && authenticate(Field(data, USERNAME), Field(data, PASSWORD)).Refused?
    ensures r.Fatal? <==>
      !Empty(Field(data, USERNAME)) && !Empty(Field(data, PASSWORD))
      && authenticate(Field(data, USERNAME), Field(data, PASSWORD)).Threw?
    ensures r.Response? <==>
      !Empty(Field(data, USERNAME)) && !Empty(Field(data, PASSWORD))
      && authenticate(Field(data, USERNAME), Field(data, PASSWORD)).Authenticated?
    ensures r.Response? ==>
      var user := authenticate(Field(data, USERNAME), Field(data, PASSWORD)).user;
      && r.status == 200
      && r.body.LoginBody? && r.body.user == user
      && r.body.token == LoginToken(jwt, encode, user, now)
  {
    var username, password := Field(data, USERNAME), Field(data, PASSWORD);
    if Empty(username) || Empty(password) then Error(MISSING_LOGIN_FIELDS)
    else
      match authenticate(username, password)
      case Refused => Error(LOGIN_FAILED)
      case Threw => Fatal
      case Authenticated(user) => Response(200, LoginBody(LoginToken(jwt, encode, user, now), user))
  }

  /** The token login issues to a user at time now: the claims (id, login name, now + 3600), JSON-encoded and signed. */
  function LoginToken(jwt: JwtManager, encode: ClaimsEncoder, user: User, now: int): Bytes
  {
    GenerateToken(jwt, encode(Claims(user.id, user.login, now + TOKEN_LIFETIME)))
  }

  /**
    The token a login issues validates, and opens every protected route as a
    bearer token, at any later time: the 'exp' claim is never checked.
  */
  lemma LoginTokenPasses(jwt: JwtManager, encode: ClaimsEncoder, user: User, now: int)
    ensures ValidateToken(jwt, LoginToken(jwt, encode, user, now)) == Ok(true)
    ensures ValidateRequest(jwt, Some(BEARER + LoginToken(jwt, encode, user, now))) == Pass
  {
    var payload := encode(Claims(user.id, user.login, now + TOKEN_LIFETIME));
    var token := GenerateToken(jwt, payload);
    GenerateThenValidate(jwt, payload);
    GeneratedTokenPasses(jwt, payload, 0);
    BearerInFront(token);
  }

  /**
    handleRegister: any empty() one of username, password and email is
    missing_fields before any user is created; a failure of wp_create_user is
    registration_failed with WordPress's message; an exception out of
    wp_create_user ends the request; otherwise 201.
  */
  function Register(data: Params, createUser: UserCreator): (r: Reply)
    ensures r == Error(MISSING_REGISTER_FIELDS) <==>
      Empty(Field(data, USERNAME)) || Empty(Field(data, PASSWORD)) || Empty(Field(data, EMAIL))
    ensures r.Response? <==>
      !Empty(Field(data, USERNAME)) && !Empty(Field(data, PASSWORD)) && !Empty(Field(data, EMAIL))
      && createUser(Field(data, USERNAME), Field(data, PASSWORD), Field(data, EMAIL)).Created?
    ensures r.Response? ==> r == Response(201, MessageBody("Registration successful"))
    ensures r.Error? && r != Error(MISSING_REGISTER_FIELDS) ==>
      var created := createUser(Field(data, USERNAME), Field(data, PASSWORD), Field(data, EMAIL));
      created.CreateFailed? && r.error == WpError("registration_failed", created.message, 400)
    ensures r.Fatal? <==>
      !Empty(Field(data, USERNAME)) && !Empty(Field(data, PASSWORD)) && !Empty(Field(data, EMAIL))
      && createUser(Field(data, USERNAME), Field(data, PASSWORD), Field(data, EMAIL)).CreateThrew?
  {
    var username, password, email := Field(data, USERNAME), Field(data, PASSWORD), Field(data, EMAIL);
    if Empty(username) || Empty(password) || Empty(email) then Error(MISSING_REGISTER_FIELDS)
    else
      match createUser(username, password, email)
      case CreateFailed(message) => Error(WpError("registration_failed", message, 400))
      case Created(_) => Response(201, MessageBody("Registration successful"))
      case CreateThrew => Fatal
  }

  // ---------------------------------------------------------------- the cart

  /** What addToCart does to the cart it loaded. */
  datatype CartUpdate = CartFieldsMissing | IllegalOffset | Updated(cart: Cart)

  /**
    The cart step of addToCart: an empty() product_id or quantity is refused
    before the cart is touched; a product_id that cannot be an array key is a
    TypeError; otherwise the line for the product's key is set to the new
    quantity and time, replacing (not adding to) any earlier line, and every
    other line stays as it was. The TypeError is PHP 8 behaviour.
  */
  function UpdateCart(cart: Cart, data: Params, addedAt: Bytes): (r: CartUpdate)
    ensures r == CartFieldsMissing <==> Empty(Field(data, PRODUCT_ID)) || Empty(Field(data, QUANTITY))
    ensures r == IllegalOffset <==>
      !Empty(Field(data, PRODUCT_ID)) && !Empty(Field(data, QUANTITY)) && ArrayKeyOf(Field(data, PRODUCT_ID)).None?
    ensures r.Updated? ==>
      var key := ArrayKeyOf(Field(data, PRODUCT_ID)).value;
      && r.cart.Keys == cart.Keys + {key}
      && r.cart[key] == CartEntry(Field(data, QUANTITY), addedAt)
      && (forall k :: k in cart && k != key ==> r.cart[k] == cart[k])
  {
    var productId, quantity := Field(data, PRODUCT_ID), Field(data, QUANTITY);
    if Empty(productId) || Empty(quantity) then CartFieldsMissing
    else
      match ArrayKeyOf(productId)
      case None => IllegalOffset
      case Some(key) => Updated(cart[key := CartEntry(quantity, addedAt)])
  }

  /** Adding the same product twice keeps only the second line: quantities are replaced, not summed. */
  lemma {:induction false} SecondAddReplacesFirst(cart: Cart, first: Params, second: Params, t1: Bytes, t2: Bytes)
    requires UpdateCart(cart, first, t1).Updated?
    requires ArrayKeyOf(Field(first, PRODUCT_ID)) == ArrayKeyOf(Field(second, PRODUCT_ID))
    ensures UpdateCart(UpdateCart(cart, first, t1).cart, second, t2) == UpdateCart(cart, second, t2)
  {
    var key := ArrayKeyOf(Field(first, PRODUCT_ID)).value;
    var once := UpdateCart(cart, first, t1).cart;
    assert once == cart[key := CartEntry(Field(first, QUANTITY), t1)];
    if UpdateCart(cart, second, t2).Updated? {
      var entry := CartEntry(Field(second, QUANTITY), t2);
      assert once[key := entry] == cart[key := entry];
    }
  }

  /**
    A product id sent as the number i and as the string "i" fills the same cart
    line; for i = 0 both are empty() and both are refused.
  */
  lemma NumericProductIdsShareLine(cart: Cart, i: int, quantity: JsonValue, addedAt: Bytes)
    requires INT_MIN <= i <= INT_MAX
    ensures UpdateCart(cart, map[PRODUCT_ID := JString(DecimalString(i)), QUANTITY := quantity], addedAt)
         == UpdateCart(cart, map[PRODUCT_ID := JInt(i), QUANTITY := quantity], addedAt)
  {
    NumericStringSameKey(i);
    assert PRODUCT_ID != QUANTITY by {
      assert PRODUCT_ID[0] != QUANTITY[0];
    }
    DecimalStringEmpty(i);
  }

  // ---------------------------------------------------------------- user meta

  /** update_user_meta($uid, $key, $value): stores the value for a real user; user 0 is refused. */
  function SetUserMeta<T>(meta: map<nat, T>, uid: nat, value: T): (r: map<nat, T>)
    ensures uid > 0 ==> uid in r && r[uid] == value
    ensures forall u :: u != uid ==> (u in r <==> u in meta) && (u in meta ==> r[u] == meta[u])
    ensures uid == 0 ==> r == meta
  {
    if uid > 0 then meta[uid := value] else meta
  }

  /** delete_user_meta($uid, $key): removes the value of one real user; user 0 is refused. */
  function DeleteUserMeta<T>(meta: map<nat, T>, uid: nat): (r: map<nat, T>)
    ensures uid > 0 ==> uid !in r
    ensures forall u :: u != uid ==> (u in r <==> u in meta) && (u in meta ==> r[u] == meta[u])
    ensures uid == 0 ==> r == meta
  {
    if uid > 0 then meta - {uid} else meta
  }

  /** get_user_meta($uid, '_headlesswoo_cart', true) ?: array(): the stored cart, or an empty one. */
  function StoredCart(carts: map<nat, Cart>, uid: nat): (cart: Cart)
  {
    if uid > 0 && uid in carts then carts[uid] else map[]
  }

  /** The stored tokens after a login reply: the issued token for the user who logged in, nothing else changed. */
  function TokensAfterLogin(tokens: map<nat, Bytes>, r: Reply): map<nat, Bytes>
  {
    if r.Response? && r.body.LoginBody? then SetUserMeta(tokens, r.body.user.id, r.body.token) else tokens
  }

  /**
    What handleLogin stores: after a 200 login reply, exactly the issued token
    for the user who logged in; after any other reply, nothing.
  */
  lemma LoginStoresIssuedToken(jwt: JwtManager, data: Params, authenticate: Authenticator, encode: ClaimsEncoder, now: int, tokens: map<nat, Bytes>)
    ensures var a := authenticate(Field(data, USERNAME), Field(data, PASSWORD));
      var ok := !Empty(Field(data, USERNAME)) && !Empty(Field(data, PASSWORD)) && a.Authenticated?;
      && (ok ==> TokensAfterLogin(tokens, Login(jwt, data, authenticate, encode, now))
                 == SetUserMeta(tokens, a.user.id, LoginToken(jwt, encode, a.user, now)))
      && (!ok ==> TokensAfterLogin(tokens, Login(jwt, data, authenticate, encode, now)) == tokens)
  {
  }

  /** A cart written for a user is the cart read back for that user, and no other user's cart changes. */
  lemma StoredCartAfterWrite(carts: map<nat, Cart>, uid: nat, cart: Cart, other: nat)
    requires other != uid
    ensures uid > 0 ==> StoredCart(SetUserMeta(carts, uid, cart), uid) == cart
    ensures StoredCart(SetUserMeta(carts, uid, cart), other) == StoredCart(carts, other)
  {
  }

  // ---------------------------------------------------------------- the controller

  /**
    The HeadlessWoo controller object. Its JwtManager is built once from the
    'headlesswoo_field_jwt_secret' option; the two user-meta entries it writes
    are kept here per user id.
  */
  class Controller {
    const authObj: JwtManager
    const readUserId: UserIdReader

    /** '_headlesswoo_jwt_token' user meta: the last token issued to each user. */
    var userTokens: map<nat, Bytes>

    /** '_headlesswoo_cart' user meta: each user's cart. */
    var userCarts: map<nat, Cart>

    /**
      init(): the secret is the stored option, or "default_secret" when the
      option is absent (PHP's ??, so an empty stored secret is kept).
    */
    constructor(storedSecret: Option<Bytes>, hmac: Mac, readUserId: UserIdReader,
                userTokens: map<nat, Bytes>, userCarts: map<nat, Cart>)
      ensures authObj == JwtManager(if storedSecret.Some? then storedSecret.value else DEFAULT_SECRET, hmac)
      ensures this.readUserId == readUserId
      ensures this.userTokens == userTokens && this.userCarts == userCarts
    {
      authObj := JwtManager(if storedSecret.Some? then storedSecret.value else DEFAULT_SECRET, hmac);
      this.readUserId := readUserId;
      this.userTokens := userTokens;
      this.userCarts := userCarts;
    }

    /** handleLogin: the reply of Login, and on success the issued token stored for the user. */
    method HandleLogin(data: Params, authenticate: Authenticator, encode: ClaimsEncoder, now: int) returns (r: Reply)
      modifies this
      ensures r == Login(authObj, data, authenticate, encode, now)
      ensures userTokens == TokensAfterLogin(old(userTokens), r)
      ensures userCarts == old(userCarts)
    {
      r := Login(authObj, data, authenticate, encode, now);
      userTokens := TokensAfterLogin(userTokens, r);
    }

    /**
      handleLogout: behind the gate, deletes the stored token of the user the
      token names. The token itself stays valid: the gate never looks at the
      stored tokens.
    */
    method HandleLogout(header: Option<Bytes>) returns (r: Reply)
      modifies this
      ensures var gate := ValidateRequest(authObj, header);
        && (gate.Reject? ==> r == Error(gate.error) && userTokens == old(userTokens))
        && (gate.Pass? ==>
              && r == Response(200, MessageBody("Logged out successfully"))
              && userTokens == DeleteUserMeta(old(userTokens), TokenUserId(readUserId, header.value)))
      ensures userCarts == old(userCarts)
    {
      var gate := ValidateRequest(authObj, header);
      if gate.Reject? {
        return Error(gate.error);
      }
      var uid := TokenUserId(readUserId, header.value);
      if uid > 0 {
        userTokens := DeleteUserMeta(userTokens, uid);
      }
      r := Response(200, MessageBody("Logged out successfully"));
    }

    /** getCart: behind the gate, the stored cart of the token's user. */
    method GetCart(header: Option<Bytes>) returns (r: Reply)
      ensures var gate := ValidateRequest(authObj, header);
        && (gate.Reject? ==> r == Error(gate.error))
        && (gate.Pass? ==> r == Response(200, CartBody(StoredCart(userCarts, TokenUserId(readUserId, header.value)))))
    {
      var gate := ValidateRequest(authObj, header);
      if gate.Reject? {
        return Error(gate.error);
      }
      var uid := TokenUserId(readUserId, header.value);
      r := Response(200, CartBody(StoredCart(userCarts, uid)));
    }

    /**
      addToCart: behind the gate, checks the fields, loads the user's cart,
      sets the line for the product and writes the cart back; the response is
      the new cart even when there is no user to store it for.
    */
    method AddToCart(header: Option<Bytes>, data: Params, addedAt: Bytes) returns (r: Reply)
      modifies this
      ensures var gate := ValidateRequest(authObj, header);
        && (gate.Reject? ==> r == Error(gate.error) && userCarts == old(userCarts))
        && (gate.Pass? ==>
              var uid := TokenUserId(readUserId, header.value);
              match UpdateCart(StoredCart(old(userCarts), uid), data, addedAt)
              case CartFieldsMissing => r == Error(MISSING_CART_FIELDS) && userCarts == old(userCarts)
              case IllegalOffset => r == Fatal && userCarts == old(userCarts)
              case Updated(cart) => r == Response(200, CartBody(cart)) && userCarts == SetUserMeta(old(userCarts), uid, cart))
      ensures userTokens == old(userTokens)
    {
      var gate := ValidateRequest(authObj, header);
      if gate.Reject? {
        return Error(gate.error);
      }
      var productId, quantity := Field(data, PRODUCT_ID), Field(data, QUANTITY);
      if Empty(productId) || Empty(quantity) {
        return Error(MISSING_CART_FIELDS);
      }
      var uid := TokenUserId(readUserId, header.value);
      var cart := StoredCart(userCarts, uid);
      var key := ArrayKeyOf(productId);
      if key.None? {
        return Fatal;
      }
      cart := cart[key.value := CartEntry(quantity, addedAt)];
      userCarts := SetUserMeta(userCarts, uid, cart);
      r := Response(200, CartBody(cart));
    }
  }
}
