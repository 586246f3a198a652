/** Login and token minting (todo-api/app/controllers/api/v1/auth_controller.rb). Tokens are
    unsigned: the base64 text of the JSON payload, so anyone can decode or forge one. */
module Auth {
  import opened Wrappers
  import Json
  import Text
  import Application

  type User = Application.User
  type Param<T> = Application.Param<T>

  /** `24.hours` and `7.days`, in seconds. */
  const ACCESS_LIFETIME: int := 86400
  const REFRESH_LIFETIME: int := 604800

  const INVALID_CREDENTIALS: string := "Invalid username or password"
  const LOGIN_MISSING: string := "param is missing or the value is empty: login"

  /** The `login` parameter: the two permitted keys and the names of any other keys sent. */
  datatype LoginParams = LoginParams(username: Param<string>, password: Param<string>, others: set<string>)

  /** An empty `login` hash is blank, which `require` treats like a missing one. */
  predicate LoginParamsBlank(p: LoginParams) {
    p.username.Missing? && p.password.Missing? && p.others == {}
  }

  /** `User.find_by(username: ...)`: the first user with that username; nil matches nobody. */
  function FindByUsername(users: seq<User>, username: Option<string>): (r: Option<User>)
    ensures r.Some? ==> r.value in users && username == Some(r.value.username)
    ensures r.None? && username.Some? ==> forall i :: 0 <= i < |users| ==> users[i].username != username.value
  {
    if username.None? || users == [] then None
    else if users[0].username == username.value then Some(users[0])
    else FindByUsername(users[1..], username)
  }

  /** The access payload: user_id, username and an expiry 24 hours from `now`. */
  function AccessPayload(user: User, now: int): Json.Value {
    Json.Obj(map["user_id" := Json.Num(user.id), "username" := Json.Str(user.username),
                 "exp" := Json.Num(now + ACCESS_LIFETIME)])
  }

  /** The refresh payload: user_id and an expiry 7 days from `now`. */
  function RefreshPayload(user: User, now: int): Json.Value {
    Json.Obj(map["user_id" := Json.Num(user.id), "exp" := Json.Num(now + REFRESH_LIFETIME)])
  }

  /** `generate_token`: `Base64.strict_encode64(payload.to_json)`. */
  function GenerateToken(user: User, now: int, codec: Json.Codec): string {
    Application.EncodeToken(AccessPayload(user, now), codec)
  }

  /** `generate_refresh_token`. */
  function GenerateRefreshToken(user: User, now: int, codec: Json.Codec): string {
    Application.EncodeToken(RefreshPayload(user, now), codec)
  }

  /** `login`. `passwordMatches` stands for `User#authenticate` (bcrypt); `now` for the clock. */
  function Login(login: Option<LoginParams>, users: seq<User>,
                 passwordMatches: (User, Option<string>) -> bool,
                 codec: Json.Codec, now: int): (r: Application.Response)
    ensures r.status == 200 || r.status == 400 || r.status == 401
    ensures r.status != 200 ==> Application.IsErrorAnswer(r)
  {
    if login.None? || LoginParamsBlank(login.value) then
      Application.Rescue(Application.ParameterMissing(LOGIN_MISSING))
    else
      var user := FindByUsername(users, login.value.username.Value());
      if user.Some? && passwordMatches(user.value, login.value.password.Value()) then
        Application.Response(200, Some(Json.Obj(map[
          "access_token" := Json.Str(GenerateToken(user.value, now, codec)),
          "refresh_token" := Json.Str(GenerateRefreshToken(user.value, now, codec))])))
      else Application.RenderError(401, INVALID_CREDENTIALS)
  }

  /** A request without a usable `login` hash answers 400. */
  lemma LoginRequiresParams(login: Option<LoginParams>, users: seq<User>,
                            passwordMatches: (User, Option<string>) -> bool, codec: Json.Codec, now: int)
    requires login.None? || LoginParamsBlank(login.value)
    ensures Login(login, users, passwordMatches, codec, now).status == 400
  {
  }

  /** An unknown username and a wrong password get the same answer: 401 with one message. */
  lemma LoginFailureIsUniform(login: LoginParams, users: seq<User>,
                              passwordMatches: (User, Option<string>) -> bool, codec: Json.Codec, now: int)
    requires !LoginParamsBlank(login)
    requires var u := FindByUsername(users, login.username.Value());
      u.None? || !passwordMatches(u.value, login.password.Value())
    ensures Login(Some(login), users, passwordMatches, codec, now) == Application.RenderError(401, INVALID_CREDENTIALS)
  {
  }

  /** A minted token is never blank, so `present?` holds of it. */
  lemma TokenPresent(payload: Json.Value, codec: Json.Codec)
    requires Json.Faithful(codec)
    ensures !Text.IsBlank(Application.EncodeToken(payload, codec))
  {
    var token := Application.EncodeToken(payload, codec);
    Application.TokenRoundTrip(payload, codec);
    assert !Text.IsRubySpace(token[0]);
  }

  /** Correct credentials answer 200 with exactly the two tokens, both present (non-blank). */
  lemma LoginSucceeds(login: LoginParams, users: seq<User>,
                      passwordMatches: (User, Option<string>) -> bool, codec: Json.Codec, now: int, u: User)
    requires Json.Faithful(codec) && !LoginParamsBlank(login)
    requires FindByUsername(users, login.username.Value()) == Some(u)
    requires passwordMatches(u, login.password.Value())
    ensures var r := Login(Some(login), users, passwordMatches, codec, now);
      && r.status == 200 && r.body.Some? && r.body.value.Obj?
      && r.body.value.fields.Keys == {"access_token", "refresh_token"}
      && r.body.value.fields["access_token"] == Json.Str(GenerateToken(u, now, codec))
      && r.body.value.fields["refresh_token"] == Json.Str(GenerateRefreshToken(u, now, codec))
      && !Text.IsBlank(GenerateToken(u, now, codec)) && !Text.IsBlank(GenerateRefreshToken(u, now, codec))
  {
    TokenPresent(AccessPayload(u, now), codec);
    TokenPresent(RefreshPayload(u, now), codec);
  }

  /** The access token decodes to exactly {user_id, username, exp}, expiring 86400 seconds after `now`. */
  lemma AccessTokenContents(u: User, now: int, codec: Json.Codec)
    requires Json.Faithful(codec)
    ensures var a := Application.DecodeToken(GenerateToken(u, now, codec), codec);
      && a.Some? && a.value.Obj? && a.value.fields.Keys == {"user_id", "username", "exp"}
      && a.value.fields["user_id"] == Json.Num(u.id)
      && a.value.fields["username"] == Json.Str(u.username)
      && a.value.fields["exp"] == Json.Num(now + 86400)
  {
    Application.TokenRoundTrip(AccessPayload(u, now), codec);
  }

  /** The refresh token decodes to exactly {user_id, exp}, expiring 604800 seconds after `now`,
      so it always outlives the access token minted with it. */
  lemma RefreshTokenContents(u: User, now: int, codec: Json.Codec)
    requires Json.Faithful(codec)
    ensures var f := Application.DecodeToken(GenerateRefreshToken(u, now, codec), codec);
      && f.Some? && f.value.Obj? && f.value.fields.Keys == {"user_id", "exp"}
      && f.value.fields["user_id"] == Json.Num(u.id)
      && f.value.fields["exp"] == Json.Num(now + 604800)
      && f.value.fields["exp"].n > AccessPayload(u, now).fields["exp"].n
  {
    Application.TokenRoundTrip(RefreshPayload(u, now), codec);
  }

  /** A minted token, sent back as `Bearer <token>`, authenticates as the user it was issued to,
      at any later time. */
  lemma IssuedTokenAuthenticates(users: seq<User>, codec: Json.Codec, cast: Application.IdCast, u: User, now: int)
    requires Json.Faithful(codec) && Application.CastsIntegers(cast) && Application.UniqueIds(users) && u in users
    ensures Application.Authenticate(Some("Bearer " + GenerateToken(u, now, codec)), users, codec, cast)
            == Application.Authenticated(Application.One(u))
  {
    var p := AccessPayload(u, now);
    Application.AuthenticatesPayloadUser(users, codec, cast, u, p.fields, "Bearer");
    var token := GenerateToken(u, now, codec);
    assert "Bearer" + " " + token == "Bearer " + token;
  }

  /** Nothing tells the two kinds apart: a refresh token is accepted wherever an access token is. */
  lemma RefreshTokenAuthenticates(users: seq<User>, codec: Json.Codec, cast: Application.IdCast, u: User, now: int)
    requires Json.Faithful(codec) && Application.CastsIntegers(cast) && Application.UniqueIds(users) && u in users
    ensures Application.Authenticate(Some("Bearer " + GenerateRefreshToken(u, now, codec)), users, codec, cast)
            == Application.Authenticated(Application.One(u))
  {
    var p := RefreshPayload(u, now);
    Application.AuthenticatesPayloadUser(users, codec, cast, u, p.fields, "Bearer");
    var token := GenerateRefreshToken(u, now, codec);
    assert "Bearer" + " " + token == "Bearer " + token;
  }
}
