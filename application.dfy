/** Request-level rules shared by every API controller (todo-api/app/controllers/application_controller.rb):
    the mapping from exceptions to `{code, message}` answers, and bearer-token authentication. */
module Application {
  import opened Wrappers
  import Json
  import Text
  import Base64
  import Seqs

  const MISSING_TOKEN: string := "Authentication token is missing"
  const INVALID_TOKEN: string := "Invalid or expired token"
  const INTERNAL_ERROR: string := "Internal server error"

  /** A user record; `passwordDigest` stands for the bcrypt digest that only the password check reads. */
  datatype User = User(id: int, username: string, passwordDigest: string)

  /** The users table: ids are its primary key. */
  ghost predicate UniqueIds(users: seq<User>) {
    forall i, j :: 0 <= i < |users| && 0 <= j < |users| && users[i].id == users[j].id ==> i == j
  }

  /** `User.find(id)`: the user with that id, or None where ActiveRecord raises RecordNotFound. */
  function FindUser(users: seq<User>, id: int): (r: Option<User>)
    ensures r.Some? ==> r.value in users && r.value.id == id
    ensures r.None? ==> forall i :: 0 <= i < |users| ==> users[i].id != id
  {
    if users == [] then None
    else if users[0].id == id then Some(users[0])
    else FindUser(users[1..], id)
  }

  /** With unique ids, looking up a user's id finds that user. */
  lemma FindUserFindsMember(users: seq<User>, u: User)
    requires UniqueIds(users) && u in users
    ensures FindUser(users, u.id) == Some(u)
  {
    var r := FindUser(users, u.id);
    var k :| 0 <= k < |users| && users[k] == u;
    var j :| 0 <= j < |users| && users[j] == r.value;
  }

  /** A request parameter as Rails sees it: not sent, sent as null, or sent with a value. */
  datatype Param<T> = Missing | Null | Given(value: T) {
    /** `params[:key]`: nil unless a value was sent. */
    function Value(): Option<T> {
      if Given? then Some(value) else None
    }
  }

  /** An HTTP answer: a status and a JSON body (none for `head :no_content`). */
  datatype Response = Response(status: int, body: Option<Json.Value>)

  function ErrorBody(code: int, message: string): Json.Value {
    Json.Obj(map["code" := Json.Num(code), "message" := Json.Str(message)])
  }

  /** `render json: { code: status, message: message }, status: status`. */
  function RenderError(status: int, message: string): Response {
    Response(status, Some(ErrorBody(status, message)))
  }

  /** The error shape: exactly `code` and `message`, the code equal to the HTTP status. */
  predicate IsErrorAnswer(r: Response) {
    && r.body.Some? && r.body.value.Obj?
    && r.body.value.fields.Keys == {"code", "message"}
    && r.body.value.fields["code"] == Json.Num(r.status)
    && r.body.value.fields["message"].Str?
  }

  /** The exceptions the controllers let escape, by the handler `rescue_from` selects for them. */
  datatype Exception =
    | RecordNotFound(message: string)
    | ParameterMissing(message: string)
    | RecordInvalid(fullMessages: seq<string>)
    | StandardError(message: string)

  /** The four `handle_*` methods: 404 and 400 carry the exception's message, RecordInvalid its
      record's full messages joined by ', ', and anything else a fixed 500 that reveals nothing
      of the exception. The body code always equals the HTTP status. */
  function Rescue(e: Exception): (r: Response)
    ensures IsErrorAnswer(r)
    ensures r.status == match e
      case RecordNotFound(_) => 404
      case ParameterMissing(_) => 400
      case RecordInvalid(_) => 400
      case StandardError(_) => 500
    ensures e.StandardError? ==> r == RenderError(500, INTERNAL_ERROR)
    ensures e.RecordNotFound? || e.ParameterMissing? ==> r == RenderError(r.status, e.message)
    ensures e.RecordInvalid? ==> r == RenderError(400, Text.Join(e.fullMessages, ", "))
  {
    match e
    case StandardError(_) => RenderError(500, INTERNAL_ERROR)
    case RecordNotFound(m) => RenderError(404, m)
    case ParameterMissing(m) => RenderError(400, m)
    case RecordInvalid(ms) => RenderError(400, Text.Join(ms, ", "))
  }

  // ---------------------------------------------------------------- authentication

  /** `header.split(' ').last if header`: the last whitespace-separated word of the
      Authorization header. The scheme word ('Bearer') is not looked at. */
  function BearerToken(header: Option<string>): (t: Option<string>)
    ensures t.Some? ==> t.value != [] && Text.NoAsciiSpace(t.value)
  {
    if header.None? then None else Text.LastWord(header.value)
  }

  /** There is no token exactly when the header is absent or holds nothing but whitespace. */
  lemma BearerTokenMissingIff(header: Option<string>)
    ensures BearerToken(header).None? <==>
      header.None? || forall i :: 0 <= i < |header.value| ==> Text.IsAsciiSpace(header.value[i])
  {
    if header.Some? {
      Text.WordsEmptyIff(header.value);
    }
  }

  /** `scheme + " " + token` yields `token`, whatever the scheme word is (or whether there is one). */
  lemma BearerTokenIsLastWord(scheme: string, token: string)
    requires token != [] && Text.NoAsciiSpace(token)
    ensures BearerToken(Some(scheme + " " + token)) == Some(token)
  {
    Text.LastWordAfterSpace(scheme, token);
  }

  /** `JSON.parse(Base64.decode64(token))`; None where either step fails. */
  function DecodeToken(token: string, codec: Json.Codec): Option<Json.Value> {
    match Base64.Decode(token)
    case None => None
    case Some(bytes) => codec.parse(bytes)
  }

  /** An unsigned token: the base64 text of the JSON encoding of a payload. */
  function EncodeToken(payload: Json.Value, codec: Json.Codec): string {
    Base64.Encode(codec.encode(payload))
  }

  /** Decoding an encoded token gives its payload back, and the token is one non-empty word. */
  lemma TokenRoundTrip(payload: Json.Value, codec: Json.Codec)
    requires Json.Faithful(codec)
    ensures DecodeToken(EncodeToken(payload, codec), codec) == Some(payload)
    ensures EncodeToken(payload, codec) != [] && Text.NoAsciiSpace(EncodeToken(payload, codec))
  {
    var bytes := codec.encode(payload);
    Base64.DecodeEncode(bytes);
    Base64.EncodeCharacters(bytes);
  }

  /** `payload['user_id']`: None for a payload that is not a Hash or has no such key. A
      missing key gives `nil` and `User.find(nil)` raises; a payload that is an array, a number,
      a boolean or JSON null raises on the lookup itself; a string payload is taken as raising. */
  function PayloadUserId(payload: Json.Value): (r: Option<Json.Value>)
    ensures r.Some? <==> payload.Obj? && "user_id" in payload.fields
    ensures r.Some? ==> r.value == payload.fields["user_id"]
  {
    Json.Lookup(payload, "user_id")
  }

  /** ActiveModel's cast of a scalar id (a number, string, boolean or Hash) to the integer
      primary key. It is library code, so it is a parameter; None is a value that matches no row. */
  type IdCast = Json.Value -> Option<int>

  /** What every cast does: an integer id casts to itself. */
  ghost predicate CastsIntegers(cast: IdCast) {
    forall n :: cast(Json.Num(n)) == Some(n)
  }

  /** What `User.find` returns when it does not raise: one record for a scalar id, an array of
      records for an array of ids. Either is stored in `@current_user`. */
  datatype Found = One(user: User) | Many(users: seq<User>)

  /** `ids.flatten.compact`: the scalar ids of an array, nested arrays flattened and nils dropped. */
  function Scalars(items: seq<Json.Value>): (r: seq<Json.Value>)
    ensures forall i :: 0 <= i < |r| ==> !r[i].Arr? && !r[i].Null?
    ensures (forall i :: 0 <= i < |items| ==> items[i].Num?) ==> r == items
  {
    if items == [] then []
    else
      var rest := Scalars(items[1..]);
      match items[0]
      case Arr(inner) => Scalars(inner) + rest
      case Null => rest
      case _ => [items[0]] + rest
  }

  /** `find_one(id)`: the user whose id the scalar casts to, or None where it raises RecordNotFound. */
  function FindOne(users: seq<User>, cast: IdCast, key: Json.Value): (r: Option<User>)
    ensures r.Some? ==> r.value in users && cast(key) == Some(r.value.id)
    ensures r.None? ==> cast(key).None? || forall i :: 0 <= i < |users| ==> users[i].id != cast(key).value
  {
    match cast(key)
    case None => None
    case Some(id) => FindUser(users, id)
  }

  /** A user for every id, in the order of the ids; None as soon as one of them is missing. */
  function FindEach(users: seq<User>, cast: IdCast, ids: seq<Json.Value>): (r: Option<seq<User>>)
    ensures r.Some? ==> |r.value| == |ids| && forall i :: 0 <= i < |ids| ==> FindOne(users, cast, ids[i]) == Some(r.value[i])
    ensures r.None? ==> exists i :: 0 <= i < |ids| && FindOne(users, cast, ids[i]).None?
  {
    if ids == [] then Some([])
    else
      match FindOne(users, cast, ids[0])
      case None => None
      case Some(u) =>
        match FindEach(users, cast, ids[1..])
        case None => None
        case Some(us) => Some([u] + us)
  }

  /** No two of the records share an id. */
  predicate DistinctIds(us: seq<User>) {
    forall i, j :: 0 <= i < j < |us| ==> us[i].id != us[j].id
  }

  /** `User.find(key)` for the value of a token's `user_id`, as `find_with_ids` does it:
      - nil raises;
      - an empty array answers an empty array, before any lookup;
      - any other array is flattened, stripped of nils and made unique, then answers the records
        in that order when every id names a distinct record, and raises otherwise (no ids at all
        also raises);
      - a scalar answers its one record or raises. */
  function UserFind(users: seq<User>, cast: IdCast, key: Json.Value): (r: Option<Found>)
    ensures key.Null? ==> r.None?
    ensures key == Json.Arr([]) ==> r == Some(Many([]))
    ensures r.Some? && r.value.One? ==> !key.Arr? && r.value.user in users && cast(key) == Some(r.value.user.id)
    ensures r.Some? && r.value.Many? ==>
      && key.Arr? && DistinctIds(r.value.users)
      && forall i :: 0 <= i < |r.value.users| ==> r.value.users[i] in users
    ensures key.Num? && CastsIntegers(cast) ==>
      (r.Some? <==> exists i :: 0 <= i < |users| && users[i].id == key.n)
  {
    match key
    case Null => None
    case Arr(items) =>
      if items == [] then Some(Many([]))
      else
        var ids := Seqs.Uniq(Scalars(items));
        if ids == [] then None
        else
          (match FindEach(users, cast, ids)
           case None => None
           case Some(us) => if DistinctIds(us) then Some(Many(us)) else None)
    case _ =>
      match FindOne(users, cast, key)
      case None => None
      case Some(u) => Some(One(u))
  }

  /** The JSON array of the users' ids, as a client would put it in `user_id`. */
  function IdsOf(us: seq<User>): seq<Json.Value> {
    seq(|us|, i requires 0 <= i < |us| => Json.Num(us[i].id))
  }

  /** An array of distinct stored users' ids finds exactly those users, in that order. */
  lemma IdArrayFindsUsers(users: seq<User>, cast: IdCast, us: seq<User>)
    requires CastsIntegers(cast) && UniqueIds(users)
    requires us != [] && DistinctIds(us) && forall i :: 0 <= i < |us| ==> us[i] in users
    ensures UserFind(users, cast, Json.Arr(IdsOf(us))) == Some(Found.Many(us))
  {
    assert |IdsOf(us)| == |us| > 0;
    DistinctIdsAreTheirOwnUniq(us);
    IdsFindEach(users, cast, us);
    UniqueFoundIdsFindThem(users, cast, IdsOf(us), us);
  }

  /** A non-empty id array that flattening and `uniq` leave alone, whose ids find distinct
      records, answers exactly those records. */
  lemma UniqueFoundIdsFindThem(users: seq<User>, cast: IdCast, items: seq<Json.Value>, us: seq<User>)
    requires items != [] && Seqs.Uniq(Scalars(items)) == items
    requires FindEach(users, cast, items) == Some(us) && DistinctIds(us)
    ensures UserFind(users, cast, Json.Arr(items)) == Some(Found.Many(us))
  {
    var ids := Seqs.Uniq(Scalars(items));
    assert ids != [] && FindEach(users, cast, ids) == Some(us);
  }

  /** Flattening and `uniq` leave the ids of distinct users as they are. */
  lemma DistinctIdsAreTheirOwnUniq(us: seq<User>)
    requires DistinctIds(us)
    ensures Seqs.Uniq(Scalars(IdsOf(us))) == IdsOf(us)
  {
    var items := IdsOf(us);
    assert forall i :: 0 <= i < |items| ==> items[i].Num?;
    assert Seqs.Distinct(items) by {
      forall i, j | 0 <= i < j < |items| ensures items[i] != items[j] {
        assert us[i].id != us[j].id;
      }
    }
    Seqs.UniqOfDistinct(items);
  }

  /** The ids of stored users find those users, one by one and in order. */
  lemma IdsFindEach(users: seq<User>, cast: IdCast, us: seq<User>)
    requires CastsIntegers(cast) && UniqueIds(users)
    requires forall i :: 0 <= i < |us| ==> us[i] in users
    ensures FindEach(users, cast, IdsOf(us)) == Some(us)
  {
    var items := IdsOf(us);
    forall i | 0 <= i < |items| ensures FindOne(users, cast, items[i]) == Some(us[i]) {
      FindUserFindsMember(users, us[i]);
    }
    FindEachFindsAll(users, cast, items, us);
  }

  /** Ids that each find their user find them all, in order. */
  lemma {:induction false} FindEachFindsAll(users: seq<User>, cast: IdCast, ids: seq<Json.Value>, us: seq<User>)
    requires |ids| == |us| && forall i :: 0 <= i < |ids| ==> FindOne(users, cast, ids[i]) == Some(us[i])
    ensures FindEach(users, cast, ids) == Some(us)
  {
    if ids != [] {
      FindEachFindsAll(users, cast, ids[1..], us[1..]);
      assert us == [us[0]] + us[1..];
    }
  }

  datatype AuthResult = Authenticated(found: Found) | Unauthorized(message: string)

  /** The outcome of `authenticate_request`. No clock is consulted: `exp` is never read. */
  function Authenticate(header: Option<string>, users: seq<User>, codec: Json.Codec, cast: IdCast): (r: AuthResult)
    ensures r.Unauthorized? ==> r.message == MISSING_TOKEN || r.message == INVALID_TOKEN
    ensures r == Unauthorized(MISSING_TOKEN) <==> BearerToken(header).None?
    ensures r.Authenticated? ==>
      && BearerToken(header).Some?
      && DecodeToken(BearerToken(header).value, codec).Some?
      && PayloadUserId(DecodeToken(BearerToken(header).value, codec).value).Some?
      && UserFind(users, cast, PayloadUserId(DecodeToken(BearerToken(header).value, codec).value).value) == Some(r.found)
    ensures r.Authenticated? && r.found.One? ==> r.found.user in users
    ensures r.Authenticated? && r.found.Many? ==> forall i :: 0 <= i < |r.found.users| ==> r.found.users[i] in users
  {
    match BearerToken(header)
    case None => Unauthorized(MISSING_TOKEN)
    case Some(token) =>
      match DecodeToken(token, codec)
      case None => Unauthorized(INVALID_TOKEN)
      case Some(payload) =>
        match PayloadUserId(payload)
        case None => Unauthorized(INVALID_TOKEN)
        case Some(key) =>
          match UserFind(users, cast, key)
          case None => Unauthorized(INVALID_TOKEN)
          case Some(found) => Authenticated(found)
  }

  /** A token carrying an existing user's id authenticates as that user, whatever else its
      payload holds and whatever the scheme word in front of it. */
  lemma AuthenticatesPayloadUser(users: seq<User>, codec: Json.Codec, cast: IdCast, u: User,
                                 fields: map<string, Json.Value>, scheme: string)
    requires Json.Faithful(codec) && CastsIntegers(cast) && UniqueIds(users) && u in users
    requires "user_id" in fields && fields["user_id"] == Json.Num(u.id)
    ensures Authenticate(Some(scheme + " " + EncodeToken(Json.Obj(fields), codec)), users, codec, cast) == Authenticated(One(u))
  {
    var token := EncodeToken(Json.Obj(fields), codec);
    TokenRoundTrip(Json.Obj(fields), codec);
    BearerTokenIsLastWord(scheme, token);
    FindUserFindsMember(users, u);
  }

  /** A token whose `user_id` is the empty array gets through with no user at all, even when
      there are no users: `User.find([])` answers `[]` without raising. */
  lemma EmptyIdArrayAuthenticates(users: seq<User>, codec: Json.Codec, cast: IdCast,
                                  fields: map<string, Json.Value>, scheme: string)
    requires Json.Faithful(codec)
    requires "user_id" in fields && fields["user_id"] == Json.Arr([])
    ensures Authenticate(Some(scheme + " " + EncodeToken(Json.Obj(fields), codec)), users, codec, cast) == Authenticated(Many([]))
  {
    var token := EncodeToken(Json.Obj(fields), codec);
    TokenRoundTrip(Json.Obj(fields), codec);
    BearerTokenIsLastWord(scheme, token);
  }

  /** Expiry is never inspected: a token for an existing user authenticates however long ago it
      expired, measured against any clock reading. */
  lemma ExpiryNeverChecked(users: seq<User>, codec: Json.Codec, cast: IdCast, u: User, exp: int, now: int)
    requires Json.Faithful(codec) && CastsIntegers(cast) && UniqueIds(users) && u in users
    requires exp < now
    ensures var token := EncodeToken(Json.Obj(map["user_id" := Json.Num(u.id), "exp" := Json.Num(exp)]), codec);
      Authenticate(Some("Bearer " + token), users, codec, cast) == Authenticated(One(u))
  {
    var fields := map["user_id" := Json.Num(u.id), "exp" := Json.Num(exp)];
    assert "user_id" in fields && fields["user_id"] == Json.Num(u.id);
    AuthenticatesPayloadUser(users, codec, cast, u, fields, "Bearer");
    var token := EncodeToken(Json.Obj(fields), codec);
    assert "Bearer" + " " + token == "Bearer " + token;
  }

  /** A present token is rejected as invalid when it does not decode, when its payload has no
      `user_id`, when that is null, or when it is an integer naming no user. */
  lemma UndecodableOrUnknownRejected(header: Option<string>, users: seq<User>, codec: Json.Codec, cast: IdCast)
    requires CastsIntegers(cast)
    requires BearerToken(header).Some?
    requires var p := DecodeToken(BearerToken(header).value, codec);
      || p.None?
      || !(p.value.Obj? && "user_id" in p.value.fields)
      || p.value.fields["user_id"].Null?
      || (p.value.fields["user_id"].Num? && forall i :: 0 <= i < |users| ==> users[i].id != p.value.fields["user_id"].n)
    ensures Authenticate(header, users, codec, cast) == Unauthorized(INVALID_TOKEN)
  {
  }

  /** The per-request state of a controller instance: `@current_user`. */
  class Controller {
    var currentUser: Option<Found>

    constructor()
      ensures currentUser == None
    {
      currentUser := None;
    }

    /** `authenticate_request` as a before_action. A non-None `halt` is the answer it rendered,
        which stops the action from running; on success it records what `User.find` returned. */
    method AuthenticateRequest(header: Option<string>, users: seq<User>, codec: Json.Codec, cast: IdCast)
      returns (halt: Option<Response>)
      modifies this
      ensures match Authenticate(header, users, codec, cast)
        case Authenticated(found) => halt == None && currentUser == Some(found)
        case Unauthorized(m) => halt == Some(RenderError(401, m)) && currentUser == old(currentUser)
    {
      var token := BearerToken(header);
      if token.None? {
        halt := Some(RenderError(401, MISSING_TOKEN));
        return;
      }
      var payload := DecodeToken(token.value, codec);
      var key := if payload.Some? then PayloadUserId(payload.value) else None;
      var found := if key.Some? then UserFind(users, cast, key.value) else None;
      if found.None? {
        halt := Some(RenderError(401, INVALID_TOKEN));
        return;
      }
      currentUser := found;
      halt := None;
    }

    /** `current_user`: what authentication recorded, a user or an array of users. */
    function CurrentUser(): Option<Found>
      reads this
    {
      currentUser
    }
  }
}
