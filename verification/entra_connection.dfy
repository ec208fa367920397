/** Username resolution (`get_entra_conninfo`) and the keyword merge of
    `AsyncEntraConnection.connect`. The credential is a function from scope
    to token, and every operation returns the scopes it requested, in order. */
module EntraConnection {
  import opened Wrappers
  import opened Errors
  import opened Claims
  import Jwt
  import Base64
  import Text

  /** The two scopes tokens are requested for. */
  datatype Scope = Database | Management

  /** The scope URI the credential is asked for. */
  function ScopeUri(scope: Scope): string
  {
    match scope
    case Database => "https://ossrdbms-aad.database.windows.net/.default"
    case Management => "https://management.azure.com/.default"
  }

  /** A credential, by the scope it is asked for: `credential(scope)` is
      `credential.get_token(ScopeUri(scope)).token`, or the message of the
      error that raises. Scopes are kept as the enumeration rather than the
      URI strings, so that the two requests are told apart without comparing
      the URIs character by character. */
  type Credential = Scope -> Result<string, string>

  /** The token requested for `scope`. */
  function Request(credential: Credential, scope: Scope): Result<string, string>
  {
    credential(scope)
  }

  /** A result together with the scopes requested to obtain it. */
  datatype Traced<T> = Traced(result: Result<T, Error>, requested: seq<Scope>)

  /** The dictionary `{"user": ..., "password": ...}` returned by
      `get_entra_conninfo`. */
  datatype ConnInfo = ConnInfo(user: Value, password: string) {
    function AsKwargs(): (kw: map<string, Value>)
      ensures kw.Keys == {"user", "password"}
      ensures kw["user"] == user && kw["password"] == Str(password)
    {
      map["user" := user, "password" := Str(password)]
    }
  }

  /** The username expression evaluated on one token, with that token. */
  datatype Probed = Probed(username: Value, token: string)

  /** One round of `get_entra_conninfo`: request a token for `scope`, decode
      it, evaluate the username expression on its claims. */
  function Probe(credential: Credential, parse: Jwt.JsonParser, scope: Scope): (r: Result<Probed, Error>)
    ensures r.Ok? ==> Request(credential, scope) == Ok(r.value.token) && '.' in r.value.token
    ensures r.Ok? ==> exists claims :: (Jwt.DecodeJwt(r.value.token, parse) == Ok(claims)
      && Username(claims) == Ok(r.value.username))
    ensures Request(credential, scope).Err? ==> r == Err(CredentialFailed(Request(credential, scope).error))
    ensures r.Err? ==> r.error != UsernameUnresolved && r.error != InvalidCredential && r.error != ConninfoUnbound
  {
    match Request(credential, scope)
    case Err(reason) => Err(CredentialFailed(reason))
    case Ok(token) =>
      var claims :- Jwt.DecodeJwt(token, parse);
      var username :- Username(claims);
      Ok(Probed(username, token))
  }

  /** With a token in hand, a round fails exactly when decoding the token or
      evaluating the username expression raises, and then with that error:
      nothing is caught. */
  lemma ProbeOutcome(credential: Credential, parse: Jwt.JsonParser, scope: Scope)
    requires Request(credential, scope).Ok?
    ensures var r := Probe(credential, parse, scope);
      var claims := Jwt.DecodeJwt(Request(credential, scope).value, parse);
      && (claims.Err? ==> r == Err(claims.error))
      && (claims.Ok? ==> (r.Ok? <==> Username(claims.value).Ok?))
      && (claims.Ok? && Username(claims.value).Err? ==> r == Err(Username(claims.value).error))
  {
  }

  /** The round completed and its username is falsy, which is what sends
      `get_entra_conninfo` on to the next scope. */
  predicate NoUsername(p: Result<Probed, Error>)
  {
    p.Ok? && !Truthy(p.value.username)
  }

  /** `get_entra_conninfo`: the database scope first; the management scope
      only when the database token's claims yield no username; `ValueError`
      when neither does. */
  function ResolveConnInfo(credential: Credential, parse: Jwt.JsonParser): (r: Traced<ConnInfo>)
    ensures |r.requested| >= 1 && r.requested[0] == Database
    ensures r.requested == (if NoUsername(Probe(credential, parse, Database)) then [Database, Management] else [Database])
    ensures r.result == Err(UsernameUnresolved)
      <==> NoUsername(Probe(credential, parse, Database)) && NoUsername(Probe(credential, parse, Management))
    ensures r.result.Ok? ==>
      && Truthy(r.result.value.user)
      && '.' in r.result.value.password
      && Request(credential, r.requested[|r.requested| - 1]) == Ok(r.result.value.password)
      && Probe(credential, parse, r.requested[|r.requested| - 1])
           == Ok(Probed(r.result.value.user, r.result.value.password))
    ensures r.result.Err? && r.result.error != UsernameUnresolved ==>
      Probe(credential, parse, r.requested[|r.requested| - 1]) == Err(r.result.error)
  {
    match Probe(credential, parse, Database)
    case Err(e) => Traced(Err(e), [Database])
    case Ok(first) =>
      if Truthy(first.username) then Traced(Ok(ConnInfo(first.username, first.token)), [Database])
      else
        match Probe(credential, parse, Management)
        case Err(e) => Traced(Err(e), [Database, Management])
        case Ok(second) =>
          if Truthy(second.username) then Traced(Ok(ConnInfo(second.username, second.token)), [Database, Management])
          else Traced(Err(UsernameUnresolved), [Database, Management])
  }

  /** The trace is complete: two credentials that agree on the scopes one of
      them was asked for give the same outcome and the same trace. In
      particular the management token is never consulted when the database
      token names the user. */
  lemma ResolveReadsOnlyRequested(c1: Credential, c2: Credential, parse: Jwt.JsonParser)
    requires forall s :: s in ResolveConnInfo(c1, parse).requested ==> Request(c1, s) == Request(c2, s)
    ensures ResolveConnInfo(c1, parse) == ResolveConnInfo(c2, parse)
  {
    assert Request(c1, Database) == Request(c2, Database);
    assert Probe(c1, parse, Database) == Probe(c2, parse, Database);
    if NoUsername(Probe(c1, parse, Database)) {
      assert Request(c1, Management) == Request(c2, Management);
      assert Probe(c1, parse, Management) == Probe(c2, parse, Management);
    }
  }

  /** A database token that cannot be decoded is not a reason to fall back:
      `get_entra_conninfo` raises the decoding error after one request. */
  lemma DatabaseDecodeErrorStops(credential: Credential, parse: Jwt.JsonParser)
    requires Request(credential, Database).Ok?
    requires Jwt.DecodeJwt(Request(credential, Database).value, parse).Err?
    ensures ResolveConnInfo(credential, parse)
      == Traced(Err(Jwt.DecodeJwt(Request(credential, Database).value, parse).error), [Database])
  {
    ProbeOutcome(credential, parse, Database);
  }

  /** End to end: a database token whose payload segment has a length of one
      more than a multiple of four raises the Base64 length error, and the
      management scope is never requested. */
  lemma DatabaseTokenDataLength(credential: Credential, parse: Jwt.JsonParser,
                                header: string, payload: string, rest: string)
    requires '.' !in header && (rest == "" || rest[0] == '.')
    requires Base64.DataOnly(payload) && |payload| % 4 == 1
    requires Request(credential, Database) == Ok(header + "." + payload + rest)
    ensures ResolveConnInfo(credential, parse) == Traced(Err(Base64DataLength), [Database])
  {
    Jwt.DecodeJwtDataLength(header, payload, rest, parse);
    DatabaseDecodeErrorStops(credential, parse);
  }

  /** End to end on the first scope: a database token whose payload encodes
      claims with a `upn` and no `xms_mirid` resolves to that `upn`, with the
      same token as password, after one request. */
  lemma DatabaseTokenUpn(credential: Credential, parse: Jwt.JsonParser, header: string, b: seq<Base64.byte>,
                         rest: string, m: map<string, Value>)
    requires '.' !in header && (rest == "" || rest[0] == '.')
    requires Request(credential, Database) == Ok(header + "." + Base64.Encode(b) + rest)
    requires parse(b) == Some(Dict(m))
    requires "xms_mirid" !in m
    requires "upn" in m && Truthy(m["upn"])
    ensures ResolveConnInfo(credential, parse)
      == Traced(Ok(ConnInfo(m["upn"], header + "." + Base64.Encode(b) + rest)), [Database])
  {
    Jwt.DecodeJwtOfEncoded(header, b, rest, parse);
    UsernamePriority(m);
  }

  /** End to end on the fallback: when the database token's claims name no
      user and the management token's `xms_mirid` is a user-assigned
      identity path, the identity's name is the user and the management token
      is the password. */
  lemma ManagementTokenManagedIdentity(credential: Credential, parse: Jwt.JsonParser, header: string,
                                       b: seq<Base64.byte>, rest: string, m: map<string, Value>,
                                       path: string, name: string)
    requires NoUsername(Probe(credential, parse, Database))
    requires '.' !in header && (rest == "" || rest[0] == '.')
    requires Request(credential, Management) == Ok(header + "." + Base64.Encode(b) + rest)
    requires parse(b) == Some(Dict(m))
    requires "xms_mirid" in m && m["xms_mirid"] == Str(path + "/" + name)
    requires '/' !in name && |name| > 0 && Text.EndsWith(Text.Lower(path), IdentityPathSuffix)
    ensures ResolveConnInfo(credential, parse)
      == Traced(Ok(ConnInfo(Str(name), header + "." + Base64.Encode(b) + rest)), [Database, Management])
  {
    Jwt.DecodeJwtOfEncoded(header, b, rest, parse);
    ParsePrincipalNameSplit(path, name);
    UsernamePriority(m);
  }

  /** The `credential` keyword argument as `connect` receives it. */
  datatype CredentialArg =
    | Omitted
    | Given(credential: Credential)
      /** a value that is not a token credential, with its truthiness */
    | NotACredential(truthy: bool)

  /** The credential `connect` hands on: the given one, or the default one
      when the keyword is missing or falsy. */
  function ChosenCredential(arg: CredentialArg, default: Credential): Credential
  {
    if arg.Given? then arg.credential else default
  }

  /** Whether `connect` resolves conninfo: `user` or `password` is falsy. */
  function NeedsConnInfo(kwargs: map<string, Value>): (b: bool)
    ensures !b <==> "user" in kwargs && Truthy(kwargs["user"]) && "password" in kwargs && Truthy(kwargs["password"])
  {
    !Truthy(Lookup(kwargs, "user")) || !Truthy(Lookup(kwargs, "password"))
  }

  /** The `credential` keyword is present and truthy but not a token
      credential. */
  function Rejected(arg: CredentialArg): (b: bool)
    ensures b <==> arg == NotACredential(true)
  {
    arg.NotACredential? && arg.truthy
  }

  /** The caller's keywords with `password` set from the conninfo, and `user`
      set from it only when the caller's is falsy. */
  function Fill(kw: map<string, Value>, conninfo: ConnInfo): (f: map<string, Value>)
    ensures f.Keys == kw.Keys + {"user", "password"}
  {
    var kw1 := kw["password" := Str(conninfo.password)];
    if !Truthy(Lookup(kw1, "user")) then kw1["user" := conninfo.user] else kw1
  }

  /** `Fill` keeps a truthy caller `user`, always supplies a truthy `user`
      and the conninfo's password, and changes no other key. */
  lemma FillKeeps(kw: map<string, Value>, conninfo: ConnInfo)
    requires Truthy(conninfo.user)
    ensures var f := Fill(kw, conninfo);
      && "user" in f && Truthy(f["user"])
      && f["password"] == Str(conninfo.password)
      && (Truthy(Lookup(kw, "user")) ==> f["user"] == kw["user"])
      && (!Truthy(Lookup(kw, "user")) ==> f["user"] == conninfo.user)
      && (forall k :: k !in {"user", "password"} ==>
            (k in f <==> k in kw) && (k in kw ==> f[k] == kw[k]))
  {
  }

  /** Merging the conninfo dictionary last makes its `user` and `password`
      win, and changes no other key. */
  lemma MergeOverrides(kw: map<string, Value>, conninfo: ConnInfo)
    requires Truthy(conninfo.user)
    ensures var m := Fill(kw, conninfo) + conninfo.AsKwargs();
      && m["user"] == conninfo.user
      && m["password"] == Str(conninfo.password)
      && (forall k :: k !in {"user", "password"} ==>
            (k in m <==> k in kw) && (k in kw ==> m[k] == kw[k]))
  {
    FillKeeps(kw, conninfo);
  }

  /** `AsyncEntraConnection.connect` as written: the keyword arguments it
      passes to `super().connect`, or what it raises. `kwargs` holds the
      keyword arguments other than `credential`; an entry under that name is
      dropped, as `pop` does. When both `user` and `password` are supplied,
      `entra_conninfo` is never assigned and the final merge raises. */
  function Connect(arg: CredentialArg, kwargs: map<string, Value>, default: Credential, parse: Jwt.JsonParser)
    : (r: Traced<map<string, Value>>)
    ensures Rejected(arg) ==> r == Traced(Err(InvalidCredential), [])
    ensures |r.requested| > 0 <==> !Rejected(arg) && NeedsConnInfo(kwargs - {"credential"})
    ensures r.result.Ok? ==> "credential" !in r.result.value
  {
    var kw := kwargs - {"credential"};
    if Rejected(arg) then Traced(Err(InvalidCredential), [])
    else if NeedsConnInfo(kw) then
      var info := ResolveConnInfo(ChosenCredential(arg, default), parse);
      match info.result
      case Err(e) => Traced(Err(e), info.requested)
      case Ok(conninfo) => Traced(Ok(Fill(kw, conninfo) + conninfo.AsKwargs()), info.requested)
    else Traced(Err(ConninfoUnbound), [])
  }

  /** When `user` or `password` is missing, `connect` fails exactly when
      `get_entra_conninfo` does, requests the same scopes, and passes on the
      caller's keywords with `user` and `password` both taken from the
      conninfo; every other keyword is passed on unchanged. */
  lemma ConnectMergesConnInfo(arg: CredentialArg, kwargs: map<string, Value>, default: Credential, parse: Jwt.JsonParser)
    requires !Rejected(arg) && NeedsConnInfo(kwargs - {"credential"})
    ensures var r := Connect(arg, kwargs, default, parse);
      var info := ResolveConnInfo(ChosenCredential(arg, default), parse);
      && r.requested == info.requested
      && (r.result.Err? <==> info.result.Err?)
      && (r.result.Err? ==> r.result.error == info.result.error)
      && (r.result.Ok? ==>
            && r.result.value["user"] == info.result.value.user
            && Truthy(r.result.value["user"])
            && r.result.value["password"] == Str(info.result.value.password)
            && Request(ChosenCredential(arg, default), r.requested[|r.requested| - 1]) == Ok(info.result.value.password)
            && (forall k :: k !in {"user", "password", "credential"} ==>
                  (k in r.result.value <==> k in kwargs) && (k in kwargs ==> r.result.value[k] == kwargs[k])))
  {
    var info := ResolveConnInfo(ChosenCredential(arg, default), parse);
    if info.result.Ok? {
      MergeOverrides(kwargs - {"credential"}, info.result.value);
    }
  }

  /** With both `user` and `password` supplied, `connect` requests no token
      and always raises. */
  lemma ConnectBothSuppliedRaises(arg: CredentialArg, kwargs: map<string, Value>, default: Credential, parse: Jwt.JsonParser)
    requires !Rejected(arg)
    requires "user" in kwargs && Truthy(kwargs["user"])
    requires "password" in kwargs && Truthy(kwargs["password"])
    ensures Connect(arg, kwargs, default, parse) == Traced(Err(ConninfoUnbound), [])
  {
  }

  /** A caller-supplied `user` is replaced by the username from the token
      whenever `connect` resolves conninfo, because the conninfo dictionary
      is merged last. */
  lemma ConnectOverridesCallerUser(arg: CredentialArg, kwargs: map<string, Value>, default: Credential, parse: Jwt.JsonParser)
    requires "user" in kwargs && Truthy(kwargs["user"])
    requires !Truthy(Lookup(kwargs, "password"))
    requires Connect(arg, kwargs, default, parse).result.Ok?
    requires ResolveConnInfo(ChosenCredential(arg, default), parse).result.value.user != kwargs["user"]
    ensures Connect(arg, kwargs, default, parse).result.value["user"] != kwargs["user"]
  {
    ConnectMergesConnInfo(arg, kwargs, default, parse);
  }

  /** The UTF-8 bytes of the JSON text `{"upn":"alice@contoso.com"}`. */
  const ExamplePayload: seq<Base64.byte> :=
    [123, 34, 117, 112, 110, 34, 58, 34, 97, 108, 105, 99, 101, 64, 99, 111, 110, 116, 111, 115, 111, 46, 99, 111, 109, 34, 125]

  /** The `upn` claim of the example payload. */
  const ExampleUpn: string := "alice@contoso.com"

  /** A token whose payload segment encodes `ExamplePayload`, and a credential
      that returns it for every scope. */
  const ExampleToken: string := "h" + "." + Base64.Encode(ExamplePayload) + ""

  function ExampleCredential(scope: Scope): Result<string, string>
  {
    Ok(ExampleToken)
  }

  /** `json.loads` as far as the example needs it: the example payload parses
      to its object, and every other payload is treated as malformed. */
  function ExampleParse(b: seq<Base64.byte>): Option<Value>
  {
    if b == ExamplePayload then Some(Dict(map["upn" := Str(ExampleUpn)])) else None
  }

  /** A concrete case: the caller passes `user="svc"` and no password; the
      database token's claims carry `upn` "alice@contoso.com"; `connect`
      passes on that name as `user`. */
  lemma ConnectOverridesCallerUserExample()
    ensures Connect(Omitted, map["user" := Str("svc")], ExampleCredential, ExampleParse)
      == Traced(Ok(map["user" := Str(ExampleUpn), "password" := Str(ExampleToken)]), [Database])
  {
    var kwargs := map["user" := Str("svc")];
    var ci := ConnInfo(Str(ExampleUpn), ExampleToken);
    assert kwargs - {"credential"} == kwargs;
    assert Connect(Omitted, kwargs, ExampleCredential, ExampleParse)
      == Traced(Ok(Fill(kwargs, ci) + ci.AsKwargs()), [Database]) by {
      ExampleResolves();
      assert NeedsConnInfo(kwargs);
    }
    assert Fill(kwargs, ci) + ci.AsKwargs() == ci.AsKwargs() by {
      MergeOverrides(kwargs, ci);
    }
  }

  /** The example credential's database token names the `upn` user. */
  lemma ExampleResolves()
    ensures ResolveConnInfo(ExampleCredential, ExampleParse)
      == Traced(Ok(ConnInfo(Str(ExampleUpn), ExampleToken)), [Database])
  {
    assert Request(ExampleCredential, Database) == Ok("h" + "." + Base64.Encode(ExamplePayload) + "");
    DatabaseTokenUpn(ExampleCredential, ExampleParse, "h", ExamplePayload, "", map["upn" := Str(ExampleUpn)]);
  }

  /** `connect` with the final line passing `kwargs` alone, as the comment
      "If user isn't already set, use the username from the token" intends. */
  function ConnectIntended(arg: CredentialArg, kwargs: map<string, Value>, default: Credential, parse: Jwt.JsonParser)
    : (r: Traced<map<string, Value>>)
    ensures Rejected(arg) ==> r == Traced(Err(InvalidCredential), [])
    ensures |r.requested| > 0 <==> !Rejected(arg) && NeedsConnInfo(kwargs - {"credential"})
    ensures !Rejected(arg) && !NeedsConnInfo(kwargs - {"credential"}) ==> r == Traced(Ok(kwargs - {"credential"}), [])
    ensures r.result.Ok? ==> "credential" !in r.result.value
  {
    var kw := kwargs - {"credential"};
    if Rejected(arg) then Traced(Err(InvalidCredential), [])
    else if NeedsConnInfo(kw) then
      var info := ResolveConnInfo(ChosenCredential(arg, default), parse);
      match info.result
      case Err(e) => Traced(Err(e), info.requested)
      case Ok(conninfo) => Traced(Ok(Fill(kw, conninfo)), info.requested)
    else Traced(Ok(kw), [])
  }

  /** The corrected `connect` keeps a caller-supplied `user`, passes on a
      truthy `user` and `password` in every success, and leaves every other
      keyword unchanged. */
  lemma ConnectIntendedKeepsCallerUser(arg: CredentialArg, kwargs: map<string, Value>, default: Credential, parse: Jwt.JsonParser)
    ensures var r := ConnectIntended(arg, kwargs, default, parse);
      r.result.Ok? ==>
        && Truthy(r.result.value["user"]) && Truthy(r.result.value["password"])
        && (Truthy(Lookup(kwargs, "user")) ==> r.result.value["user"] == kwargs["user"])
        && (forall k :: k !in {"user", "password", "credential"} ==>
              (k in r.result.value <==> k in kwargs) && (k in kwargs ==> r.result.value[k] == kwargs[k]))
  {
    var kw := kwargs - {"credential"};
    if !Rejected(arg) && NeedsConnInfo(kw) {
      var info := ResolveConnInfo(ChosenCredential(arg, default), parse);
      if info.result.Ok? {
        FillKeeps(kw, info.result.value);
      }
    }
  }

  /** Where both versions resolve conninfo they request the same scopes, and
      whenever the code as written succeeds the corrected one succeeds with
      the same password. */
  lemma ConnectIntendedAgrees(arg: CredentialArg, kwargs: map<string, Value>, default: Credential, parse: Jwt.JsonParser)
    ensures var r := ConnectIntended(arg, kwargs, default, parse);
      var w := Connect(arg, kwargs, default, parse);
      && (NeedsConnInfo(kwargs - {"credential"}) ==> r.requested == w.requested)
      && (w.result.Ok? ==> r.result.Ok? && r.result.value["password"] == w.result.value["password"])
  {
  }
}
