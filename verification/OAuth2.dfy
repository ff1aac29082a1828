/**
 The OAuth2 authorization-code grant: the in-memory store and backend as classes, and the same
 operations as a transition system in which concurrent exchanges interleave at every lock.
 */
module OAuth2 {
  import opened Wrappers

  /** Nanoseconds, as `Duration` counts them. */
  const AUTHORIZATION_CODE_TTL: nat := 600_000_000_000

  datatype AuthorizationCode = AuthorizationCode(
    code: string, clientId: string, redirectUri: string, userId: string, scope: Option<string>, createdAt: nat)

  datatype Application = Application(clientId: string, clientSecret: string, redirectUris: seq<string>)

  datatype AccessToken = AccessToken(
    token: string, tokenType: string, expiresIn: nat, refreshToken: Option<string>, scope: Option<string>)

  datatype Error = InvalidClient | ExpiredCode | UnknownCode | WrongClient | WrongRedirect

  /** What a client presents to exchange a code. */
  datatype Request = Request(code: string, clientId: string, clientSecret: string, redirectUri: string)

  function Elapsed(now: nat, since: nat): nat {
    if since <= now then now - since else 0
  }

  predicate ValidClient(apps: map<string, Application>, clientId: string, clientSecret: string) {
    clientId in apps && apps[clientId].clientSecret == clientSecret
  }

  /** What consuming `code` yields; the code leaves the store in every case. */
  function Redeem(codes: map<string, AuthorizationCode>, code: string, now: nat): Result<AuthorizationCode, Error> {
    if code !in codes then Err(UnknownCode)
    else if Elapsed(now, codes[code].createdAt) > AUTHORIZATION_CODE_TTL then Err(ExpiredCode)
    else Ok(codes[code])
  }

  /** The checks made on a consumed code. */
  function Mismatch(auth: AuthorizationCode, r: Request): Option<Error> {
    if auth.clientId != r.clientId then Some(WrongClient)
    else if auth.redirectUri != r.redirectUri then Some(WrongRedirect)
    else None
  }

  /** Everything an exchange that no other task interrupts does to the two stores, and its result. */
  ghost predicate Exchanged(apps: map<string, Application>, codes: map<string, AuthorizationCode>,
                            tokens: map<string, string>, now: nat, r: Request, token: string,
                            codes': map<string, AuthorizationCode>, tokens': map<string, string>,
                            result: Result<AccessToken, Error>)
  {
    var valid := r.clientId in apps && apps[r.clientId].clientSecret == r.clientSecret;
    var stored := valid && r.code in codes;
    var live := stored && now <= codes[r.code].createdAt + 600_000_000_000;
    && codes' == (if valid then codes - {r.code} else codes)
    && (result.Ok? <==> live && codes[r.code].clientId == r.clientId && codes[r.code].redirectUri == r.redirectUri)
    && (result.Ok? ==>
        && result.value.token == token && result.value.scope == codes[r.code].scope
        && tokens' == tokens[token := codes[r.code].userId])
    && (result.Err? ==> tokens' == tokens)
    && (result == Err(InvalidClient) <==> !valid)
    && (result == Err(UnknownCode) <==> valid && r.code !in codes)
    && (result == Err(ExpiredCode) <==> stored && !live)
    && (result == Err(WrongClient) <==> live && codes[r.code].clientId != r.clientId)
    && (result == Err(WrongRedirect) <==>
        live && codes[r.code].clientId == r.clientId && codes[r.code].redirectUri != r.redirectUri)
  }

  class InMemoryOAuth2Store {
    var codes: map<string, AuthorizationCode>
    var tokens: map<string, string>

    constructor ()
      ensures codes == map[] && tokens == map[]
    {
      codes, tokens := map[], map[];
    }

    method StoreCode(code: AuthorizationCode)
      modifies this`codes
      ensures codes == old(codes)[code.code := code]
    {
      codes := codes[code.code := code];
    }

    method ConsumeCode(code: string, now: nat) returns (r: Result<Option<AuthorizationCode>, Error>)
      modifies this`codes
      ensures codes == old(codes) - {code}
      ensures code !in old(codes) ==> r == Ok(None)
      ensures code in old(codes) ==>
        r == if now <= old(codes)[code].createdAt + 600_000_000_000 then Ok(Some(old(codes)[code])) else Err(ExpiredCode)
      ensures r == match Redeem(old(codes), code, now)
                   case Ok(auth) => Ok(Some(auth))
                   case Err(UnknownCode) => Ok(None)
                   case Err(e) => Err(e)
    {
      if code in codes {
        var auth := codes[code];
        codes := codes - {code};
        if Elapsed(now, auth.createdAt) > AUTHORIZATION_CODE_TTL {
          return Err(ExpiredCode);
        }
        return Ok(Some(auth));
      }
      assert codes - {code} == codes;
      return Ok(None);
    }

    method StoreToken(userId: string, token: AccessToken)
      modifies this`tokens
      ensures tokens == old(tokens)[token.token := userId]
    {
      tokens := tokens[token.token := userId];
    }

    method GetToken(token: string) returns (userId: Option<string>)
      ensures userId == UserOf(tokens, token)
    {
      return if token in tokens then Some(tokens[token]) else None;
    }

    method RevokeToken(token: string)
      modifies this`tokens
      ensures tokens == old(tokens) - {token}
    {
      tokens := tokens - {token};
    }
  }

  class OAuth2Authentication {
    var applications: map<string, Application>
    const store: InMemoryOAuth2Store

    constructor (store: InMemoryOAuth2Store)
      ensures this.store == store && applications == map[]
    {
      this.store := store;
      applications := map[];
    }

    method RegisterApplication(app: Application)
      modifies this
      ensures applications == old(applications)[app.clientId := app]
    {
      applications := applications[app.clientId := app];
    }

    method ValidateClient(clientId: string, clientSecret: string) returns (ok: bool)
      ensures ok <==> clientId in applications && applications[clientId].clientSecret == clientSecret
    {
      if clientId in applications {
        return applications[clientId].clientSecret == clientSecret;
      }
      return false;
    }

    /** `uuid` is the fresh code value. */
    method GenerateAuthorizationCode(uuid: string, clientId: string, redirectUri: string, userId: string,
                                     scope: Option<string>, now: nat)
      returns (code: string)
      modifies store`codes
      ensures code == "code_" + uuid
      ensures store.codes ==
              old(store.codes)[code := AuthorizationCode(code, clientId, redirectUri, userId, scope, now)]
    {
      code := "code_" + uuid;
      store.StoreCode(AuthorizationCode(code, clientId, redirectUri, userId, scope, now));
    }

    /** An exchange that runs without interruption. */
    method ExchangeCode(r: Request, now: nat, uuid: string, refreshUuid: string)
      returns (result: Result<AccessToken, Error>)
      modifies store
      ensures Exchanged(applications, old(store.codes), old(store.tokens), now, r, "access_" + uuid,
                        store.codes, store.tokens, result)
      ensures result.Ok? ==> result.value.tokenType == "Bearer" && result.value.expiresIn == 3600
      ensures result.Ok? ==> result.value.refreshToken == Some("refresh_" + refreshUuid)
    {
      var valid := ValidateClient(r.clientId, r.clientSecret);
      if !valid {
        return Err(InvalidClient);
      }
      var consumed := store.ConsumeCode(r.code, now);
      if consumed.Err? {
        return Err(consumed.error);
      }
      if consumed.value.None? {
        return Err(UnknownCode);
      }
      var auth := consumed.value.value;
      if auth.clientId != r.clientId {
        return Err(WrongClient);
      }
      if auth.redirectUri != r.redirectUri {
        return Err(WrongRedirect);
      }
      var token := AccessToken("access_" + uuid, "Bearer", 3600, Some("refresh_" + refreshUuid), auth.scope);
      store.StoreToken(auth.userId, token);
      return Ok(token);
    }
  }

  /** Where one concurrent task stands; each constructor follows one lock acquisition or local step. */
  datatype Task =
    | Minting(auth: AuthorizationCode)
    | Minted
    | Presented(r: Request)
    | Validated(r: Request)
    | Consumed(r: Request, auth: AuthorizationCode)
    | Granting(r: Request, auth: AuthorizationCode, token: string)
    | Granted(token: string)
    | Failed(error: Error)

  /** `used` holds every identifier generated so far: a new one is never among them. */
  datatype State = State(
    now: nat, apps: map<string, Application>, codes: map<string, AuthorizationCode>,
    tokens: map<string, string>, tasks: map<nat, Task>, used: set<string>)

  datatype Action =
    | Tick(elapsed: nat)
    | Register(app: Application)
    | Mint(id: nat, code: string, clientId: string, redirectUri: string, userId: string, scope: Option<string>)
    | StoreCode(id: nat)
    | Present(id: nat, r: Request)
    | Validate(id: nat)
    | Consume(id: nat)
    | Check(id: nat, token: string)
    | StoreToken(id: nat)
    | Revoke(token: string)

  const START := State(0, map[], map[], map[], map[], {})

  /** An action that is not enabled changes nothing. */
  function Step(s: State, a: Action): State {
    match a
    case Tick(d) => s.(now := s.now + d)
    case Register(app) => s.(apps := s.apps[app.clientId := app])
    case Mint(id, code, clientId, redirectUri, userId, scope) =>
      if id in s.tasks || code in s.used then s
      else
        var auth := AuthorizationCode(code, clientId, redirectUri, userId, scope, s.now);
        s.(tasks := s.tasks[id := Minting(auth)], used := s.used + {code})
    case StoreCode(id) =>
      if id in s.tasks && s.tasks[id].Minting? then
        var auth := s.tasks[id].auth;
        s.(codes := s.codes[auth.code := auth], tasks := s.tasks[id := Minted])
      else s
    case Present(id, r) =>
      if id in s.tasks then s else s.(tasks := s.tasks[id := Presented(r)])
    case Validate(id) =>
      if id in s.tasks && s.tasks[id].Presented? then
        var r := s.tasks[id].r;
        s.(tasks := s.tasks[id := if ValidClient(s.apps, r.clientId, r.clientSecret) then Validated(r)
                                  else Failed(InvalidClient)])
      else s
    case Consume(id) =>
      if id in s.tasks && s.tasks[id].Validated? then
        var r := s.tasks[id].r;
        s.(codes := s.codes - {r.code},
           tasks := s.tasks[id := match Redeem(s.codes, r.code, s.now)
                                  case Ok(auth) => Consumed(r, auth)
                                  case Err(e) => Failed(e)])
      else s
    case Check(id, token) =>
      if id in s.tasks && s.tasks[id].Consumed? && token !in s.used then
        var Consumed(r, auth) := s.tasks[id];
        match Mismatch(auth, r)
        case Some(e) => s.(tasks := s.tasks[id := Failed(e)])
        case None => s.(tasks := s.tasks[id := Granting(r, auth, token)], used := s.used + {token})
      else s
    case StoreToken(id) =>
      if id in s.tasks && s.tasks[id].Granting? then
        var Granting(r, auth, token) := s.tasks[id];
        s.(tokens := s.tokens[token := auth.userId], tasks := s.tasks[id := Granted(token)])
      else s
    case Revoke(token) => s.(tokens := s.tokens - {token})
  }

  /** The state after the actions, taken in order. */
  function Run(acts: seq<Action>): State {
    if acts == [] then START else Step(Run(acts[..|acts| - 1]), acts[|acts| - 1])
  }

  lemma RunStep(acts: seq<Action>, a: Action)
    ensures Run(acts + [a]) == Step(Run(acts), a)
  {
  }

  // ----- One code, one token -----

  /** Task `id` holds `code` and may yet store it or turn it into a token. */
  ghost predicate Holds(s: State, id: nat, code: string) {
    && id in s.tasks
    && (s.tasks[id].Minting? || s.tasks[id].Consumed? || s.tasks[id].Granting?)
    && s.tasks[id].auth.code == code
  }

  /** A code is in the store, or held by one task, or neither; never in two places. */
  ghost predicate Exclusive(s: State) {
    && (forall c :: c in s.codes ==> s.codes[c].code == c && c in s.used)
    && (forall c, id :: Holds(s, id, c) ==> c !in s.codes && c in s.used)
    && (forall c, i, j :: Holds(s, i, c) && Holds(s, j, c) ==> i == j)
  }

  ghost predicate Spent(s: State, code: string) {
    code in s.used && code !in s.codes && forall id :: !Holds(s, id, code)
  }

  /** Action `a` turns `code` into a stored token. */
  ghost predicate Grants(s: State, a: Action, code: string) {
    a.StoreToken? && a.id in s.tasks && s.tasks[a.id].Granting? && s.tasks[a.id].auth.code == code
  }

  /** A task that holds a code held it before, has just generated it, or has just taken it out of the store. */
  lemma HoldsBefore(s: State, a: Action, id: nat, c: string)
    requires Exclusive(s) && Holds(Step(s, a), id, c)
    ensures var s' := Step(s, a);
            || Holds(s, id, c)
            || (a.Mint? && id == a.id && c == a.code && c !in s.used && c in s'.used && s'.codes == s.codes)
            || (a.Consume? && id == a.id && c in s.codes && c !in s'.codes && s'.used == s.used)
  {
  }

  /** A stored code was stored before, or has just been put there by the one task that held it. */
  lemma StoredBefore(s: State, a: Action, c: string)
    requires c in Step(s, a).codes
    ensures var s' := Step(s, a);
            || (c in s.codes && s'.codes[c] == s.codes[c])
            || (a.StoreCode? && Holds(s, a.id, c) && !Holds(s', a.id, c) && s'.codes[c].code == c)
  {
  }

  lemma UsedStays(s: State, a: Action)
    ensures s.used <= Step(s, a).used
  {
  }

  lemma StepKeepsExclusive(s: State, a: Action)
    requires Exclusive(s)
    ensures Exclusive(Step(s, a))
  {
    hide Step, Holds;
    var s' := Step(s, a);
    UsedStays(s, a);
    forall c | c in s'.codes ensures s'.codes[c].code == c && c in s'.used { StoredBefore(s, a, c); }
    forall c, id | Holds(s', id, c) ensures c !in s'.codes && c in s'.used {
      HoldsBefore(s, a, id, c);
      if c in s'.codes { StoredBefore(s, a, c); }
    }
    forall c, i, j | Holds(s', i, c) && Holds(s', j, c) ensures i == j {
      HoldsBefore(s, a, i, c);
      HoldsBefore(s, a, j, c);
    }
  }

  lemma {:induction false} RunIsExclusive(acts: seq<Action>)
    ensures Exclusive(Run(acts))
  {
    if acts != [] {
      RunIsExclusive(acts[..|acts| - 1]);
      StepKeepsExclusive(Run(acts[..|acts| - 1]), acts[|acts| - 1]);
    }
  }

  lemma SpentStaysSpent(s: State, a: Action, code: string)
    requires Exclusive(s) && Spent(s, code)
    ensures Spent(Step(s, a), code)
  {
    var s' := Step(s, a);
    if a.StoreCode? && a.id in s.tasks && s.tasks[a.id].Minting? {
      assert Holds(s, a.id, s.tasks[a.id].auth.code);
    }
    forall id ensures !Holds(s', id, code) {
      assert !Holds(s, id, code);
    }
  }

  lemma {:induction false} SpentForever(acts: seq<Action>, i: nat, code: string)
    requires i <= |acts| && Spent(Run(acts[..i]), code)
    ensures Spent(Run(acts), code)
  {
    if i == |acts| {
      assert acts[..i] == acts;
    } else {
      var front := acts[..|acts| - 1];
      assert front[..i] == acts[..i];
      SpentForever(front, i, code);
      RunIsExclusive(front);
      SpentStaysSpent(Run(front), acts[|acts| - 1], code);
    }
  }

  lemma GrantSpends(s: State, a: Action, code: string)
    requires Exclusive(s) && Grants(s, a, code)
    ensures Spent(Step(s, a), code)
  {
    assert Holds(s, a.id, code);
    var s' := Step(s, a);
    forall id ensures !Holds(s', id, code) {
      assert Holds(s', id, code) ==> Holds(s, id, code);
    }
  }

  /** In no interleaving does one authorization code yield two access tokens. */
  lemma OneTokenPerCode(acts: seq<Action>, i: nat, j: nat, code: string)
    requires i < j < |acts|
    requires Grants(Run(acts[..i]), acts[i], code)
    ensures !Grants(Run(acts[..j]), acts[j], code)
  {
    RunIsExclusive(acts[..i]);
    GrantSpends(Run(acts[..i]), acts[i], code);
    assert acts[..i + 1] == acts[..i] + [acts[i]];
    RunStep(acts[..i], acts[i]);
    assert acts[..j][..i + 1] == acts[..i + 1];
    SpentForever(acts[..j], i + 1, code);
    assert Grants(Run(acts[..j]), acts[j], code) ==> Holds(Run(acts[..j]), acts[j].id, code);
  }

  // ----- Where a token comes from -----

  /** Action `m` generated `auth`, dated by the clock at that moment. */
  ghost predicate MintedAt(acts: seq<Action>, m: nat, auth: AuthorizationCode) {
    && m < |acts| && acts[m].Mint?
    && var a, s := acts[m], Run(acts[..m]);
       && a.id !in s.tasks && a.code !in s.used
       && auth == AuthorizationCode(a.code, a.clientId, a.redirectUri, a.userId, a.scope, s.now)
  }

  ghost predicate CodeOrigin(acts: seq<Action>, auth: AuthorizationCode) {
    exists m: nat :: MintedAt(acts, m, auth)
  }

  /** Action `v` found the credentials of `r` to be the ones registered at that moment. */
  ghost predicate ValidatedAt(acts: seq<Action>, v: nat, id: nat, r: Request) {
    && v < |acts| && acts[v] == Validate(id)
    && var s := Run(acts[..v]);
       && id in s.tasks && s.tasks[id] == Presented(r)
       && r.clientId in s.apps && s.apps[r.clientId].clientSecret == r.clientSecret
  }

  /** Action `k` took `auth` out of the store, within its lifetime. */
  ghost predicate ConsumedAt(acts: seq<Action>, k: nat, id: nat, r: Request, auth: AuthorizationCode) {
    && k < |acts| && acts[k] == Consume(id)
    && var s := Run(acts[..k]);
       && id in s.tasks && s.tasks[id] == Validated(r)
       && r.code in s.codes && s.codes[r.code] == auth && auth.code == r.code
       && s.now <= auth.createdAt + 600_000_000_000
  }

  /** The task's code was generated, its client validated, and then the code consumed. */
  ghost predicate Earned(acts: seq<Action>, id: nat, r: Request, auth: AuthorizationCode) {
    exists m: nat, v: nat, k: nat ::
      m < k && v < k && MintedAt(acts, m, auth) && ValidatedAt(acts, v, id, r) && ConsumedAt(acts, k, id, r, auth)
  }

  /** The token was granted to a validated client, for the user, client and redirect URI of the code it consumed. */
  ghost predicate TokenOrigin(acts: seq<Action>, token: string, userId: string) {
    exists id, r, auth ::
      && Earned(acts, id, r, auth) && id in Run(acts).tasks && Run(acts).tasks[id] == Granted(token)
      && auth.userId == userId && auth.clientId == r.clientId && auth.redirectUri == r.redirectUri
  }

  ghost predicate TaskOrigin(acts: seq<Action>, id: nat, t: Task) {
    match t
    case Minting(auth) => CodeOrigin(acts, auth)
    case Validated(r) => exists v: nat :: ValidatedAt(acts, v, id, r)
    case Consumed(r, auth) => Earned(acts, id, r, auth)
    case Granting(r, auth, token) =>
      Earned(acts, id, r, auth) && auth.clientId == r.clientId && auth.redirectUri == r.redirectUri
    case _ => true
  }

  ghost predicate Traced(acts: seq<Action>) {
    var s := Run(acts);
    && (forall c :: c in s.codes ==> CodeOrigin(acts, s.codes[c]))
    && (forall id :: id in s.tasks ==> TaskOrigin(acts, id, s.tasks[id]))
    && (forall t :: t in s.tokens ==> TokenOrigin(acts, t, s.tokens[t]))
  }

  /** What happened stays happened. */
  lemma PastIsFixed(acts: seq<Action>, a: Action)
    ensures forall m: nat, auth :: MintedAt(acts, m, auth) ==> MintedAt(acts + [a], m, auth)
    ensures forall auth :: CodeOrigin(acts, auth) ==> CodeOrigin(acts + [a], auth)
    ensures forall v: nat, id, r :: ValidatedAt(acts, v, id, r) ==> ValidatedAt(acts + [a], v, id, r)
    ensures forall k: nat, id, r, auth :: ConsumedAt(acts, k, id, r, auth) ==> ConsumedAt(acts + [a], k, id, r, auth)
    ensures forall id, r, auth :: Earned(acts, id, r, auth) ==> Earned(acts + [a], id, r, auth)
  {
    hide Run;
    forall i: nat | i < |acts| ensures (acts + [a])[..i] == acts[..i] && (acts + [a])[i] == acts[i] {}
    forall id, r, auth | Earned(acts, id, r, auth) ensures Earned(acts + [a], id, r, auth) {
      var m: nat, v: nat, k: nat :|
        m < k && v < k && MintedAt(acts, m, auth) && ValidatedAt(acts, v, id, r) && ConsumedAt(acts, k, id, r, auth);
      assert MintedAt(acts + [a], m, auth) && ValidatedAt(acts + [a], v, id, r) && ConsumedAt(acts + [a], k, id, r, auth);
    }
  }

  lemma CodeHasOrigin(acts: seq<Action>, a: Action, c: string)
    requires Traced(acts) && c in Run(acts + [a]).codes
    ensures CodeOrigin(acts + [a], Run(acts + [a]).codes[c])
  {
    var s := Run(acts);
    RunStep(acts, a);
    hide Run, Earned, CodeOrigin;
    PastIsFixed(acts, a);
    if a.StoreCode? && a.id in s.tasks {
      assert TaskOrigin(acts, a.id, s.tasks[a.id]);
    }
  }

  lemma TokenBefore(s: State, a: Action, t: string)
    requires t in Step(s, a).tokens
    ensures var s' := Step(s, a);
            || (t in s.tokens && s'.tokens[t] == s.tokens[t])
            || (&& a.StoreToken? && a.id in s.tasks && s.tasks[a.id].Granting? && s.tasks[a.id].token == t
                && s'.tokens[t] == s.tasks[a.id].auth.userId && a.id in s'.tasks && s'.tasks[a.id] == Granted(t))
  {
  }

  lemma GrantedStays(s: State, a: Action, id: nat)
    requires id in s.tasks && s.tasks[id].Granted?
    ensures id in Step(s, a).tasks && Step(s, a).tasks[id] == s.tasks[id]
  {
  }

  lemma TokenHasOrigin(acts: seq<Action>, a: Action, t: string)
    requires Traced(acts) && t in Run(acts + [a]).tokens
    ensures TokenOrigin(acts + [a], t, Run(acts + [a]).tokens[t])
  {
    hide Run, Step, Earned, CodeOrigin;
    var s, s' := Run(acts), Run(acts + [a]);
    RunStep(acts, a);
    TokenBefore(s, a, t);
    PastIsFixed(acts, a);
    if t in s.tokens && s.tokens[t] == s'.tokens[t] {
      var id, r, auth :|
        && Earned(acts, id, r, auth) && id in s.tasks && s.tasks[id] == Granted(t)
        && auth.userId == s.tokens[t] && auth.clientId == r.clientId && auth.redirectUri == r.redirectUri;
      GrantedStays(s, a, id);
      assert Earned(acts + [a], id, r, auth) && s'.tasks[id] == Granted(t);
    } else {
      assert TaskOrigin(acts, a.id, s.tasks[a.id]);
      var Granting(r, auth, _) := s.tasks[a.id];
      assert Earned(acts + [a], a.id, r, auth);
    }
  }

  /** How one step may move a task that already exists. */
  ghost predicate Moves(s: State, a: Action, id: nat, was: Task, t: Task) {
    match was
    case Minting(_) => t == Minted
    case Presented(r) =>
      t == Failed(InvalidClient) || (a == Validate(id) && t == Validated(r) && ValidClient(s.apps, r.clientId, r.clientSecret))
    case Validated(r) =>
      || (t.Failed? && t.error != InvalidClient)
      || (a == Consume(id) && t.Consumed? && t.r == r && Redeem(s.codes, r.code, s.now) == Ok(t.auth))
    case Consumed(r, auth) =>
      (t.Failed? && t.error != InvalidClient) || (t.Granting? && t.r == r && t.auth == auth && Mismatch(auth, r) == None)
    case Granting(_, _, token) => t == Granted(token)
    case _ => false
  }

  lemma StepMoves(s: State, a: Action, id: nat)
    requires id in s.tasks && Step(s, a).tasks[id] != s.tasks[id]
    ensures Moves(s, a, id, s.tasks[id], Step(s, a).tasks[id])
  {
  }

  /** The task that acts has the origin its new phase calls for. */
  lemma ActorHasOrigin(acts: seq<Action>, a: Action, id: nat, was: Task, t: Task)
    requires Traced(acts) && Exclusive(Run(acts))
    requires id in Run(acts).tasks && Run(acts).tasks[id] == was
    requires id in Run(acts + [a]).tasks && Run(acts + [a]).tasks[id] == t != was
    ensures TaskOrigin(acts + [a], id, t)
  {
    var all, n := acts + [a], |acts|;
    assert all[..n] == acts && all[n] == a;
    assert TaskOrigin(acts, id, was);
    RunStep(acts, a);
    StepMoves(Run(acts), a, id);
    PastIsFixed(acts, a);
    hide Run, Step, Earned, Traced, Exclusive, CodeOrigin;
    if t.Consumed? {
      ConsumerEarned(acts, a, id, t.r, t.auth);
    } else if t.Validated? {
      assert ValidatedAt(all, n, id, t.r);
    }
  }

  lemma TaskHasOrigin(acts: seq<Action>, a: Action, id: nat)
    requires Traced(acts) && Exclusive(Run(acts)) && id in Run(acts + [a]).tasks
    ensures TaskOrigin(acts + [a], id, Run(acts + [a]).tasks[id])
  {
    var s, s' := Run(acts), Run(acts + [a]);
    RunStep(acts, a);
    if id !in s.tasks {
      assert a.Mint? || a.Present?;
      assert (acts + [a])[..|acts|] == acts;
      assert a.Mint? ==> MintedAt(acts + [a], |acts|, s'.tasks[id].auth);
    } else if s.tasks[id] != s'.tasks[id] {
      ActorHasOrigin(acts, a, id, s.tasks[id], s'.tasks[id]);
    } else {
      PastIsFixed(acts, a);
      hide Run, Earned, CodeOrigin, Step, Exclusive;
      assert TaskOrigin(acts, id, s.tasks[id]);
    }
  }

  lemma ConsumerEarned(acts: seq<Action>, a: Action, id: nat, r: Request, auth: AuthorizationCode)
    requires Traced(acts) && Exclusive(Run(acts)) && a == Consume(id)
    requires id in Run(acts).tasks && Run(acts).tasks[id] == Validated(r)
    requires Redeem(Run(acts).codes, r.code, Run(acts).now) == Ok(auth)
    ensures Earned(acts + [a], id, r, auth)
  {
    var all, n, s := acts + [a], |acts|, Run(acts);
    assert all[..n] == acts && all[n] == a;
    PastIsFixed(acts, a);
    assert CodeOrigin(acts, s.codes[r.code]);
    var m: nat :| MintedAt(acts, m, s.codes[r.code]);
    assert TaskOrigin(acts, id, s.tasks[id]);
    var v: nat :| ValidatedAt(acts, v, id, r);
    assert MintedAt(all, m, auth) && ValidatedAt(all, v, id, r) && ConsumedAt(all, n, id, r, auth);
  }

  /**
   In every interleaving, every stored token was granted to a client that presented its registered
   secret, for the user of a code generated for that client and redirect URI, and consumed within its
   lifetime.
   */
  lemma {:induction false} EveryTokenIsEarned(acts: seq<Action>)
    ensures Traced(acts)
  {
    if acts != [] {
      var front, a := acts[..|acts| - 1], acts[|acts| - 1];
      assert acts == front + [a];
      EveryTokenIsEarned(front);
      RunIsExclusive(front);
      hide Run, CodeOrigin, TaskOrigin, TokenOrigin;
      forall c | c in Run(acts).codes ensures CodeOrigin(acts, Run(acts).codes[c]) { CodeHasOrigin(front, a, c); }
      forall id | id in Run(acts).tasks ensures TaskOrigin(acts, id, Run(acts).tasks[id]) { TaskHasOrigin(front, a, id); }
      forall t | t in Run(acts).tokens ensures TokenOrigin(acts, t, Run(acts).tokens[t]) { TokenHasOrigin(front, a, t); }
    }
  }

  // ----- What becomes of an exchange -----

  /** The time that passes during the actions. */
  function Ticks(acts: seq<Action>): nat {
    if acts == [] then 0
    else Ticks(acts[..|acts| - 1]) + match acts[|acts| - 1] case Tick(elapsed) => elapsed case _ => 0
  }

  lemma {:induction false} ClockCountsTicks(acts: seq<Action>, i: nat)
    requires i <= |acts|
    ensures Run(acts).now == Run(acts[..i]).now + Ticks(acts[i..])
    decreases |acts|
  {
    if i == |acts| {
      assert acts[..i] == acts;
    } else {
      var front := acts[..|acts| - 1];
      ClockCountsTicks(front, i);
      assert front[..i] == acts[..i] && acts[i..][..|acts[i..]| - 1] == front[i..];
      OnlyTicksCount(Run(front), acts[|acts| - 1]);
    }
  }

  lemma OnlyTicksCount(s: State, a: Action)
    ensures Step(s, a).now == s.now + match a case Tick(elapsed) => elapsed case _ => 0
  {
  }

  lemma {:induction false} UsedForever(acts: seq<Action>, i: nat)
    requires i <= |acts|
    ensures Run(acts[..i]).used <= Run(acts).used
    decreases |acts|
  {
    if i == |acts| {
      assert acts[..i] == acts;
    } else {
      var front := acts[..|acts| - 1];
      assert front[..i] == acts[..i];
      UsedForever(front, i);
      UsedStays(Run(front), acts[|acts| - 1]);
    }
  }

  lemma MintUses(acts: seq<Action>, m: nat, auth: AuthorizationCode)
    requires MintedAt(acts, m, auth)
    ensures auth.code !in Run(acts[..m]).used && auth.code in Run(acts[..m + 1]).used
  {
    assert acts[..m + 1] == acts[..m] + [acts[m]];
    RunStep(acts[..m], acts[m]);
  }

  /** No code is generated twice. */
  lemma MintedOnce(acts: seq<Action>, m: nat, n: nat, auth: AuthorizationCode, other: AuthorizationCode)
    requires MintedAt(acts, m, auth) && MintedAt(acts, n, other) && auth.code == other.code
    ensures m == n && auth == other
  {
    MintUses(acts, m, auth);
    MintUses(acts, n, other);
    hide Run;
    if m < n {
      assert acts[..n][..m + 1] == acts[..m + 1];
      UsedForever(acts[..n], m + 1);
    } else if n < m {
      assert acts[..m][..n + 1] == acts[..n + 1];
      UsedForever(acts[..m], n + 1);
    }
  }

  /** What is stored under a code is what was generated. */
  lemma StoredIsMinted(acts: seq<Action>, m: nat, auth: AuthorizationCode)
    requires MintedAt(acts, m, auth) && auth.code in Run(acts).codes
    ensures Run(acts).codes[auth.code] == auth
  {
    EveryTokenIsEarned(acts);
    RunIsExclusive(acts);
    hide Run;
    var stored := Run(acts).codes[auth.code];
    assert CodeOrigin(acts, stored);
    var n: nat :| MintedAt(acts, n, stored);
    MintedOnce(acts, m, n, auth, stored);
  }

  lemma MintedBefore(acts: seq<Action>, m: nat, k: nat, auth: AuthorizationCode)
    requires m < k <= |acts| && MintedAt(acts, m, auth)
    ensures MintedAt(acts[..k], m, auth)
  {
    assert acts[..k][..m] == acts[..m];
  }

  /**
   A validated task that consumes a stored code gets it, as it was generated, exactly when no more than 600
   seconds have passed since then.
   */
  lemma RedeemedExactly(acts: seq<Action>, m: nat, k: nat, auth: AuthorizationCode, r: Request)
    requires m < k < |acts| && MintedAt(acts, m, auth) && r.code == auth.code && acts[k].Consume?
    requires var s := Run(acts[..k]); acts[k].id in s.tasks && s.tasks[acts[k].id] == Validated(r) && r.code in s.codes
    ensures var s' := Run(acts[..k + 1]);
            && acts[k].id in s'.tasks && r.code !in s'.codes
            && s'.tasks[acts[k].id] == if Ticks(acts[m..k]) <= 600_000_000_000 then Consumed(r, auth) else Failed(ExpiredCode)
  {
    MintedBefore(acts, m, k, auth);
    StoredIsMinted(acts[..k], m, auth);
    ClockCountsTicks(acts[..k], m);
    assert acts[..k][..m] == acts[..m] && acts[..k][m..] == acts[m..k];
    assert acts[..k + 1] == acts[..k] + [acts[k]];
    RunStep(acts[..k], acts[k]);
    hide Run, Ticks;
    ConsumeIs(Run(acts[..k]), acts[k].id, r);
  }

  /** The last registration of that client carries the secret. */
  ghost predicate Registered(acts: seq<Action>, clientId: string, clientSecret: string) {
    exists g: nat :: RegisteredLast(acts, g, clientId) && acts[g].app.clientSecret == clientSecret
  }

  ghost predicate RegisteredLast(acts: seq<Action>, g: nat, clientId: string) {
    && g < |acts| && acts[g].Register? && acts[g].app.clientId == clientId
    && forall j :: g < j < |acts| && acts[j].Register? ==> acts[j].app.clientId != clientId
  }

  lemma {:induction false} RegisteredExactly(acts: seq<Action>, clientId: string, clientSecret: string)
    ensures Registered(acts, clientId, clientSecret) <==> ValidClient(Run(acts).apps, clientId, clientSecret)
  {
    if acts != [] {
      var n := |acts| - 1;
      var front, a := acts[..n], acts[n];
      RegisteredExactly(front, clientId, clientSecret);
      AppsStep(Run(front), a);
      hide Step, Run;
      if a.Register? && a.app.clientId == clientId {
        assert RegisteredLast(acts, n, clientId);
        assert forall g: nat :: RegisteredLast(acts, g, clientId) ==> g == n;
      } else {
        assert forall g: nat :: RegisteredLast(acts, g, clientId) <==> RegisteredLast(front, g, clientId);
        assert forall g: nat :: RegisteredLast(front, g, clientId) ==> front[g] == acts[g];
      }
    }
  }

  lemma AppsStep(s: State, a: Action)
    ensures Step(s, a).apps == if a.Register? then s.apps[a.app.clientId := a.app] else s.apps
  {
  }

  lemma OthersKeepTask(s: State, a: Action, id: nat)
    requires !ActsFor(a, id)
    ensures id in Step(s, a).tasks <==> id in s.tasks
    ensures id in s.tasks ==> Step(s, a).tasks[id] == s.tasks[id]
  {
  }

  lemma {:induction false} TaskStays(acts: seq<Action>, i: nat, j: nat, id: nat)
    requires i <= j <= |acts| && id in Run(acts[..i]).tasks && forall n :: i <= n < j ==> !ActsFor(acts[n], id)
    ensures id in Run(acts[..j]).tasks && Run(acts[..j]).tasks[id] == Run(acts[..i]).tasks[id]
    decreases j
  {
    hide Run;
    if i < j {
      TaskStays(acts, i, j - 1, id);
      assert acts[..j] == acts[..j - 1] + [acts[j - 1]];
      RunStep(acts[..j - 1], acts[j - 1]);
      OthersKeepTask(Run(acts[..j - 1]), acts[j - 1], id);
    }
  }

  lemma NextStep(acts: seq<Action>, i: nat)
    requires i < |acts|
    ensures Run(acts[..i + 1]) == Step(Run(acts[..i]), acts[i])
  {
    assert acts[..i + 1] == acts[..i] + [acts[i]];
    RunStep(acts[..i], acts[i]);
  }

  /** Task `id` goes through the actions of one exchange, in order, and through no other. */
  ghost predicate Exchanges(acts: seq<Action>, id: nat, r: Request, token: string, p: nat, v: nat, k: nat, c: nat, t: nat) {
    && p < v < k < c < t < |acts|
    && acts[p] == Present(id, r) && acts[v] == Validate(id) && acts[k] == Consume(id)
    && acts[c] == Check(id, token) && acts[t] == StoreToken(id)
    && id !in Run(acts[..p]).tasks && token !in Run(acts[..c]).used
    && forall j :: p < j < |acts| && j !in {v, k, c, t} ==> !ActsFor(acts[j], id)
  }

  /** What a presented and validated exchange has become. */
  lemma AfterValidation(acts: seq<Action>, id: nat, r: Request, token: string, p: nat, v: nat, k: nat, c: nat, t: nat)
    requires Exchanges(acts, id, r, token, p, v, k, c, t)
    ensures var s := Run(acts[..k]);
            && id in s.tasks
            && s.tasks[id] == if Registered(acts[..v], r.clientId, r.clientSecret) then Validated(r) else Failed(InvalidClient)
  {
    hide Run, Registered, Step, ActsFor;
    NextStep(acts, p);
    PresentIs(Run(acts[..p]), id, r);
    TaskStays(acts, p + 1, v, id);
    NextStep(acts, v);
    ValidateIs(Run(acts[..v]), id, r);
    RegisteredExactly(acts[..v], r.clientId, r.clientSecret);
    TaskStays(acts, v + 1, k, id);
  }

  lemma PresentIs(s: State, id: nat, r: Request)
    requires id !in s.tasks
    ensures id in Step(s, Present(id, r)).tasks && Step(s, Present(id, r)).tasks[id] == Presented(r)
  {
  }

  lemma ValidateIs(s: State, id: nat, r: Request)
    requires id in s.tasks && s.tasks[id] == Presented(r)
    ensures id in Step(s, Validate(id)).tasks
    ensures Step(s, Validate(id)).tasks[id] ==
            if ValidClient(s.apps, r.clientId, r.clientSecret) then Validated(r) else Failed(InvalidClient)
  {
  }

  /** What it has become once it has consumed. */
  lemma AfterConsumption(acts: seq<Action>, id: nat, r: Request, token: string, p: nat, v: nat, k: nat, c: nat, t: nat)
    requires Exchanges(acts, id, r, token, p, v, k, c, t)
    ensures var then_, s := Run(acts[..k]), Run(acts[..c]);
            && id in s.tasks
            && s.tasks[id] ==
               if !Registered(acts[..v], r.clientId, r.clientSecret) then Failed(InvalidClient)
               else if r.code !in then_.codes then Failed(UnknownCode)
               else if then_.now > then_.codes[r.code].createdAt + 600_000_000_000 then Failed(ExpiredCode)
               else Consumed(r, then_.codes[r.code])
  {
    hide Run, Registered, Step, ActsFor;
    AfterValidation(acts, id, r, token, p, v, k, c, t);
    NextStep(acts, k);
    if Registered(acts[..v], r.clientId, r.clientSecret) {
      ConsumeIs(Run(acts[..k]), id, r);
    } else {
      FailedIsFinal(Run(acts[..k]), id, token);
    }
    TaskStays(acts, k + 1, c, id);
  }

  lemma CheckIs(s: State, id: nat, r: Request, auth: AuthorizationCode, token: string)
    requires id in s.tasks && s.tasks[id] == Consumed(r, auth) && token !in s.used
    ensures var s' := Step(s, Check(id, token));
            && id in s'.tasks
            && s'.tasks[id] == if auth.clientId != r.clientId then Failed(WrongClient)
                               else if auth.redirectUri != r.redirectUri then Failed(WrongRedirect)
                               else Granting(r, auth, token)
  {
  }

  lemma StoreTokenIs(s: State, id: nat, r: Request, auth: AuthorizationCode, token: string)
    requires id in s.tasks && s.tasks[id] == Granting(r, auth, token)
    ensures var s' := Step(s, StoreToken(id));
            id in s'.tasks && s'.tasks[id] == Granted(token) && s'.tokens == s.tokens[token := auth.userId]
  {
  }

  /**
   In every interleaving an exchange grants its token exactly when the client's last registration carried the
   presented secret, the code was stored when it was consumed and at most 600 seconds old then, and it was
   generated for that client and redirect URI; the token is then its user's. Otherwise it fails for the first
   of these reasons.
   */
  lemma ExchangeOutcome(acts: seq<Action>, id: nat, r: Request, token: string, p: nat, v: nat, k: nat, c: nat, t: nat)
    requires Exchanges(acts, id, r, token, p, v, k, c, t)
    ensures id in Run(acts).tasks
    ensures var s := Run(acts[..k]);
            Run(acts).tasks[id] ==
            if !Registered(acts[..v], r.clientId, r.clientSecret) then Failed(InvalidClient)
            else if r.code !in s.codes then Failed(UnknownCode)
            else if s.now > s.codes[r.code].createdAt + 600_000_000_000 then Failed(ExpiredCode)
            else if s.codes[r.code].clientId != r.clientId then Failed(WrongClient)
            else if s.codes[r.code].redirectUri != r.redirectUri then Failed(WrongRedirect)
            else Granted(token)
    ensures Run(acts).tasks[id].Granted? ==>
            token in Run(acts[..t + 1]).tokens && Run(acts[..t + 1]).tokens[token] == Run(acts[..k]).codes[r.code].userId
  {
    hide Run, Registered, Step, ActsFor;
    AfterConsumption(acts, id, r, token, p, v, k, c, t);
    NextStep(acts, c);
    var s := Run(acts[..c]);
    if s.tasks[id].Consumed? {
      CheckIs(s, id, r, s.tasks[id].auth, token);
    } else {
      FailedIsFinal(s, id, token);
    }
    TaskStays(acts, c + 1, t, id);
    NextStep(acts, t);
    var s' := Run(acts[..t]);
    if s'.tasks[id].Granting? {
      StoreTokenIs(s', id, r, s'.tasks[id].auth, token);
    } else {
      FailedIsFinal(s', id, token);
    }
    TaskStays(acts, t + 1, |acts|, id);
    assert acts[..|acts|] == acts;
  }

  // ----- Which codes are stored -----

  /** Action `a`, of a validated exchange, takes `code` out of the store. */
  ghost predicate Takes(s: State, a: Action, code: string) {
    a.Consume? && a.id in s.tasks && s.tasks[a.id].Validated? && s.tasks[a.id].r.code == code
  }

  /** Action `m` generated the code and has not yet stored it. */
  ghost predicate Pending(acts: seq<Action>, m: nat, id: nat, auth: AuthorizationCode) {
    MintedAt(acts, m, auth) && acts[m].id == id && forall j :: m < j < |acts| ==> acts[j] != StoreCode(id)
  }

  /** Action `m` generated the code, action `n` stored it, and nothing took it out since. */
  ghost predicate PutAndLeft(acts: seq<Action>, m: nat, n: nat, code: string) {
    && m < n < |acts| && acts[n].StoreCode?
    && (exists auth: AuthorizationCode :: auth.code == code && Pending(acts[..n], m, acts[n].id, auth))
    && forall j :: n < j < |acts| ==> !Takes(Run(acts[..j]), acts[j], code)
  }

  lemma CodesStep(s: State, a: Action, code: string)
    requires Exclusive(s)
    ensures code in Step(s, a).codes <==>
            || (code in s.codes && !Takes(s, a, code))
            || (a.StoreCode? && a.id in s.tasks && s.tasks[a.id].Minting? && s.tasks[a.id].auth.code == code)
  {
  }

  lemma MintingStep(s: State, a: Action, id: nat, auth: AuthorizationCode)
    ensures id in Step(s, a).tasks && Step(s, a).tasks[id] == Minting(auth) <==>
            || (id in s.tasks && s.tasks[id] == Minting(auth) && a != StoreCode(id))
            || (&& a.Mint? && a.id == id && id !in s.tasks && a.code !in s.used
                && auth == AuthorizationCode(a.code, a.clientId, a.redirectUri, a.userId, a.scope, s.now))
  {
  }

  /** A task is minting a code exactly while it has generated and not stored it. */
  lemma {:induction false} MintingIsPending(acts: seq<Action>, id: nat, auth: AuthorizationCode)
    ensures id in Run(acts).tasks && Run(acts).tasks[id] == Minting(auth) <==> exists m: nat :: Pending(acts, m, id, auth)
  {
    if acts == [] {
      assert !exists m: nat :: Pending(acts, m, id, auth);
    } else {
      var n := |acts| - 1;
      var front, a := acts[..n], acts[n];
      MintingIsPending(front, id, auth);
      MintingStep(Run(front), a, id, auth);
      assert Run(acts) == Step(Run(front), a);
      hide Run, Step;
      forall m: nat | m < n ensures Pending(acts, m, id, auth) <==> Pending(front, m, id, auth) && a != StoreCode(id) {
        assert front[..m] == acts[..m];
      }
      assert Pending(acts, n, id, auth) <==> MintedAt(acts, n, auth) && a.id == id;
    }
  }

  /** A code is stored exactly when it was generated, then stored, and no validated exchange consumed it since. */
  lemma {:induction false} StoredExactly(acts: seq<Action>, code: string)
    ensures code in Run(acts).codes <==> exists m: nat, n: nat :: PutAndLeft(acts, m, n, code)
  {
    if acts == [] {
      assert !exists m: nat, n: nat :: PutAndLeft(acts, m, n, code);
    } else {
      var last := |acts| - 1;
      var front, a := acts[..last], acts[last];
      StoredExactly(front, code);
      RunIsExclusive(front);
      CodesStep(Run(front), a, code);
      assert Run(acts) == Step(Run(front), a);
      hide Run, Step, Exclusive, Takes, Pending;
      forall m: nat, n: nat | n < last
        ensures PutAndLeft(acts, m, n, code) <==> PutAndLeft(front, m, n, code) && !Takes(Run(front), a, code)
      {
        LeftStep(acts, m, n, code);
      }
      PutLast(acts, code);
    }
  }

  lemma LeftStep(acts: seq<Action>, m: nat, n: nat, code: string)
    requires n < |acts| - 1
    ensures var last := |acts| - 1;
            PutAndLeft(acts, m, n, code) <==> PutAndLeft(acts[..last], m, n, code) && !Takes(Run(acts[..last]), acts[last], code)
  {
    hide Run, Takes, Pending;
    var front := acts[..|acts| - 1];
    assert front[..n] == acts[..n];
    assert forall j :: 0 <= j < |front| ==> front[..j] == acts[..j];
  }

  /** The last action stores the code exactly when its task had it pending. */
  lemma PutLast(acts: seq<Action>, code: string)
    requires acts != []
    ensures var n := |acts| - 1; var s, a := Run(acts[..n]), acts[n];
            (exists m: nat :: PutAndLeft(acts, m, n, code)) <==>
            a.StoreCode? && a.id in s.tasks && s.tasks[a.id].Minting? && s.tasks[a.id].auth.code == code
  {
    hide Run, Pending;
    var n := |acts| - 1;
    var front, a := acts[..n], acts[n];
    if a.StoreCode? && a.id in Run(front).tasks && Run(front).tasks[a.id].Minting? {
      var auth := Run(front).tasks[a.id].auth;
      MintingIsPending(front, a.id, auth);
      var m: nat :| Pending(front, m, a.id, auth);
      PendingBounds(front, m, a.id, auth);
      assert auth.code == code ==> PutAndLeft(acts, m, n, code);
    }
    forall m: nat | PutAndLeft(acts, m, n, code)
      ensures a.StoreCode? && a.id in Run(front).tasks
      ensures Run(front).tasks[a.id].Minting? && Run(front).tasks[a.id].auth.code == code
    {
      var auth: AuthorizationCode :| auth.code == code && Pending(front, m, a.id, auth);
      MintingIsPending(front, a.id, auth);
    }
  }

  lemma PendingBounds(acts: seq<Action>, m: nat, id: nat, auth: AuthorizationCode)
    requires Pending(acts, m, id, auth)
    ensures m < |acts| && acts[m].Mint? && acts[m].id == id && acts[m].code == auth.code
  {
  }

  // ----- Which tokens are live -----

  /** Action `a` stores `token`. */
  ghost predicate Stores(s: State, a: Action, token: string) {
    a.StoreToken? && a.id in s.tasks && s.tasks[a.id].Granting? && s.tasks[a.id].token == token
  }

  /** Action `k` stored `token` for `userId`. */
  ghost predicate StoredAt(acts: seq<Action>, k: nat, token: string, userId: string) {
    k < |acts| && Stores(Run(acts[..k]), acts[k], token) && Run(acts[..k]).tasks[acts[k].id].auth.userId == userId
  }

  /** Action `k` stored or revoked `token`. */
  ghost predicate Touches(acts: seq<Action>, k: nat, token: string)
    requires k < |acts|
  {
    acts[k] == Revoke(token) || Stores(Run(acts[..k]), acts[k], token)
  }

  /** Action `k` stored `token` for `userId`, and no later one revoked it or stored it again. */
  ghost predicate StoredAndKept(acts: seq<Action>, k: nat, token: string, userId: string) {
    StoredAt(acts, k, token, userId) && forall j :: k < j < |acts| ==> !Touches(acts, j, token)
  }

  /** What `GetToken` answers. */
  function UserOf(tokens: map<string, string>, token: string): Option<string> {
    if token in tokens then Some(tokens[token]) else None
  }

  /** In every interleaving, a token is answered with a user exactly when an exchange stored it for them and it was not revoked since. */
  lemma {:induction false} LiveTokens(acts: seq<Action>, token: string, userId: string)
    ensures UserOf(Run(acts).tokens, token) == Some(userId) <==> exists k: nat :: StoredAndKept(acts, k, token, userId)
  {
    if acts == [] {
      assert !exists k: nat :: StoredAndKept(acts, k, token, userId);
    } else {
      var n := |acts| - 1;
      var front, a := acts[..n], acts[n];
      LiveTokens(front, token, userId);
      TokensStep(Run(front), a, token);
      hide Step, Run, Stores, Touches;
      KeptStep(acts, token, userId);
      assert StoredAndKept(acts, n, token, userId) <==> StoredAt(acts, n, token, userId);
    }
  }

  lemma KeptStep(acts: seq<Action>, token: string, userId: string)
    requires acts != []
    ensures var n := |acts| - 1;
            forall k: nat :: k < n ==>
              (StoredAndKept(acts, k, token, userId) <==> StoredAndKept(acts[..n], k, token, userId) && !Touches(acts, n, token))
  {
    hide Run, Stores;
    var n := |acts| - 1;
    forall j: nat | j < n
      ensures Touches(acts, j, token) <==> Touches(acts[..n], j, token)
      ensures StoredAt(acts, j, token, userId) <==> StoredAt(acts[..n], j, token, userId)
    {
      assert acts[..j] == acts[..n][..j];
    }
  }

  lemma TokensStep(s: State, a: Action, token: string)
    ensures UserOf(Step(s, a).tokens, token) ==
            if a == Revoke(token) then None
            else if Stores(s, a, token) then Some(s.tasks[a.id].auth.userId)
            else UserOf(s.tokens, token)
  {
  }

  /** Tokens never expire: while nothing stores or revokes it, a token is answered alike, however much time passes. */
  lemma {:induction false} TokensNeverExpire(acts: seq<Action>, later: seq<Action>, token: string)
    requires forall k :: |acts| <= k < |acts + later| ==> !Touches(acts + later, k, token)
    ensures UserOf(Run(acts + later).tokens, token) == UserOf(Run(acts).tokens, token)
    decreases |later|
  {
    hide Run, Stores;
    var all, n := acts + later, |later| - 1;
    if later == [] {
      assert all == acts;
    } else {
      var front := acts + later[..n];
      assert all == front + [later[n]] && all[..|front|] == front;
      forall k | |acts| <= k < |front| ensures !Touches(front, k, token) {
        assert !Touches(all, k, token) && all[..k] == front[..k];
      }
      TokensNeverExpire(acts, later[..n], token);
      RunStep(front, later[n]);
      assert !Touches(all, |front|, token);
      TokensStep(Run(front), later[n], token);
    }
  }

  // ----- What one exchange does to the code store -----

  /** A code that left the store: no task can put it back. */
  ghost predicate TakenOut(s: State, code: string) {
    code in s.used && code !in s.codes && forall id :: id in s.tasks && s.tasks[id].Minting? ==> s.tasks[id].auth.code != code
  }

  lemma TakenOutStays(s: State, a: Action, code: string)
    requires TakenOut(s, code)
    ensures TakenOut(Step(s, a), code)
  {
  }

  lemma {:induction false} TakenOutForever(acts: seq<Action>, i: nat, code: string)
    requires i <= |acts| && TakenOut(Run(acts[..i]), code)
    ensures TakenOut(Run(acts), code)
  {
    if i == |acts| {
      assert acts[..i] == acts;
    } else {
      var front := acts[..|acts| - 1];
      assert front[..i] == acts[..i];
      TakenOutForever(front, i, code);
      TakenOutStays(Run(front), acts[|acts| - 1], code);
    }
  }

  /** Once a validated exchange has presented a stored code, the code is out of the store for good, whatever comes of the exchange. */
  lemma PresentedCodeIsGone(acts: seq<Action>, k: nat, j: nat)
    requires k < j <= |acts| && acts[k].Consume?
    requires var s := Run(acts[..k]); acts[k].id in s.tasks && s.tasks[acts[k].id].Validated? && s.tasks[acts[k].id].r.code in s.codes
    ensures Run(acts[..k]).tasks[acts[k].id].r.code !in Run(acts[..j]).codes
  {
    var s, code := Run(acts[..k]), Run(acts[..k]).tasks[acts[k].id].r.code;
    RunIsExclusive(acts[..k]);
    forall id | id in s.tasks && s.tasks[id].Minting? ensures s.tasks[id].auth.code != code {
      assert Holds(s, id, s.tasks[id].auth.code);
    }
    assert acts[..k + 1] == acts[..k] + [acts[k]];
    RunStep(acts[..k], acts[k]);
    assert acts[..j][..k + 1] == acts[..k + 1];
    TakenOutForever(acts[..j], k + 1, code);
  }

  predicate ActsFor(a: Action, id: nat) {
    match a
    case Tick(_) => false
    case Register(_) => false
    case Revoke(_) => false
    case _ => a.id == id
  }

  /** An exchange that has not passed client validation, and will not. */
  ghost predicate Unvalidated(s: State, id: nat) {
    id in s.tasks ==> s.tasks[id].Presented? || s.tasks[id] == Failed(InvalidClient)
  }

  /** An exchange that fails client validation changes neither store at any of its steps. */
  lemma {:induction false} RejectedClientTouchesNothing(acts: seq<Action>, id: nat, i: nat)
    requires id in Run(acts).tasks && Unvalidated(Run(acts), id)
    requires i < |acts| && ActsFor(acts[i], id)
    ensures Run(acts[..i + 1]).codes == Run(acts[..i]).codes && Run(acts[..i + 1]).tokens == Run(acts[..i]).tokens
  {
    UnvalidatedBefore(acts, id, i);
    UnvalidatedBefore(acts, id, i + 1);
    assert acts[..i + 1] == acts[..i] + [acts[i]];
    RunStep(acts[..i], acts[i]);
  }

  lemma TasksPersist(s: State, a: Action, id: nat)
    requires id in s.tasks
    ensures id in Step(s, a).tasks
  {
  }

  lemma {:induction false} UnvalidatedBefore(acts: seq<Action>, id: nat, i: nat)
    requires Unvalidated(Run(acts), id) && i <= |acts|
    ensures Unvalidated(Run(acts[..i]), id)
  {
    if i == |acts| {
      assert acts[..i] == acts;
    } else {
      var front, a := acts[..|acts| - 1], acts[|acts| - 1];
      assert front[..i] == acts[..i];
      if id in Run(front).tasks { TasksPersist(Run(front), a, id); }
      hide Step;
      if id in Run(front).tasks && Run(front).tasks[id] != Run(acts).tasks[id] {
        StepMoves(Run(front), a, id);
      }
      UnvalidatedBefore(front, id, i);
    }
  }

  lemma PresentAndValidate(s: State, id: nat, r: Request)
    requires id !in s.tasks
    ensures Step(Step(s, Present(id, r)), Validate(id)) ==
            s.(tasks := s.tasks[id := if ValidClient(s.apps, r.clientId, r.clientSecret) then Validated(r)
                                      else Failed(InvalidClient)])
  {
  }

  lemma FailedIsFinal(s: State, id: nat, token: string)
    requires id in s.tasks && s.tasks[id].Failed?
    ensures Step(s, Consume(id)) == s && Step(s, Check(id, token)) == s && Step(s, StoreToken(id)) == s
  {
  }

  lemma ConsumeIs(s: State, id: nat, r: Request)
    requires id in s.tasks && s.tasks[id] == Validated(r)
    ensures Step(s, Consume(id)) ==
            s.(codes := s.codes - {r.code},
               tasks := s.tasks[id := match Redeem(s.codes, r.code, s.now)
                                      case Ok(auth) => Consumed(r, auth)
                                      case Err(e) => Failed(e)])
  {
  }

  lemma CheckAndStore(s: State, id: nat, r: Request, auth: AuthorizationCode, token: string)
    requires id in s.tasks && s.tasks[id] == Consumed(r, auth) && token !in s.used
    ensures var s' := Step(Step(s, Check(id, token)), StoreToken(id));
            && s'.codes == s.codes && id in s'.tasks
            && match Mismatch(auth, r)
               case Some(e) => s'.tokens == s.tokens && s'.tasks[id] == Failed(e)
               case None => s'.tokens == s.tokens[token := auth.userId] && s'.tasks[id] == Granted(token)
  {
    hide Mismatch;
    var checked := Step(s, Check(id, token));
    if Mismatch(auth, r).Some? { FailedIsFinal(checked, id, token); }
  }

  /** The steps of one exchange, run back to back, do what `ExchangeCode` promises. */
  lemma UninterruptedExchange(s: State, id: nat, r: Request, token: string) returns (result: Result<AccessToken, Error>)
    requires id !in s.tasks && token !in s.used
    ensures var s' := Step(Step(Step(Step(Step(s, Present(id, r)), Validate(id)), Consume(id)), Check(id, token)), StoreToken(id));
            && Exchanged(s.apps, s.codes, s.tokens, s.now, r, token, s'.codes, s'.tokens, result)
            && id in s'.tasks && s'.tasks[id] == (if result.Ok? then Granted(token) else Failed(result.error))
  {
    hide Step;
    PresentAndValidate(s, id, r);
    var validated := Step(Step(s, Present(id, r)), Validate(id));
    if !ValidClient(s.apps, r.clientId, r.clientSecret) {
      FailedIsFinal(validated, id, token);
      return Err(InvalidClient);
    }
    ConsumeIs(validated, id, r);
    var consumed := Step(validated, Consume(id));
    var redeemed := Redeem(s.codes, r.code, s.now);
    if redeemed.Err? {
      FailedIsFinal(consumed, id, token);
      return Err(redeemed.error);
    }
    CheckAndStore(consumed, id, r, redeemed.value, token);
    var mismatch := Mismatch(redeemed.value, r);
    return if mismatch.Some? then Err(mismatch.value)
           else Ok(AccessToken(token, "Bearer", 3600, None, redeemed.value.scope));
  }
}
