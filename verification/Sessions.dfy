/**
 Sessions: the in-memory store and the login and logout handlers as classes, and the store as a
 transition system in which the handlers' accesses to it interleave.
 */
module Sessions {
  import opened Wrappers
  import opened Cookies

  const SESSION_KEY_USER_ID := "_auth_user_id"

  /** JSON values; only text matters here. */
  datatype Json = Text(text: string) | Other(raw: string)

  type Data = map<string, Json>

  class Session {
    var data: Data

    constructor ()
      ensures data == map[]
    {
      data := map[];
    }

    method Set(key: string, value: Json)
      modifies this
      ensures data == old(data)[key := value]
    {
      data := data[key := value];
    }
  }

  /** What a store that holds `sessions` answers for an id. */
  function Loaded(sessions: map<string, Data>, id: string): Option<Data> {
    if id in sessions then Some(sessions[id]) else None
  }

  class InMemorySessionStore {
    var sessions: map<string, Data>

    constructor ()
      ensures sessions == map[]
    {
      sessions := map[];
    }

    method Load(id: string) returns (r: Option<Data>)
      ensures r == Loaded(sessions, id)
    {
      return if id in sessions then Some(sessions[id]) else None;
    }

    /** Stores a copy: later changes to `session` do not reach the store. */
    method Save(id: string, session: Session)
      modifies this
      ensures sessions == old(sessions)[id := session.data]
    {
      sessions := sessions[id := session.data];
    }

    method Delete(id: string)
      modifies this
      ensures sessions == old(sessions) - {id}
    {
      sessions := sessions - {id};
    }
  }

  // ----- Runs of store accesses -----

  /** One access to the store by a handler: a presented session is deleted, a new one created. */
  datatype Step = Delete(id: string) | Create(id: string, user: string)

  function UserData(user: string): Data {
    map[SESSION_KEY_USER_ID := Text(user)]
  }

  function Apply(sessions: map<string, Data>, step: Step): map<string, Data> {
    match step
    case Delete(id) => sessions - {id}
    case Create(id, user) => sessions[id := UserData(user)]
  }

  function RunFrom(sessions: map<string, Data>, steps: seq<Step>): map<string, Data> {
    if steps == [] then sessions else Apply(RunFrom(sessions, steps[..|steps| - 1]), steps[|steps| - 1])
  }

  /** The store after a run that starts from an empty one. */
  function Run(steps: seq<Step>): map<string, Data> {
    RunFrom(map[], steps)
  }

  /** What a login does to the store: the presented session goes, before the new one comes. */
  function LoginSteps(cookie: Option<string>, user: Option<string>, id: string): seq<Step> {
    if user.None? then [] else LogoutSteps(cookie) + [Create(id, user.value)]
  }

  function LogoutSteps(cookie: Option<string>): seq<Step> {
    match ExtractSessionId(cookie)
    case None => []
    case Some(presented) => [Delete(presented)]
  }

  // ----- The handlers -----

  datatype Response = Response(status: nat, setCookie: Option<string>, success: bool)

  class LoginHandler {
    const store: InMemorySessionStore

    constructor (store: InMemorySessionStore)
      ensures this.store == store
    {
      this.store := store;
    }

    /** `id` is the identifier the store draws. */
    method PerformLogin(user: string, id: string) returns (cookie: string)
      modifies store
      ensures store.sessions == Apply(old(store.sessions), Create(id, user)) && cookie == LoginCookie(id)
    {
      var session := new Session();
      session.Set(SESSION_KEY_USER_ID, Text(user));
      assert session.data == UserData(user);
      store.Save(id, session);
      cookie := LoginCookie(id);
    }

    /** `user` is what the backend makes of the request, its errors counting as no user. */
    method Handle(cookie: Option<string>, user: Option<string>, id: string) returns (r: Response)
      modifies store
      ensures store.sessions == RunFrom(old(store.sessions), LoginSteps(cookie, user, id))
      ensures r == if user.Some? then Response(200, Some(LoginCookie(id)), true) else Response(401, None, false)
      ensures user.Some? ==> r.setCookie == Some("sessionid" + "=" + id + ";" + " HttpOnly; Secure; Path=/; SameSite=Lax")
    {
      CookiesAsWritten(id);
      hide LoginCookie;
      if user.None? {
        return Response(401, None, false);
      }
      var presented := ExtractSessionId(cookie);
      ghost var before := store.sessions;
      if presented.Some? {
        store.Delete(presented.value);
      }
      var setCookie := PerformLogin(user.value, id);
      LoginStepsRun(before, cookie, user.value, id);
      return Response(200, Some(setCookie), true);
    }
  }

  class LogoutHandler {
    const store: InMemorySessionStore

    constructor (store: InMemorySessionStore)
      ensures this.store == store
    {
      this.store := store;
    }

    method Handle(cookie: Option<string>) returns (r: Response)
      modifies store
      ensures store.sessions == RunFrom(old(store.sessions), LogoutSteps(cookie))
      ensures r == Response(200, Some(LogoutCookie()), true)
      ensures r.setCookie == Some("sessionid" + "=; HttpOnly; Path=/; Max-Age=0")
    {
      CookiesAsWritten("");
      hide LogoutCookie;
      var id := ExtractSessionId(cookie);
      ghost var before := store.sessions;
      if id.Some? {
        store.Delete(id.value);
        LogoutStepsRun(before, cookie);
      }
      return Response(200, Some(LogoutCookie()), true);
    }
  }

  lemma RunStep(sessions: map<string, Data>, steps: seq<Step>, step: Step)
    ensures RunFrom(sessions, steps + [step]) == Apply(RunFrom(sessions, steps), step)
    ensures RunFrom(sessions, []) == sessions
  {
  }

  /** The sessions without the presented one. */
  function Without<V>(sessions: map<string, V>, presented: Option<string>): map<string, V> {
    match presented
    case None => sessions
    case Some(id) => sessions - {id}
  }

  lemma LogoutStepsRun(sessions: map<string, Data>, cookie: Option<string>)
    ensures RunFrom(sessions, LogoutSteps(cookie)) == Without(sessions, ExtractSessionId(cookie))
  {
  }

  lemma LoginStepsRun(sessions: map<string, Data>, cookie: Option<string>, user: string, id: string)
    ensures RunFrom(sessions, LoginSteps(cookie, Some(user), id)) ==
            Apply(Without(sessions, ExtractSessionId(cookie)), Create(id, user))
  {
    hide ExtractSessionId, RunFrom, LogoutSteps, Without, Apply;
    LogoutStepsRun(sessions, cookie);
    RunStep(sessions, LogoutSteps(cookie), Create(id, user));
  }

  // ----- Safety of every run -----

  /** The store draws an identifier no login got before. */
  ghost predicate FreshIds(steps: seq<Step>) {
    forall j, k :: 0 <= j < k < |steps| && steps[j].Create? && steps[k].Create? ==> steps[j].id != steps[k].id
  }

  ghost predicate CreatedAndKept(steps: seq<Step>, k: nat, id: string)
    requires k < |steps|
  {
    steps[k].Create? && steps[k].id == id && forall j :: k < j < |steps| ==> steps[j] != Delete(id)
  }

  /** A session is live exactly when some login created it and nothing deleted it since. */
  lemma {:induction false} LiveSessions(steps: seq<Step>, id: string)
    ensures id in Run(steps) <==> exists k :: 0 <= k < |steps| && CreatedAndKept(steps, k, id)
  {
    if steps != [] {
      var n := |steps| - 1;
      var before, step := steps[..n], steps[n];
      LiveSessions(before, id);
      assert forall j :: 0 <= j < n ==> before[j] == steps[j];
      if step.Create? && step.id == id {
        assert CreatedAndKept(steps, n, id);
      } else if step != Delete(id) {
        forall k | 0 <= k < n ensures CreatedAndKept(before, k, id) <==> CreatedAndKept(steps, k, id) {}
      }
    }
  }

  /** Each live session holds the user of the one login that created it, and nothing else. */
  lemma {:induction false} SessionsHoldTheirUser(steps: seq<Step>, k: nat)
    requires FreshIds(steps) && k < |steps| && steps[k].Create? && steps[k].id in Run(steps)
    ensures Run(steps)[steps[k].id] == UserData(steps[k].user) == map["_auth_user_id" := Text(steps[k].user)]
  {
    var n := |steps| - 1;
    var before := steps[..n];
    if k < n {
      assert before[k] == steps[k];
      SessionsHoldTheirUser(before, k);
    }
  }

  /** Loading an id gives a user exactly when a login created that session for them and nothing deleted it since. */
  lemma LoadsItsLogin(steps: seq<Step>, id: string, user: string)
    requires FreshIds(steps)
    ensures Loaded(Run(steps), id) == Some(UserData(user)) <==>
            exists k :: 0 <= k < |steps| && CreatedAndKept(steps, k, id) && steps[k].user == user
  {
    LiveSessions(steps, id);
    hide Run;
    forall k | 0 <= k < |steps| && CreatedAndKept(steps, k, id)
      ensures id in Run(steps) && Run(steps)[id] == UserData(steps[k].user)
    {
      SessionsHoldTheirUser(steps, k);
    }
    assert forall u, v :: UserData(u) == UserData(v) ==> UserData(u)[SESSION_KEY_USER_ID].text == UserData(v)[SESSION_KEY_USER_ID].text;
  }

  /** A session that was deleted never comes back. */
  lemma InvalidatedForGood(steps: seq<Step>, k: nat, j: nat)
    requires FreshIds(steps) && k < j < |steps| && steps[k].Create? && steps[j] == Delete(steps[k].id)
    ensures steps[k].id !in Run(steps)
  {
    LiveSessions(steps, steps[k].id);
    forall i | 0 <= i < |steps| ensures !CreatedAndKept(steps, i, steps[k].id) {
      assert i == k || !steps[i].Create? || steps[i].id != steps[k].id;
    }
  }

  lemma {:induction false} RunAppend(sessions: map<string, Data>, a: seq<Step>, b: seq<Step>)
    ensures RunFrom(sessions, a + b) == RunFrom(RunFrom(sessions, a), b)
  {
    if b == [] {
      assert a + b == a;
    } else {
      RunAppend(sessions, a, b[..|b| - 1]);
      assert (a + b)[..|a + b| - 1] == a + b[..|b| - 1];
    }
  }

  function Gone(presented: Option<string>): set<string> {
    if presented.Some? then {presented.value} else {}
  }

  /** `after` is `before` without the presented session and with one more, which was not there. */
  ghost predicate Replaced<V>(before: map<string, V>, presented: Option<string>, id: string, data: V, after: map<string, V>) {
    var gone := Gone(presented);
    && id !in before
    && after.Keys == before.Keys - gone + {id}
    && |after.Keys| == |before.Keys| + (if presented.Some? && presented.value in before then 0 else 1)
    && after[id] == data
    && (forall other :: other in after && other != id ==> after[other] == before[other])
    && (presented.Some? && presented.value != id ==> presented.value !in after)
  }

  /** A login removes the presented session, adds exactly one, and leaves all others alone. */
  lemma LoginReplacesOne(steps: seq<Step>, cookie: Option<string>, user: string, id: string)
    requires FreshIds(steps + [Create(id, user)])
    ensures Replaced(Run(steps), ExtractSessionId(cookie), id, UserData(user),
                     Run(steps + LoginSteps(cookie, Some(user), id)))
  {
    hide *;
    FreshIdIsDead(steps, user, id);
    RunAppend(map[], steps, LoginSteps(cookie, Some(user), id));
    LoginStepsRun(Run(steps), cookie, user, id);
    RunUnfolds(steps, cookie, user, id);
    ReplacedBy(Run(steps), ExtractSessionId(cookie), id, UserData(user));
  }

  lemma FreshIdIsDead(steps: seq<Step>, user: string, id: string)
    requires FreshIds(steps + [Create(id, user)])
    ensures id !in Run(steps)
  {
    var all := steps + [Create(id, user)];
    LiveSessions(steps, id);
    assert all[|steps|] == Create(id, user);
    forall k | 0 <= k < |steps| ensures !CreatedAndKept(steps, k, id) {
      assert all[k] == steps[k];
    }
  }

  lemma RunUnfolds(steps: seq<Step>, cookie: Option<string>, user: string, id: string)
    ensures Run(steps) == RunFrom(map[], steps)
    ensures Run(steps + LoginSteps(cookie, Some(user), id)) == RunFrom(map[], steps + LoginSteps(cookie, Some(user), id))
    ensures forall sessions :: Apply(sessions, Create(id, user)) == sessions[id := UserData(user)]
  {
  }

  lemma ReplacedBy<V>(before: map<string, V>, presented: Option<string>, id: string, data: V)
    requires id !in before
    ensures Replaced(before, presented, id, data, Without(before, presented)[id := data])
  {
    hide *;
    KeyCount(before.Keys, presented, id);
    WithoutFacts(before, presented);
    var less := Without(before, presented);
    var after := less[id := data];
    UpdateFacts(less, id, data);
    ReplacedFrom(before, presented, id, data, after);
  }

  lemma UpdateFacts<V>(m: map<string, V>, id: string, data: V)
    ensures var after := m[id := data];
            && after.Keys == m.Keys + {id} && id in after && after[id] == data
            && forall other :: other in after && other != id ==> other in m && after[other] == m[other]
  {
  }

  lemma ReplacedFrom<V>(before: map<string, V>, presented: Option<string>, id: string, data: V, after: map<string, V>)
    requires id !in before && after.Keys == before.Keys - Gone(presented) + {id}
    requires |after.Keys| == |before.Keys| + if presented.Some? && presented.value in before then 0 else 1
    requires id in after && after[id] == data
    requires forall other :: other in after && other != id ==> other in before && after[other] == before[other]
    ensures Replaced(before, presented, id, data, after)
  {
  }

  lemma WithoutFacts<V>(before: map<string, V>, presented: Option<string>)
    ensures Without(before, presented).Keys == before.Keys - Gone(presented)
    ensures forall other :: other in Without(before, presented) ==> Without(before, presented)[other] == before[other]
    ensures forall other :: other in Gone(presented) <==> presented == Some(other)
  {
  }

  lemma KeyCount(keys: set<string>, presented: Option<string>, id: string)
    requires id !in keys
    ensures |keys - Gone(presented) + {id}| == |keys| + if presented.Some? && presented.value in keys then 0 else 1
  {
    if presented.Some? && presented.value in keys {
      assert keys == (keys - Gone(presented)) + {presented.value};
    } else {
      assert keys - Gone(presented) == keys;
    }
  }

  lemma ExtractedIs(id: string, cookie: Option<string>)
    requires ExtractSessionId(cookie) == Some(id)
    ensures LogoutSteps(cookie) == [Delete(id)]
  {
    hide ExtractSessionId;
  }

  /**
   Whoever sends back the cookie of a login, among any others, and logs out ends that session for good,
   whatever ran before, in between and after.
   */
  lemma LogoutEndsLogin(steps: seq<Step>, k: nat, before: seq<Pair>, after: seq<Pair>, later: seq<Step>)
    requires k < |steps| && steps[k].Create? && Pair(SESSION_COOKIE_NAME, steps[k].id).Valid()
    requires forall p :: p in before || p in after ==> p.Valid()
    requires forall p :: p in before ==> p.name != SESSION_COOKIE_NAME
    ensures var kept := StoredPair(LoginCookie(steps[k].id));
            && kept.Some?
            && var run := steps + LogoutSteps(Some(CookieList(before + [kept.value] + after))) + later;
               FreshIds(run) ==> steps[k].id !in Run(run)
  {
    LoginRoundTrip(steps[k].id, before, after);
    hide ExtractSessionId, StoredPair, LoginCookie, CookieList, Run, LogoutSteps;
    var kept := StoredPair(LoginCookie(steps[k].id)).value;
    var run := steps + LogoutSteps(Some(CookieList(before + [kept] + after))) + later;
    ExtractedIs(steps[k].id, Some(CookieList(before + [kept] + after)));
    assert run[k] == steps[k] && run[|steps|] == Delete(steps[k].id);
    if FreshIds(run) { InvalidatedForGood(run, k, |steps|); }
  }
}
