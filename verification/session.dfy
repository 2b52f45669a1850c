/** The account's login state (steam-inventory-manager/classes/account.py):
    the password setter, restoring a cached session, logging in with a
    Steam Guard code, and writing the session back to the cache. Each
    operation returns the account as the source leaves it (also when it
    raises part-way), the outcome, and the requests it made. */
module Session {
  import opened Wrappers
  import opened Errors
  import opened Text
  import opened Cookies
  import opened Effects
  import Items
  import SteamGuard

  datatype Account = Account(
    username: string,
    password: string,
    sharedSecret: string,
    identitySecret: Option<string>,
    loggedIn: bool,
    steamId64: Option<int>,
    sessionIdField: Option<string>,
    jar: Jar,
    confirmations: map<int, Items.TradeConfirmation>)

  /** A freshly constructed account: logged out, nothing known about the session. */
  function NewAccount(username: string, password: string, sharedSecret: string, identitySecret: Option<string>)
    : Account
  {
    Account(username, password, sharedSecret, identitySecret, false, None, None, [], map[])
  }

  /** The `session_id` property. It returns the shared secret, not the
      session id the account keeps; every "sessionid" cookie and form field
      the source sends therefore carries the shared secret. */
  function SessionId(a: Account): string {
    a.sharedSecret
  }

  const SessionIdCookie := "sessionid"
  const LoginSecureCookie := "steamLoginSecure"
  /** The profile page redirects here when the session is not logged in. */
  const LoginPage := "login/home"

  /** Python truthiness of an optional string / integer. */
  predicate Truthy(s: Option<string>) {
    s.Some? && s.value != ""
  }

  predicate TruthyId(i: Option<int>) {
    i.Some? && i.value != 0
  }

  /** The account's identity and secrets, which no operation here changes. */
  predicate SameCredentials(a: Account, b: Account) {
    && a.username == b.username
    && a.password == b.password
    && a.sharedSecret == b.sharedSecret
    && a.identitySecret == b.identitySecret
  }

  // ---------------------------------------------------------------------------
  // password setter
  // ---------------------------------------------------------------------------

  /** The password setter: ignored while logged in. */
  function SetPassword(a: Account, newPassword: string): (r: Account)
    ensures a.loggedIn ==> r == a
    ensures !a.loggedIn ==> r.password == newPassword && r.(password := a.password) == a
  {
    if a.loggedIn then a else a.(password := newPassword)
  }

  /** While logged in, any series of password changes leaves the account as it was. */
  lemma {:induction false} PasswordFrozenWhileLoggedIn(a: Account, passwords: seq<string>)
    requires a.loggedIn
    ensures SetPasswords(a, passwords) == a
    decreases |passwords|
  {
    if |passwords| > 0 {
      PasswordFrozenWhileLoggedIn(SetPassword(a, passwords[0]), passwords[1..]);
    }
  }

  function SetPasswords(a: Account, passwords: seq<string>): Account
    decreases |passwords|
  {
    if |passwords| == 0 then a else SetPasswords(SetPassword(a, passwords[0]), passwords[1..])
  }

  // ---------------------------------------------------------------------------
  // _restore_session
  // ---------------------------------------------------------------------------

  /** `_restore_session`, given what the cache holds (`None` for a missing,
      unreadable or empty record) and the URL the profile page ends up at. */
  function RestoreSession(a: Account, cached: Option<CacheRecord>, probeUrl: string)
    : (r: (Account, seq<Effect>))
    ensures SameCredentials(r.0, a) && r.0.confirmations == a.confirmations
    ensures r.0.loggedIn <==> a.loggedIn || (cached.Some? && !Contains(probeUrl, LoginPage))
    ensures cached.None? ==> r == (a, [CacheRead(a.username)])
    ensures cached.Some? ==> r.1 == [CacheRead(a.username), SessionProbe]
    ensures cached.Some? && TruthyId(cached.value.steamId64) ==> r.0.steamId64 == cached.value.steamId64
    ensures cached.None? || !TruthyId(cached.value.steamId64) ==> r.0.steamId64 == a.steamId64
    ensures forall n, d :: (n != SessionIdCookie && n != LoginSecureCookie) || d !in SteamDomains ==>
      Get(r.0.jar, n, d) == Get(a.jar, n, d)
  {
    match cached
    case None => (a, [CacheRead(a.username)])
    case Some(c) =>
      var a1 := if Truthy(c.sessionId)
        then a.(sessionIdField := c.sessionId, jar := Transfer(a.jar, SessionIdCookie, SessionId(a)))
        else a;
      var a2 := if TruthyId(c.steamId64) then a1.(steamId64 := c.steamId64) else a1;
      TransferKeepsOthers(a.jar, SessionIdCookie, SessionId(a));
      TransferKeepsOthers(a2.jar, LoginSecureCookie, c.steamLoginSecure.GetOr(""));
      var a3 := if Truthy(c.steamLoginSecure)
        then a2.(jar := Transfer(a2.jar, LoginSecureCookie, c.steamLoginSecure.value))
        else a2;
      var a4 := if !Contains(probeUrl, LoginPage) then a3.(loggedIn := true) else a3;
      (a4, [CacheRead(a.username), SessionProbe])
  }

  /** The cookies a restore puts in the jar: the shared secret as "sessionid"
      when the record has a session id, the cached "steamLoginSecure" when it
      has one, each on the three Steam domains; every other cookie, and these
      two names on every other domain, keep their values. */
  lemma RestoreSessionCookies(a: Account, c: CacheRecord, probeUrl: string, d: string)
    requires Wf(a.jar) && d in SteamDomains
    ensures var jar := RestoreSession(a, Some(c), probeUrl).0.jar;
      && Wf(jar)
      && (Truthy(c.sessionId) ==> Get(jar, SessionIdCookie, d) == Some(a.sharedSecret))
      && (!Truthy(c.sessionId) ==> Get(jar, SessionIdCookie, d) == Get(a.jar, SessionIdCookie, d))
      && (Truthy(c.steamLoginSecure) ==> Get(jar, LoginSecureCookie, d) == c.steamLoginSecure)
      && (!Truthy(c.steamLoginSecure) ==> Get(jar, LoginSecureCookie, d) == Get(a.jar, LoginSecureCookie, d))
    ensures var jar := RestoreSession(a, Some(c), probeUrl).0.jar;
      forall n, e :: (n != SessionIdCookie && n != LoginSecureCookie) || e !in SteamDomains ==>
        Get(jar, n, e) == Get(a.jar, n, e)
  {
    var j1 := if Truthy(c.sessionId) then Transfer(a.jar, SessionIdCookie, a.sharedSecret) else a.jar;
    var v := c.steamLoginSecure.GetOr("");
    var j2 := if Truthy(c.steamLoginSecure) then Transfer(j1, LoginSecureCookie, v) else j1;
    assert RestoreSession(a, Some(c), probeUrl).0.jar == j2;
    assert |SessionIdCookie| != |LoginSecureCookie|;
    TransferWf(a.jar, SessionIdCookie, a.sharedSecret);
    TransferWf(j1, LoginSecureCookie, v);
    TransferSetsDomains(a.jar, SessionIdCookie, a.sharedSecret);
    TransferSetsDomains(j1, LoginSecureCookie, v);
    TransferGetOther(a.jar, SessionIdCookie, a.sharedSecret, LoginSecureCookie, d);
    TransferGetOther(j1, LoginSecureCookie, v, SessionIdCookie, d);
  }

  // ---------------------------------------------------------------------------
  // _log_session
  // ---------------------------------------------------------------------------

  /** The cookie `_log_session` looks up. */
  function LoginSecure(a: Account): Option<string> {
    Get(a.jar, LoginSecureCookie, CommunityDomain)
  }

  /** The guard of `_log_session`: only a complete session is cached. */
  predicate WorthCaching(a: Account) {
    Truthy(LoginSecure(a)) && SessionId(a) != "" && TruthyId(a.steamId64)
  }

  /** `_log_session`, with the record handed to `store_session_data` as its
      `data` argument (see `LogSessionAsWritten` for the call as written). */
  function LogSession(a: Account): (r: seq<Effect>)
    ensures |r| <= 1
    ensures |r| == 1 <==> WorthCaching(a)
    ensures |r| == 1 ==> r[0].CacheWrite? && r[0].account == a.username
  {
    if WorthCaching(a)
    then [CacheWrite(a.username, CacheRecord(Some(SessionId(a)), a.steamId64, LoginSecure(a)))]
    else []
  }

  /** `_log_session` as written: `store_session_data` takes the record as one
      positional argument, and the keyword arguments it is given instead make
      the call raise before anything is written. */
  function LogSessionAsWritten(a: Account): (r: Result<(), Error>)
    ensures r.Err? <==> WorthCaching(a)
    ensures r.Err? ==> r.error.TypeError?
  {
    if WorthCaching(a)
    then Err(TypeError(UnexpectedKeywordMessage))
    else Ok(())
  }

  /** Whenever the session is worth caching, the call as written raises
      instead of caching it: no session is ever stored. */
  lemma LogSessionAsWrittenNeverStores(a: Account)
    ensures LogSessionAsWritten(a).Ok? <==> LogSession(a) == []
  {
  }

  /** Round trip through the cache: restoring a fresh account from the record
      `_log_session` writes brings back the steam id, the login cookie and
      the session cookie. */
  lemma LogSessionRestores(a: Account, probeUrl: string, d: string)
    requires WorthCaching(a) && d in SteamDomains
    ensures var rec := LogSession(a)[0].record;
      var blank := NewAccount(a.username, a.password, a.sharedSecret, a.identitySecret);
      var back := RestoreSession(blank, Some(rec), probeUrl).0;
      && back.steamId64 == a.steamId64
      && Get(back.jar, LoginSecureCookie, d) == LoginSecure(a)
      && Get(back.jar, SessionIdCookie, d) == Some(SessionId(a))
      && (back.loggedIn <==> !Contains(probeUrl, LoginPage))
  {
    var rec := LogSession(a)[0].record;
    var blank := NewAccount(a.username, a.password, a.sharedSecret, a.identitySecret);
    RestoreSessionCookies(blank, rec, probeUrl, d);
  }

  // ---------------------------------------------------------------------------
  // login / _attempt_login
  // ---------------------------------------------------------------------------

  datatype TransferParameters = TransferParameters(steamid: Option<int>)

  /** The decoded `dologin` reply; flags that are absent read as false. */
  datatype LoginResponse = LoginResponse(
    success: bool,
    loginComplete: bool,
    captchaNeeded: bool,
    clearPasswordField: bool,
    requiresTwofactor: bool,
    emailauthNeeded: bool,
    message: Option<string>,
    transferParameters: Option<TransferParameters>)

  /** What the `dologin` request produced: a transport failure; a reply
      whose cookies went into the jar but whose body `Response.json()` could
      not decode, with the decoder's message; or a decoded reply. Since
      requests 2.27 the decoding error is a `RequestException`, so
      `_attempt_login` turns both failures into a `RequestError`. */
  datatype LoginReply =
    | Transport(reason: string)
    | NotJson(notJsonCookies: seq<Cookie>, decodeError: string)
    | Received(cookies: seq<Cookie>, body: LoginResponse)

  /** Everything `login` reads from outside: the cache, the probe of the
      profile page, the clock, the fresh session id and the login reply. */
  datatype LoginEnv = LoginEnv(
    cached: Option<CacheRecord>,
    probeUrl: string,
    now: int,
    freshSessionId: string,
    reply: LoginReply)

  /** The errors `login` raises itself. */
  const NoPassword := IncorrectPassword("password not specified")
  const EmailAuthUnsupported := EmailCodeRequired("Email Authentication not supported.")

  /** The exception an unsuccessful reply raises: the first of captcha,
      wrong password, wrong two-factor code, e-mail code, in that order, or a
      plain login error; the reply must carry a message. */
  function LoginFailure(resp: LoginResponse): (e: Error)
    ensures resp.message.None? <==> e == KeyError("message")
    ensures resp.message.Some? ==> IsLoginError(e)
  {
    match resp.message
    case None => KeyError("message")
    case Some(m) =>
      if resp.captchaNeeded then CaptchaRequired(m)
      else if resp.clearPasswordField then IncorrectPassword(m)
      else if resp.requiresTwofactor then TwoFactorCodeInvalid(m)
      else if resp.emailauthNeeded then EmailAuthUnsupported
      else LoginError(m)
  }

  /** Which flag wins when several are set, and that Steam's own message is
      passed on except for the e-mail case. */
  lemma LoginFailurePrecedence(resp: LoginResponse, m: string)
    requires resp.message == Some(m)
    ensures resp.captchaNeeded ==> LoginFailure(resp) == CaptchaRequired(m)
    ensures LoginFailure(resp).IncorrectPassword? <==> !resp.captchaNeeded && resp.clearPasswordField
    ensures LoginFailure(resp).TwoFactorCodeInvalid? <==>
      !resp.captchaNeeded && !resp.clearPasswordField && resp.requiresTwofactor
    ensures LoginFailure(resp).EmailCodeRequired? <==>
      !resp.captchaNeeded && !resp.clearPasswordField && !resp.requiresTwofactor && resp.emailauthNeeded
    ensures !LoginFailure(resp).EmailCodeRequired? ==> LoginFailure(resp).msg == m
    ensures LoginFailure(resp).CaptchaRequired? <==> resp.captchaNeeded
    ensures !resp.captchaNeeded && !resp.clearPasswordField && !resp.requiresTwofactor && resp.emailauthNeeded ==>
      LoginFailure(resp) == EmailAuthUnsupported
    ensures !resp.captchaNeeded && !resp.clearPasswordField && !resp.requiresTwofactor && !resp.emailauthNeeded ==>
      LoginFailure(resp) == LoginError(m)
  {
  }

  /** Jar after the reply's cookies are stored, one after the other. */
  function StoreCookies(jar: Jar, cookies: seq<Cookie>): (r: Jar)
    ensures |jar| <= |r| <= |jar| + |cookies|
    ensures forall i :: 0 <= i < |jar| ==> r[i].name == jar[i].name && r[i].domain == jar[i].domain
    decreases |cookies|
  {
    if |cookies| == 0 then jar
    else StoreCookies(Set(jar, cookies[0].name, cookies[0].domain, cookies[0].value), cookies[1..])
  }

  /** The value of the last cookie in `cookies` for (name, domain). */
  function LastSet(cookies: seq<Cookie>, name: string, domain: string): (r: Option<string>)
    ensures r.None? <==> forall i :: 0 <= i < |cookies| ==> cookies[i].name != name || cookies[i].domain != domain
    ensures r.Some? ==>
      exists i :: 0 <= i < |cookies| && cookies[i] == Cookie(name, domain, r.value) &&
        (forall j :: i < j < |cookies| ==> cookies[j].name != name || cookies[j].domain != domain)
    decreases |cookies|
  {
    if |cookies| == 0 then None
    else
      var tail := cookies[1..];
      var later := LastSet(tail, name, domain);
      assert forall i :: 1 <= i < |cookies| ==> tail[i - 1] == cookies[i];
      if later.Some? then later
      else if cookies[0].name == name && cookies[0].domain == domain then Some(cookies[0].value)
      else None
  }

  /** Storing a reply's cookies: each (name, domain) it sets reads the last
      value set for it, and every other cookie reads as before. */
  lemma {:induction false} StoreCookiesGet(jar: Jar, cookies: seq<Cookie>, name: string, domain: string)
    ensures Get(StoreCookies(jar, cookies), name, domain) ==
      if LastSet(cookies, name, domain).Some? then LastSet(cookies, name, domain) else Get(jar, name, domain)
    decreases |cookies|
  {
    if |cookies| > 0 {
      var c := cookies[0];
      var jar1 := Set(jar, c.name, c.domain, c.value);
      StoreCookiesGet(jar1, cookies[1..], name, domain);
      if c.name == name && c.domain == domain {
        SetGetSame(jar, name, domain, c.value);
      } else {
        SetGetOther(jar, c.name, c.domain, c.value, name, domain);
      }
    }
  }

  lemma {:induction false} StoreCookiesWf(jar: Jar, cookies: seq<Cookie>)
    requires Wf(jar)
    ensures Wf(StoreCookies(jar, cookies))
    decreases |cookies|
  {
    if |cookies| > 0 {
      SetWf(jar, cookies[0].name, cookies[0].domain, cookies[0].value);
      StoreCookiesWf(Set(jar, cookies[0].name, cookies[0].domain, cookies[0].value), cookies[1..]);
    }
  }

  /** The successful branch of `login`: mark the account logged in, copy
      every cookie of the jar to the three Steam domains, set the session id
      and its cookie, take the steam id from the reply, cache the session. */
  function CompleteLogin(a: Account, resp: LoginResponse, freshSessionId: string, effects: seq<Effect>)
    : (r: (Account, Result<(), Error>, seq<Effect>))
    ensures SameCredentials(r.0, a) && r.0.confirmations == a.confirmations
    ensures r.0.loggedIn
    ensures |effects| <= |r.2| && r.2[..|effects|] == effects
    ensures forall i :: |effects| <= i < |r.2| ==> r.2[i].CacheWrite?
    ensures r.1.Ok? ==> r.2 == effects + LogSession(r.0)
    ensures r.1.Err? ==> r.2 == effects
  {
    var a1 := a.(loggedIn := true);
    var a2 := a1.(jar := TransferAll(a1.jar, Listing(a1.jar)));
    var a3 := a2.(sessionIdField := Some(freshSessionId), jar := Transfer(a2.jar, SessionIdCookie, SessionId(a2)));
    match resp.transferParameters
    case None => (a3, Err(KeyError("transfer_parameters")), effects)
    case Some(tp) =>
      match tp.steamid
      case None => (a3, Err(KeyError("steamid")), effects)
      case Some(id) =>
        var a4 := a3.(steamId64 := Some(id));
        (a4, Ok(()), effects + LogSession(a4))
  }

  /** The copy loop of a successful login, cookie by cookie: every cookie
      other than "sessionid" ends up on the three Steam domains with the value
      it has on the greatest domain it was set for, since the loop walks the
      jar domain by domain in sorted order; other domains keep their cookies. */
  lemma CompleteLoginCopies(a: Account, resp: LoginResponse, freshSessionId: string, effects: seq<Effect>,
                            n: string, d: string)
    requires Wf(a.jar) && n != SessionIdCookie
    ensures var jar := CompleteLogin(a, resp, freshSessionId, effects).0.jar;
      && (d !in SteamDomains ==> Get(jar, n, d) == Get(a.jar, n, d))
      && (d in SteamDomains && (forall i :: 0 <= i < |a.jar| ==> a.jar[i].name != n) ==> Get(jar, n, d) == None)
      && (d in SteamDomains && (exists i :: 0 <= i < |a.jar| && a.jar[i].name == n) ==>
            exists i :: OnGreatestDomain(a.jar, n, i) && Get(jar, n, d) == Some(a.jar[i].value))
  {
    var copied := TransferAll(a.jar, Listing(a.jar));
    var jar := CompleteLogin(a, resp, freshSessionId, effects).0.jar;
    assert jar == Transfer(copied, SessionIdCookie, a.sharedSecret);
    TransferGetOther(copied, SessionIdCookie, a.sharedSecret, n, d);
    CopyListing(a.jar, n, d);
  }

  /** `login`. */
  function Login(a: Account, env: LoginEnv, p: SteamGuard.Primitives): (r: (Account, Result<(), Error>, seq<Effect>))
    ensures SameCredentials(r.0, a) && r.0.confirmations == a.confirmations
    ensures a.loggedIn ==> r == (a, Ok(()), [])
    ensures r.1.Ok? ==> r.0.loggedIn
    ensures !a.loggedIn ==> |r.2| >= 1 && r.2[0] == CacheRead(a.username)
  {
    if a.loggedIn then (a, Ok(()), [])
    else
      var (a1, e1) := RestoreSession(a, env.cached, env.probeUrl);
      if a1.loggedIn then (a1, Ok(()), e1)
      else if a1.password == "" then (a1, Err(NoPassword), e1)
      else
        match SteamGuard.OneTimeCode(p, a1.sharedSecret, env.now)
        case Err(e) => (a1, Err(e), e1)
        case Ok(code) =>
          var r := AttemptLogin(a1, code, env.reply, env.freshSessionId, e1);
          assert r.2[0] == r.2[..|e1|][0] == e1[0];
          r
  }

  /** `_attempt_login` and what `login` does with its reply. The request
      carries the password; its RSA encryption is not modelled. */
  function AttemptLogin(a: Account, code: string, reply: LoginReply, freshSessionId: string, effects: seq<Effect>)
    : (r: (Account, Result<(), Error>, seq<Effect>))
    ensures SameCredentials(r.0, a) && r.0.confirmations == a.confirmations
    ensures |effects| < |r.2| && r.2[..|effects|] == effects
    ensures r.2[|effects|] == LoginRequest(a.username, a.password, code)
    ensures forall i :: |effects| < i < |r.2| ==> r.2[i].CacheWrite?
    ensures r.1.Ok? ==> r.0.loggedIn && r.2 == effects + [LoginRequest(a.username, a.password, code)] + LogSession(r.0)
    ensures r.1.Err? ==> r.2 == effects + [LoginRequest(a.username, a.password, code)]
    ensures !a.loggedIn && r.0.loggedIn ==>
      reply.Received? && reply.body.success && reply.body.loginComplete
  {
    var e2 := effects + [LoginRequest(a.username, a.password, code)];
    match reply
    case Transport(reason) => (a, Err(RequestError(reason)), e2)
    case NotJson(cookies, decodeError) =>
      (a.(jar := StoreCookies(a.jar, cookies)), Err(RequestError(decodeError)), e2)
    case Received(cookies, resp) =>
      var a2 := a.(jar := StoreCookies(a.jar, cookies));
      if resp.success && resp.loginComplete then CompleteLogin(a2, resp, freshSessionId, e2)
      else (a2, Err(LoginFailure(resp)), e2)
  }

  /** `login` is idempotent: once it succeeds, calling it again does nothing. */
  lemma LoginTwice(a: Account, env1: LoginEnv, env2: LoginEnv, p: SteamGuard.Primitives)
    requires Login(a, env1, p).1.Ok?
    ensures var b := Login(a, env1, p).0; Login(b, env2, p) == (b, Ok(()), [])
  {
  }

  /** The account is restored from the cache exactly when the cache has a
      record and the profile page does not bounce to the login page. */
  predicate Restores(env: LoginEnv) {
    env.cached.Some? && !Contains(env.probeUrl, LoginPage)
  }

  predicate SendsLoginRequest(effects: seq<Effect>) {
    exists i :: 0 <= i < |effects| && effects[i].LoginRequest?
  }

  /** A login request goes out exactly when the account is logged out, the
      cached session does not restore it, the password is set and the
      Steam Guard code can be computed; it carries that code. */
  lemma LoginRequestSentWhen(a: Account, env: LoginEnv, p: SteamGuard.Primitives)
    ensures var r := Login(a, env, p);
      SendsLoginRequest(r.2) <==>
        !a.loggedIn && !Restores(env) && a.password != "" &&
        SteamGuard.OneTimeCode(p, a.sharedSecret, env.now).Ok?
    ensures var r := Login(a, env, p);
      forall i :: 0 <= i < |r.2| && r.2[i].LoginRequest? ==>
        r.2[i] == LoginRequest(a.username, a.password, SteamGuard.OneTimeCode(p, a.sharedSecret, env.now).value)
  {
    if !a.loggedIn {
      LoginTrace(a, env, p);
      var r := Login(a, env, p);
      var e1 := RestoreSession(a, env.cached, env.probeUrl).1;
      if |e1| < |r.2| {
        assert r.2[|e1|].LoginRequest?;
      }
    }
  }

  /** The requests `login` makes on a logged-out account: the cache read and
      probe of the restore, then at most one login request, then at most a
      cache write. The login request is made in exactly the cases listed. */
  lemma LoginTrace(a: Account, env: LoginEnv, p: SteamGuard.Primitives)
    requires !a.loggedIn
    ensures var r := Login(a, env, p);
      var e1 := RestoreSession(a, env.cached, env.probeUrl).1;
      && |e1| <= |r.2| && r.2[..|e1|] == e1
      && (forall i :: 0 <= i < |e1| ==> !e1[i].LoginRequest?)
      && (forall i :: |e1| < i < |r.2| ==> r.2[i].CacheWrite?)
      && (|e1| < |r.2| <==>
            !Restores(env) && a.password != "" && SteamGuard.OneTimeCode(p, a.sharedSecret, env.now).Ok?)
      && (|e1| < |r.2| ==>
            r.2[|e1|] == LoginRequest(a.username, a.password, SteamGuard.OneTimeCode(p, a.sharedSecret, env.now).value))
  {
    var (a1, e1) := RestoreSession(a, env.cached, env.probeUrl);
    assert a1.loggedIn <==> Restores(env);
    assert forall i :: 0 <= i < |e1| ==> !e1[i].LoginRequest?;
    if !a1.loggedIn && a1.password != "" {
      match SteamGuard.OneTimeCode(p, a1.sharedSecret, env.now)
      case Err(_) =>
      case Ok(code) =>
        var r := AttemptLogin(a1, code, env.reply, env.freshSessionId, e1);
        assert Login(a, env, p) == r;
    }
  }

  /** A reply that reports success and carries the steam id logs the account
      in: the jar stays free of duplicates, the steam id is the reply's, the
      "sessionid" cookie on every Steam domain is the shared secret, and the
      session is cached when it is complete. */
  lemma LoginSucceeds(a: Account, env: LoginEnv, p: SteamGuard.Primitives, d: string)
    requires Wf(a.jar) && d in SteamDomains
    requires !a.loggedIn && !Restores(env) && a.password != ""
    requires SteamGuard.OneTimeCode(p, a.sharedSecret, env.now).Ok?
    requires env.reply.Received?
    requires env.reply.body.success && env.reply.body.loginComplete
    requires env.reply.body.transferParameters.Some?
    requires env.reply.body.transferParameters.value.steamid.Some?
    ensures var r := Login(a, env, p);
      && r.1 == Ok(())
      && r.0.loggedIn
      && r.0.steamId64 == env.reply.body.transferParameters.value.steamid
      && r.0.sessionIdField == Some(env.freshSessionId)
      && Wf(r.0.jar)
      && Get(r.0.jar, SessionIdCookie, d) == Some(a.sharedSecret)
      && (WorthCaching(r.0) <==> r.2[|r.2| - 1].CacheWrite?)
  {
    var (a1, e1) := RestoreSession(a, env.cached, env.probeUrl);
    var code := SteamGuard.OneTimeCode(p, a.sharedSecret, env.now).value;
    var r := Login(a, env, p);
    assert r == AttemptLogin(a1, code, env.reply, env.freshSessionId, e1);
    var sent := e1 + [LoginRequest(a.username, a.password, code)];
    if WorthCaching(r.0) {
      assert r.2[|r.2| - 1] == LogSession(r.0)[0];
    } else {
      assert r.2 == sent;
    }
    RestoreSessionWf(a, env.cached, env.probeUrl);
    var jar2 := StoreCookies(a1.jar, env.reply.cookies);
    StoreCookiesWf(a1.jar, env.reply.cookies);
    var jar3 := TransferAll(jar2, Listing(jar2));
    TransferAllWf(jar2, Listing(jar2));
    TransferWf(jar3, SessionIdCookie, a.sharedSecret);
    TransferSetsDomains(jar3, SessionIdCookie, a.sharedSecret);
  }

  lemma RestoreSessionWf(a: Account, cached: Option<CacheRecord>, probeUrl: string)
    requires Wf(a.jar)
    ensures Wf(RestoreSession(a, cached, probeUrl).0.jar)
  {
    if cached.Some? {
      RestoreSessionCookies(a, cached.value, probeUrl, StoreDomain);
    }
  }

  /** A reply without success leaves the account logged out and raises the
      exception its flags select. */
  lemma LoginRejected(a: Account, env: LoginEnv, p: SteamGuard.Primitives)
    requires !a.loggedIn && !Restores(env) && a.password != ""
    requires SteamGuard.OneTimeCode(p, a.sharedSecret, env.now).Ok?
    requires env.reply.Received?
    requires !(env.reply.body.success && env.reply.body.loginComplete)
    ensures var r := Login(a, env, p);
      !r.0.loggedIn && r.1 == Err(LoginFailure(env.reply.body))
  {
  }

  /** Without a password, and with no session to restore, `login` raises
      before contacting the login endpoint. */
  lemma LoginWithoutPassword(a: Account, env: LoginEnv, p: SteamGuard.Primitives)
    requires !a.loggedIn && !Restores(env) && a.password == ""
    ensures var r := Login(a, env, p);
      && r.1 == Err(NoPassword)
      && !r.0.loggedIn
      && !SendsLoginRequest(r.2)
  {
    LoginRequestSentWhen(a, env, p);
  }

  /** A login reply that never arrived, or whose body is not JSON, raises
      `RequestError` with the transport's or the decoder's message and leaves
      the account logged out. */
  lemma LoginReplyUnreadable(a: Account, env: LoginEnv, p: SteamGuard.Primitives)
    requires !a.loggedIn && !Restores(env) && a.password != ""
    requires SteamGuard.OneTimeCode(p, a.sharedSecret, env.now).Ok?
    requires !env.reply.Received?
    ensures var r := Login(a, env, p);
      && !r.0.loggedIn
      && r.1 == Err(RequestError(if env.reply.Transport? then env.reply.reason else env.reply.decodeError))
  {
  }

  // ---------------------------------------------------------------------------
  // login as written
  // ---------------------------------------------------------------------------

  /** The only cache write `_attempt_login` and the rest of `login` make
      is the last effect, written by `_log_session` after a success. */
  lemma AttemptLoginCacheWrites(a: Account, code: string, reply: LoginReply, freshSessionId: string,
                                effects: seq<Effect>)
    requires forall i :: 0 <= i < |effects| ==> !effects[i].CacheWrite?
    ensures var r := AttemptLogin(a, code, reply, freshSessionId, effects);
      && (forall i :: 0 <= i < |r.2| - 1 ==> !r.2[i].CacheWrite?)
      && (r.2[|r.2| - 1].CacheWrite? ==>
            r.1.Ok? && r.0.loggedIn && WorthCaching(r.0) && r.2 == r.2[..|r.2| - 1] + LogSession(r.0))
  {
    var r := AttemptLogin(a, code, reply, freshSessionId, effects);
    var sent := effects + [LoginRequest(a.username, a.password, code)];
    assert forall i :: 0 <= i < |sent| ==> !sent[i].CacheWrite?;
    if r.1.Ok? && WorthCaching(r.0) {
      assert r.2 == sent + LogSession(r.0);
      assert r.2[..|r.2| - 1] == sent;
    } else {
      assert r.2 == sent;
    }
  }

  /** The only cache write `login` makes is its last effect, written by
      `_log_session` after a successful login. */
  lemma LoginCacheWrites(a: Account, env: LoginEnv, p: SteamGuard.Primitives)
    ensures var r := Login(a, env, p);
      && (forall i :: 0 <= i < |r.2| - 1 ==> !r.2[i].CacheWrite?)
      && (|r.2| > 0 && r.2[|r.2| - 1].CacheWrite? ==>
            r.1.Ok? && r.0.loggedIn && WorthCaching(r.0) && r.2 == r.2[..|r.2| - 1] + LogSession(r.0))
  {
    if !a.loggedIn {
      var (a1, e1) := RestoreSession(a, env.cached, env.probeUrl);
      assert forall i :: 0 <= i < |e1| ==> !e1[i].CacheWrite?;
      if !a1.loggedIn && a1.password != "" && SteamGuard.OneTimeCode(p, a1.sharedSecret, env.now).Ok? {
        var code := SteamGuard.OneTimeCode(p, a1.sharedSecret, env.now).value;
        assert Login(a, env, p) == AttemptLogin(a1, code, env.reply, env.freshSessionId, e1);
        AttemptLoginCacheWrites(a1, code, env.reply, env.freshSessionId, e1);
      }
    }
  }

  /** `login` as written: where the corrected `_log_session` would write the
      cache, the keyword call raises `TypeError` instead, after the account
      has already been marked logged in (`LogSessionAsWritten`). */
  function LoginAsWritten(a: Account, env: LoginEnv, p: SteamGuard.Primitives)
    : (r: (Account, Result<(), Error>, seq<Effect>))
    ensures r.0 == Login(a, env, p).0
    ensures Login(a, env, p).1.Err? ==> r == Login(a, env, p)
    ensures r.1 != Login(a, env, p).1 ==>
      r.0.loggedIn && WorthCaching(r.0) && r.1 == LogSessionAsWritten(r.0) && r.2 + LogSession(r.0) == Login(a, env, p).2
    ensures r.2 == Login(a, env, p).2 || r.2 + LogSession(r.0) == Login(a, env, p).2
  {
    var r := Login(a, env, p);
    LoginCacheWrites(a, env, p);
    if |r.2| > 0 && r.2[|r.2| - 1].CacheWrite?
    then (r.0, LogSessionAsWritten(r.0), r.2[..|r.2| - 1])
    else r
  }

  /** As written, `login` never writes the session cache. */
  lemma LoginAsWrittenNeverCaches(a: Account, env: LoginEnv, p: SteamGuard.Primitives)
    ensures var r := LoginAsWritten(a, env, p);
      forall i :: 0 <= i < |r.2| ==> !r.2[i].CacheWrite?
  {
    var l := Login(a, env, p);
    LoginCacheWrites(a, env, p);
    DropLastWrite(l.2);
  }

  /** Dropping a trailing cache write from effects that hold none before
      it leaves effects that hold none at all. */
  lemma DropLastWrite(s: seq<Effect>)
    requires forall i :: 0 <= i < |s| - 1 ==> !s[i].CacheWrite?
    ensures var t := if |s| > 0 && s[|s| - 1].CacheWrite? then s[..|s| - 1] else s;
      forall i :: 0 <= i < |t| ==> !t[i].CacheWrite?
  {
  }

  /** As written, a login the reply accepts raises `TypeError` exactly when
      the session is complete enough to cache, and the account is logged in
      either way: the session is never cached. */
  lemma LoginAsWrittenSucceeds(a: Account, env: LoginEnv, p: SteamGuard.Primitives, d: string)
    requires Wf(a.jar) && d in SteamDomains
    requires !a.loggedIn && !Restores(env) && a.password != ""
    requires SteamGuard.OneTimeCode(p, a.sharedSecret, env.now).Ok?
    requires env.reply.Received?
    requires env.reply.body.success && env.reply.body.loginComplete
    requires env.reply.body.transferParameters.Some?
    requires env.reply.body.transferParameters.value.steamid.Some?
    ensures var r := LoginAsWritten(a, env, p);
      && r.0.loggedIn
      && r.1 == LogSessionAsWritten(r.0)
      && (r.1.Err? <==> WorthCaching(r.0))
  {
    LoginSucceeds(a, env, p, d);
  }
}
