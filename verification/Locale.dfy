/** Which language a page is rendered in: negotiation per request, the saved
    preference of the account, and the only handler that writes it. */
module Locale {
  import opened Text
  import opened Todos
  import Users

  datatype LangId = LangId(language: string, rest: string)

  const SUPPORTED: seq<string> := ["en", "es", "fr", "de"]

  const DEFAULT: LangId := LangId("en", "")

  /** The language library: parsing an identifier, and the result of negotiating an
      Accept-Language header against the supported set, best first. */
  datatype Library = Library(parse: string -> Option<LangId>, negotiated: string -> seq<LangId>)

  /** What is assumed of it: the supported names parse to themselves, and negotiation
      answers only supported languages. */
  ghost predicate Lawful(lib: Library) {
    && (forall s | s in SUPPORTED :: lib.parse(s) == Some(LangId(s, "")))
    && (forall header, l | l in lib.negotiated(header) :: l.language in SUPPORTED)
  }

  function ParseSupported(lib: Library, value: string): Option<LangId> {
    var parsed := lib.parse(value);
    if parsed.Some? && parsed.value.language in SUPPORTED then parsed else None
  }

  /** A source of the request, if it is there and supported. */
  function Usable(lib: Library, source: Option<string>): Option<LangId> {
    if source.None? then None else ParseSupported(lib, source.value)
  }

  function NegotiateHeader(lib: Library, header: string): LangId {
    var chosen := lib.negotiated(header);
    if chosen == [] then DEFAULT else chosen[0]
  }

  /** The first usable source wins. */
  function Negotiate(lib: Library, accept: Option<string>, cookie: Option<string>, profile: Option<string>): LangId {
    if Usable(lib, profile).Some? then Usable(lib, profile).value
    else if Usable(lib, cookie).Some? then Usable(lib, cookie).value
    else if accept.Some? then NegotiateHeader(lib, accept.value)
    else DEFAULT
  }

  /** The saved locale of a logged-in user overrides the request's if it parses. */
  function OverrideFromProfile(lib: Library, saved: Option<string>, request: LangId): LangId {
    if saved.Some? && saved.value != "" then lib.parse(saved.value).GetOr(request) else request
  }

  /** What is rendered: the index, the list and a single row for a logged-in user, the
      two forms for anybody, logged in or not, and the pages of the preview tool, with
      the locale of the query and the `_locale` that a fixture may put in its place. */
  datatype Page =
    | Index
    | TodoList
    | TodoRow
    | LoginForm
    | SignupForm
    | Preview(query: Option<string>, fixture: Option<string>)

  predicate IsForm(page: Page) {
    page.LoginForm? || page.SignupForm?
  }

  predicate NeedsLogin(page: Page) {
    !IsForm(page) && !page.Preview?
  }

  /** The locale that a preview page is asked for. */
  function Asked(page: Page): string
    requires page.Preview?
  {
    page.fixture.GetOr(page.query.GetOr("en"))
  }

  /** The language of a page, if the viewer gets it: the middleware negotiates without a
      profile, only the handlers that ask for a login look at the profile, and the preview
      tool passes on what it is asked for, which templates take for English if it does
      not parse. */
  function PageLocale(
    lib: Library, page: Page, accept: Option<string>, cookie: Option<string>, user: Option<Users.User>): Option<LangId>
  {
    var request := Negotiate(lib, accept, cookie, None);
    if page.Preview? then Some(lib.parse(Asked(page)).GetOr(DEFAULT))
    else if IsForm(page) then Some(request)
    else if user.Some? then Some(OverrideFromProfile(lib, user.value.locale, request))
    else None
  }

  datatype LocaleResponse = Refused | Accepted(cookie: string)

  /** POST /preferences/locale. */
  method UpdateLocale(repo: Users.UserRepository, user: Option<UserId>, body: string) returns (r: LocaleResponse)
    modifies repo
    ensures repo.users == LocaleStep(repo.env, old(repo.users), user, body)
    ensures r == LocaleAnswer(body)
    ensures r.Accepted? <==> Trim(body) == "en" || Trim(body) == "es" || Trim(body) == "fr" || Trim(body) == "de"
    ensures r.Accepted? ==> r.cookie == Trim(body)
    ensures r.Accepted? && user.Some? && user.value in old(repo.users) ==>
              repo.users == old(repo.users)[user.value := old(repo.users)[user.value].(locale := Some(Trim(body)))]
    ensures r.Refused? || user.None? || user.value !in old(repo.users) ==> repo.users == old(repo.users)
  {
    var candidate := Trim(body);
    if candidate !in SUPPORTED {
      return Refused;
    }
    if user.Some? {
      repo.UpdatePreferences(user.value, Some(candidate), None);
    }
    r := Accepted(candidate);
  }

  function LocaleAnswer(body: string): LocaleResponse {
    if Trim(body) in SUPPORTED then Accepted(Trim(body)) else Refused
  }

  function LocaleStep(env: Users.Env, users: Users.Table, user: Option<UserId>, body: string): Users.Table {
    if Trim(body) in SUPPORTED && user.Some? then
      Users.Step(env, users, Users.Patch(user.value, Some(Trim(body)), None))
    else users
  }

  // ---- Runs ---------------------------------------------------------------------------

  /** The requests that write the users table. */
  datatype Request =
    | Signup(id: UserId, email: string, hash: string, now: int)
    | SetLocale(user: Option<UserId>, body: string)

  function Serve(env: Users.Env, users: Users.Table, q: Request): Users.Table {
    match q
    case Signup(id, email, hash, now) => Users.Step(env, users, Users.Insert(id, email, hash, now))
    case SetLocale(user, body) => LocaleStep(env, users, user, body)
  }

  function Run(env: Users.Env, requests: seq<Request>): Users.Table {
    if requests == [] then map[]
    else Serve(env, Run(env, requests[..|requests| - 1]), requests[|requests| - 1])
  }

  lemma {:induction false} SavedLocalesAreSupported(env: Users.Env, requests: seq<Request>)
    ensures forall id | id in Run(env, requests) ::
              var saved := Run(env, requests)[id].locale;
              saved.None? || saved.value in SUPPORTED
  {
    if requests == [] {
    } else {
      SavedLocalesAreSupported(env, requests[..|requests| - 1]);
    }
  }

  lemma {:induction false} NegotiateIsSupported(
    lib: Library, accept: Option<string>, cookie: Option<string>, profile: Option<string>)
    requires Lawful(lib)
    ensures Negotiate(lib, accept, cookie, profile).language in SUPPORTED
  {
    assert SUPPORTED[0] == "en";
    if accept.Some? && lib.negotiated(accept.value) != [] {
      assert lib.negotiated(accept.value)[0] in lib.negotiated(accept.value);
    }
  }

  /** A source names a language that the application has. */
  predicate Names(lib: Library, source: Option<string>) {
    source.Some? &&
    var parsed := lib.parse(source.value);
    parsed.Some? && parsed.value.language in {"en", "es", "fr", "de"}
  }

  /** What the Accept-Language header asks for first among the languages there are, and
      English when it says nothing. */
  function Preferred(lib: Library, accept: Option<string>): LangId {
    if accept.Some? && lib.negotiated(accept.value) != [] then lib.negotiated(accept.value)[0] else LangId("en", "")
  }

  /** The order of precedence: profile, cookie, header, English. A source that names no
      language of the application is as good as none. */
  lemma {:induction false} Precedence(
    lib: Library, accept: Option<string>, cookie: Option<string>, profile: Option<string>)
    ensures Names(lib, profile) ==> Some(Negotiate(lib, accept, cookie, profile)) == lib.parse(profile.value)
    ensures !Names(lib, profile) ==> Negotiate(lib, accept, cookie, profile) == Negotiate(lib, accept, cookie, None)
    ensures Names(lib, cookie) ==> Some(Negotiate(lib, accept, cookie, None)) == lib.parse(cookie.value)
    ensures !Names(lib, cookie) ==> Negotiate(lib, accept, cookie, None) == Preferred(lib, accept)
  {
    OnlyThese();
  }

  lemma OnlyThese()
    ensures forall s :: s in SUPPORTED <==> s in {"en", "es", "fr", "de"}
  {
    assert SUPPORTED[0] == "en" && SUPPORTED[1] == "es" && SUPPORTED[2] == "fr" && SUPPORTED[3] == "de";
  }

  /** Without a saved locale the request decides. In every reachable state a form, or a
      page that needs the login of an account that has saved none, is in the language
      that the cookie names, or else in the one the header asks for first. */
  lemma {:induction false} RequestDecides(
    env: Users.Env, requests: seq<Request>, lib: Library, page: Page,
    accept: Option<string>, cookie: Option<string>, viewer: Option<UserId>)
    requires viewer.Some? ==> viewer.value in Run(env, requests)
    requires page.LoginForm? || page.SignupForm?
             || (!page.Preview? && viewer.Some? && Run(env, requests)[viewer.value].locale == None)
    ensures var user := if viewer.Some? then Some(Run(env, requests)[viewer.value]) else None;
            PageLocale(lib, page, accept, cookie, user)
            == if Names(lib, cookie) then lib.parse(cookie.value) else Some(Preferred(lib, accept))
  {
    hide Negotiate, Run;
    Precedence(lib, accept, cookie, None);
  }

  /** A cookie that names no language of the application changes no page of anybody. */
  lemma {:induction false} UnusableCookieIsIgnored(
    lib: Library, page: Page, accept: Option<string>, cookie: Option<string>, user: Option<Users.User>)
    requires !Names(lib, cookie)
    ensures PageLocale(lib, page, accept, cookie, user) == PageLocale(lib, page, accept, None, user)
  {
    hide Negotiate;
    Precedence(lib, accept, cookie, None);
    Precedence(lib, accept, None, None);
  }

  /** A preview page speaks the fixture's language, else the query's, else English. */
  lemma PreviewLanguage(
    lib: Library, accept: Option<string>, cookie: Option<string>, user: Option<Users.User>,
    query: string, fixture: string)
    requires lib.parse("en") == Some(LangId("en", ""))
    ensures PageLocale(lib, Preview(Some(query), Some(fixture)), accept, cookie, user)
            == PageLocale(lib, Preview(None, Some(fixture)), accept, cookie, user)
            == if lib.parse(fixture).Some? then lib.parse(fixture) else Some(LangId("en", ""))
    ensures PageLocale(lib, Preview(Some(query), None), accept, cookie, user)
            == if lib.parse(query).Some? then lib.parse(query) else Some(LangId("en", ""))
    ensures PageLocale(lib, Preview(None, None), accept, cookie, user) == Some(LangId("en", ""))
  {
  }

  /** A preview page asked for a language that the application does not have. */
  predicate AsksForForeign(lib: Library, page: Page) {
    page.Preview? &&
    var asked := lib.parse(Asked(page));
    asked.Some? && asked.value.language !in SUPPORTED
  }

  /** In every reachable state every page, for anybody, is rendered in a supported
      language, except the preview pages that are asked for another one. */
  lemma {:induction false} PagesAreInSupportedLanguages(
    env: Users.Env, requests: seq<Request>, lib: Library, page: Page,
    accept: Option<string>, cookie: Option<string>, viewer: Option<UserId>)
    requires Lawful(lib)
    requires viewer.Some? ==> viewer.value in Run(env, requests)
    ensures var user := if viewer.Some? then Some(Run(env, requests)[viewer.value]) else None;
            var locale := PageLocale(lib, page, accept, cookie, user);
            && (locale.Some? <==> !NeedsLogin(page) || viewer.Some?)
            && (locale.Some? ==> (locale.value.language in SUPPORTED <==> !AsksForForeign(lib, page)))
  {
    hide Run;
    SavedLocalesAreSupported(env, requests);
    NegotiateIsSupported(lib, accept, cookie, None);
    assert SUPPORTED[0] == "en";
  }

  /** The requests leave a user's saved locale alone. */
  predicate LeavesAlone(requests: seq<Request>, id: UserId) {
    forall k | 0 <= k < |requests| ::
      requests[k].SetLocale? && requests[k].user == Some(id) ==> Trim(requests[k].body) !in SUPPORTED
  }

  lemma {:induction false} SavedLocaleStays(env: Users.Env, before: seq<Request>, later: seq<Request>, id: UserId)
    requires id in Run(env, before) && LeavesAlone(later, id)
    ensures id in Run(env, before + later)
    ensures Run(env, before + later)[id].locale == Run(env, before)[id].locale
  {
    if later == [] {
      assert before + later == before;
    } else {
      var n := |later| - 1;
      SavedLocaleStays(env, before, later[..n], id);
      assert (before + later)[..|before + later| - 1] == before + later[..n];
    }
  }

  /** Some headers make the request's language another one than `s`. */
  lemma {:induction false} RequestsDiffer(lib: Library, s: string) returns (cookie: Option<string>)
    requires Lawful(lib)
    ensures Negotiate(lib, None, cookie, None) != LangId(s, "")
  {
    if s == "en" {
      cookie := Some("de");
      assert SUPPORTED[3] == "de";
    } else {
      cookie := None;
    }
  }

  /** Where an accepted choice is used, exactly. From then on, until the account chooses
      again, a page has the chosen language whatever the browser sends if and only if the
      page is one that needs a login, or a preview page that is asked for that language:
      the forms never look at the account. */
  lemma {:induction false} ChosenLocaleIsUsed(
    env: Users.Env, before: seq<Request>, id: UserId, body: string, later: seq<Request>, lib: Library, page: Page)
    requires Lawful(lib) && LocaleAnswer(body).Accepted?
    requires id in Run(env, before) && LeavesAlone(later, id)
    ensures var users := Run(env, before + [SetLocale(Some(id), body)] + later);
            var chosen := LangId(Trim(body), "");
            && id in users
            && ((forall accept, cookie :: PageLocale(lib, page, accept, cookie, Some(users[id])) == Some(chosen))
                <==> NeedsLogin(page) || (page.Preview? && lib.parse(Asked(page)).GetOr(DEFAULT) == chosen))
  {
    hide Negotiate;
    var upTo := before + [SetLocale(Some(id), body)];
    assert upTo[..|upTo| - 1] == before;
    SavedLocaleStays(env, upTo, later, id);
    assert Trim(body) != "" by {
      assert forall k | 0 <= k < 4 :: SUPPORTED[k] != "";
    }
    var cookie := RequestsDiffer(lib, Trim(body));
    var users := Run(env, upTo + later);
    var seen := PageLocale(lib, page, None, cookie, Some(users[id]));
    assert !NeedsLogin(page) && !page.Preview? ==> seen != Some(LangId(Trim(body), ""));
    assert page.Preview? ==> seen == Some(lib.parse(Asked(page)).GetOr(DEFAULT));
  }

  /** Where the cookie of an accepted choice is used, exactly: sent back in any reachable
      state, it decides the language of the forms for everybody, and that of the pages
      that need a login for an account that has saved no locale or the same one. Preview
      pages never look at it. */
  lemma {:induction false} AcceptedCookieIsUsed(
    env: Users.Env, requests: seq<Request>, body: string, lib: Library, page: Page,
    accept: Option<string>, viewer: Option<UserId>)
    requires Lawful(lib) && LocaleAnswer(body).Accepted?
    requires viewer.Some? ==> viewer.value in Run(env, requests)
    ensures var user := if viewer.Some? then Some(Run(env, requests)[viewer.value]) else None;
            var cookie := LocaleAnswer(body).cookie;
            PageLocale(lib, page, accept, Some(cookie), user) == Some(LangId(cookie, ""))
            <==> || IsForm(page)
                 || (page.Preview? && lib.parse(Asked(page)).GetOr(DEFAULT) == LangId(cookie, ""))
                 || (NeedsLogin(page) && viewer.Some? && (user.value.locale.None? || user.value.locale.value == cookie))
  {
    hide Run;
    SavedLocalesAreSupported(env, requests);
    assert forall k | 0 <= k < 4 :: SUPPORTED[k] != "";
  }
}
