/**
 * The session service: reading cookies back out of `document.cookie`, the request interceptor
 * that attaches the bearer token, and the state changes of `login`, `logout` and
 * `getCurrentUser` on the cookie jar and the in-memory user. The backend is an abstract
 * `Response`; navigation and logging are not modelled.
 */
module Auth {
  import opened Js
  import opened CookieJar
  import Middleware

  // ---------------------------------------------------------------------------------------
  // getCookie

  predicate IsSpace(c: char) {
    c == ' '
  }

  /** A fragment without its leading spaces, as the inner loop of `getCookie` leaves it. */
  function StripSpaces(c: string): string {
    TrimStartBy(c, IsSpace)
  }

  /** Whether one fragment, once stripped, starts with `key`. */
  predicate FragmentMatches(fragment: string, key: string) {
    StartsWith(StripSpaces(fragment), key)
  }

  /** The test `getCookie` applies to each fragment. */
  function Matcher(key: string): string -> bool {
    fragment => FragmentMatches(fragment, key)
  }

  /**
   * The value after `key` in the first fragment that matches it, or none when no fragment
   * matches.
   */
  function FirstFragmentValue(fragments: seq<string>, key: string): (r: Option<string>)
    ensures r.None? <==> forall i :: 0 <= i < |fragments| ==> !FragmentMatches(fragments[i], key)
  {
    var k := FindIndex(fragments, Matcher(key));
    if k.None? then None else Some(StripSpaces(fragments[k.value])[|key|..])
  }

  /** The value found comes from a fragment that matches, and no earlier fragment matches. */
  lemma FirstFragmentValueIsFirst(fragments: seq<string>, key: string)
    requires FirstFragmentValue(fragments, key).Some?
    ensures exists i :: 0 <= i < |fragments| && FragmentMatches(fragments[i], key)
                     && FirstFragmentValue(fragments, key).value == StripSpaces(fragments[i])[|key|..]
                     && forall j :: 0 <= j < i ==> !FragmentMatches(fragments[j], key)
  {
    var k := FindIndex(fragments, Matcher(key)).value;
    assert FragmentMatches(fragments[k], key);
  }

  /** What `getCookie(name)` returns when `document.cookie` is `cookie`. */
  function CookieValue(cookie: string, name: string): Option<string> {
    FirstFragmentValue(Split(cookie, ';'), name + "=")
  }

  /** The inner loop of `getCookie`: the spaces at the front of a fragment are dropped one by one. */
  method StripLeadingSpaces(fragment: string) returns (c: string)
    ensures c == StripSpaces(fragment)
  {
    c := fragment;
    while |c| > 0 && c[0] == ' '
      invariant StripSpaces(c) == StripSpaces(fragment)
    {
      c := c[1..];
    }
  }

  /** The value `getCookie` returns never contains `;` (it may contain `=`). */
  lemma CookieValueNoSemicolon(cookie: string, name: string)
    requires CookieValue(cookie, name).Some?
    ensures ';' !in CookieValue(cookie, name).value
  {
    var fragments, key := Split(cookie, ';'), name + "=";
    var i := FindIndex(fragments, Matcher(key)).value;
    var c := StripSpaces(fragments[i]);
    NotInSuffix(fragments[i], |fragments[i]| - |c|, ';');
    NotInSuffix(c, |key|, ';');
  }

  /** One step of `FirstFragmentValue`. */
  lemma FirstFragmentStep(fragments: seq<string>, key: string)
    requires fragments != []
    ensures FirstFragmentValue(fragments, key) ==
      if FragmentMatches(fragments[0], key) then Some(StripSpaces(fragments[0])[|key|..])
      else FirstFragmentValue(fragments[1..], key)
  {
    if !FragmentMatches(fragments[0], key) {
      var k := FindIndex(fragments[1..], Matcher(key));
      if k.Some? {
        assert fragments[1..][k.value] == fragments[k.value + 1];
      }
    }
  }

  lemma EntryStripped(c: Cookie)
    requires ValidCookie(c)
    ensures StripSpaces(" " + Entry(c)) == Entry(c)
    ensures StripSpaces(Entry(c)) == Entry(c)
  {
    assert (" " + Entry(c))[1..] == Entry(c);
    EntryHead(c);
  }

  /** The fragment of a cookie, with or without a leading space, read with key `name=`. */
  lemma EntryRead(c: Cookie, name: string, f: string)
    requires ValidCookie(c) && ValidName(name)
    requires f == " " + Entry(c) || f == Entry(c)
    ensures FragmentMatches(f, name + "=") <==> c.name == name
    ensures c.name == name ==> StripSpaces(f)[|name + "="|..] == c.value
  {
    EntryStripped(c);
    NameKeyMatch(c, name);
    if c.name == name {
      assert Entry(c) == (name + "=") + c.value;
    }
  }

  /** Over a jar the browser maintains, `getCookie` reads exactly the stored value. */
  lemma {:induction false} SpacedLookup(cs: seq<Cookie>, name: string)
    requires ValidJar(cs) && ValidName(name)
    ensures FirstFragmentValue(Spaced(cs), name + "=") == Lookup(cs, name)
    decreases |cs|
  {
    if cs != [] {
      SpacedLookup(cs[1..], name);
      SpacedLookupHead(cs, name);
    }
  }

  /** One cookie of the jar: `getCookie` stops at its fragment exactly when it has the name. */
  lemma SpacedLookupHead(cs: seq<Cookie>, name: string)
    requires cs != [] && ValidCookie(cs[0]) && ValidName(name)
    ensures FirstFragmentValue(Spaced(cs), name + "=") ==
      if cs[0].name == name then Some(cs[0].value) else FirstFragmentValue(Spaced(cs[1..]), name + "=")
  {
    var fs := Spaced(cs);
    assert fs[1..] == Spaced(cs[1..]);
    FirstFragmentStep(fs, name + "=");
    EntryRead(cs[0], name, fs[0]);
  }

  lemma GetCookieReadsJar(jar: seq<Cookie>, name: string)
    requires ValidJar(jar) && ValidName(name)
    ensures CookieValue(Header(jar), name) == Lookup(jar, name)
  {
    var fs := Split(Header(jar), ';');
    if jar == [] {
      assert Split("", ';') == [""];
      FirstFragmentStep(fs, name + "=");
      assert StripSpaces("") == "";
    } else {
      SplitHeader(jar);
      assert fs[1..] == Spaced(jar[1..]);
      SpacedLookup(jar[1..], name);
      FirstFragmentStep(fs, name + "=");
      EntryRead(jar[0], name, fs[0]);
    }
  }

  /** The two cookies of the examples below: `tokenX=abc` and `token=a=b`. */
  lemma ExampleCookiesValid()
    ensures ValidCookie(Cookie("tokenX", "abc")) && ValidCookie(Cookie("token", "a=b"))
  {
    SessionNamesValid();
    assert ValidName("tokenX") by {
      assert "tokenX" == "token" + "X";
    }
  }

  /** The header of the two example cookies. */
  lemma ExampleHeader()
    ensures Header([Cookie("tokenX", "abc"), Cookie("token", "a=b")]) == "tokenX=abc; token=a=b"
  {
    var x, t := Cookie("tokenX", "abc"), Cookie("token", "a=b");
    assert [x, t][1..] == [t];
    ExampleTail();
    assert Entry(x) == "tokenX=abc";
  }

  lemma ExampleTail()
    ensures Tail([Cookie("token", "a=b")]) == "; token=a=b"
  {
    var t := Cookie("token", "a=b");
    assert [t][1..] == [];
    assert Entry(t) == "token=a=b";
  }

  /** A cookie whose name only begins with the name asked for does not match. */
  lemma LongerNameDoesNotMatch()
    ensures CookieValue("tokenX=abc", "token") == None
  {
    var x := Cookie("tokenX", "abc");
    ExampleCookiesValid();
    assert Header([x]) == "tokenX=abc";
    SessionNamesValid();
    GetCookieReadsJar([x], "token");
  }

  /** The cookie after it does, and its value keeps its own `=`. */
  lemma LaterTokenMatches()
    ensures CookieValue("tokenX=abc; token=a=b", "token") == Some("a=b")
  {
    var x, t := Cookie("tokenX", "abc"), Cookie("token", "a=b");
    ExampleCookiesValid();
    ExampleHeader();
    SessionNamesValid();
    GetCookieReadsJar([x, t], "token");
    assert Lookup([x, t], "token") == Lookup([t], "token");
  }

  // ---------------------------------------------------------------------------------------
  // The request interceptor

  predicate TrimmedStartsWithToken(fragment: string) {
    StartsWith(Trim(fragment), "token=")
  }

  /** `fragments.find(c => c.trim().startsWith('token='))`. */
  function TokenFragment(fragments: seq<string>): (r: Option<string>)
    ensures r.None? <==> forall i :: 0 <= i < |fragments| ==> !TrimmedStartsWithToken(fragments[i])
    ensures r.Some? ==> r.value in fragments && TrimmedStartsWithToken(r.value)
    ensures r.Some? ==> exists k :: 0 <= k < |fragments| && fragments[k] == r.value
                                    && forall j :: 0 <= j < k ==> !TrimmedStartsWithToken(fragments[j])
  {
    var k := FindIndex(fragments, TrimmedStartsWithToken);
    assert k.Some? ==> fragments[k.value] == Find(fragments, TrimmedStartsWithToken).value;
    Find(fragments, TrimmedStartsWithToken)
  }

  /**
   * The token the interceptor finds: in the first fragment whose trimmed text starts with
   * `token=`, the text between its first and second `=`.
   */
  function InterceptorToken(cookie: string): Option<string> {
    TokenOf(Split(cookie, ';'))
  }

  /** The header the interceptor sets: `Bearer <t>`, only for a non-empty token. */
  function InterceptorAuthorization(cookie: string): (h: Option<string>)
    ensures h.Some? <==> InterceptorToken(cookie).Some? && InterceptorToken(cookie).value != ""
    ensures h.Some? ==> h.value == "Bearer " + InterceptorToken(cookie).value
  {
    var t := InterceptorToken(cookie);
    if t.Some? && t.value != "" then Some("Bearer " + t.value) else None
  }

  /**
   * What a request carries: the interceptor runs after the call's own headers are set and
   * overwrites `Authorization` whenever it finds a token.
   */
  function WireAuthorization(cookie: string, explicit: Option<string>): Option<string> {
    var i := InterceptorAuthorization(cookie);
    if i.Some? then i else explicit
  }

  lemma {:induction false} SplitPartsKeepAbsence(s: string, sep: char, x: char)
    requires x !in s
    ensures forall i :: 0 <= i < |Split(s, sep)| ==> x !in Split(s, sep)[i]
    decreases |s|
  {
    if s != [] {
      SplitPartsKeepAbsence(s[1..], sep, x);
    }
  }

  /** The interceptor's token contains neither `=` nor `;`. */
  lemma InterceptorTokenShape(cookie: string)
    requires InterceptorToken(cookie).Some?
    ensures '=' !in InterceptorToken(cookie).value
    ensures ';' !in InterceptorToken(cookie).value
  {
    var fragments := Split(cookie, ';');
    var c := TokenFragment(fragments).value;
    var k :| 0 <= k < |fragments| && fragments[k] == c;
    SplitPartsKeepAbsence(c, '=', ';');
  }

  lemma TokenFragmentStep(fragments: seq<string>)
    requires fragments != []
    ensures TokenFragment(fragments) ==
      if TrimmedStartsWithToken(fragments[0]) then Some(fragments[0]) else TokenFragment(fragments[1..])
  {
    FindStep(fragments, TrimmedStartsWithToken);
  }

  /** A cookie's text starts with its name, so not with white space. */
  lemma EntryHead(c: Cookie)
    requires ValidCookie(c)
    ensures Entry(c) != [] && !IsWhitespace(Entry(c)[0])
  {
    if c.name == [] {
      assert Entry(c)[0] == '=';
    } else {
      assert Entry(c)[0] == c.name[0];
    }
  }

  lemma EntryTrimmedBare(c: Cookie)
    requires ValidCookie(c)
    ensures TrimmedStartsWithToken(Entry(c)) <==> c.name == "token"
  {
    EntryHead(c);
    TrimmedStartsWith(Entry(c), "token=");
    assert "token" + "=" == "token=";
    NameKeyMatch(c, "token");
  }

  /** A cookie's fragment, with or without its leading space, is the one the interceptor looks for exactly when it is the token. */
  lemma EntryTrimmed(c: Cookie, f: string)
    requires ValidCookie(c)
    requires f == " " + Entry(c) || f == Entry(c)
    ensures TrimmedStartsWithToken(f) <==> c.name == "token"
  {
    EntryTrimmedBare(c);
    if f != Entry(c) {
      TrimStartOne(' ', Entry(c), IsWhitespace);
      assert Trim(f) == Trim(Entry(c));
    }
  }

  /** In the `token` cookie's fragment, the text between the first and second `=`. */
  lemma EntryToken(c: Cookie, f: string)
    requires c.name == "token"
    requires f == " " + Entry(c) || f == Entry(c)
    ensures |Split(f, '=')| >= 2 && Split(f, '=')[1] == Before(c.value, '=')
  {
    var n := if f == Entry(c) then "token" else " token";
    assert f == n + ['='] + c.value;
    SplitAfterPart(n, c.value, '=');
    BeforeIsFirstPart(c.value, '=');
  }

  /** The value of the `token` cookie cut at its first `=`. */
  function CutAtEquals(v: Option<string>): Option<string> {
    match v
    case None => None
    case Some(s) => Some(Before(s, '='))
  }

  /** What the interceptor makes of a fragment list: the second `=`-part of the matching fragment. */
  function TokenOf(fragments: seq<string>): Option<string> {
    match TokenFragment(fragments)
    case None => None
    case Some(c) =>
      var parts := Split(c, '=');
      if |parts| >= 2 then Some(parts[1]) else None
  }

  /** One cookie of the jar: the interceptor takes its fragment exactly when it is the token. */
  lemma SpacedTokenHead(cs: seq<Cookie>)
    requires cs != [] && ValidCookie(cs[0])
    ensures TokenOf(Spaced(cs)) ==
      if cs[0].name == "token" then Some(Before(cs[0].value, '=')) else TokenOf(Spaced(cs[1..]))
  {
    var fs := Spaced(cs);
    assert fs[1..] == Spaced(cs[1..]);
    TokenFragmentStep(fs);
    EntryTrimmed(cs[0], fs[0]);
    if cs[0].name == "token" {
      EntryToken(cs[0], fs[0]);
    }
  }

  lemma {:induction false} SpacedToken(cs: seq<Cookie>)
    requires ValidJar(cs)
    ensures TokenOf(Spaced(cs)) == CutAtEquals(Lookup(cs, "token"))
    decreases |cs|
  {
    if cs != [] {
      SpacedToken(cs[1..]);
      SpacedTokenHead(cs);
    }
  }

  /**
   * Over a jar the browser maintains, the interceptor finds the `token` cookie's value up to its
   * first `=`; `getCookie` finds all of it.
   */
  lemma InterceptorReadsJar(jar: seq<Cookie>)
    requires ValidJar(jar)
    ensures InterceptorToken(Header(jar)) == CutAtEquals(Lookup(jar, "token"))
  {
    if jar == [] {
      InterceptorEmptyJar();
    } else {
      InterceptorFilledJar(jar);
    }
  }

  lemma InterceptorEmptyJar()
    ensures InterceptorToken("") == None
  {
    var fs := Split("", ';');
    assert fs == [""];
    TokenFragmentStep(fs);
    assert Trim("") == "";
  }

  lemma InterceptorFilledJar(jar: seq<Cookie>)
    requires ValidJar(jar) && jar != []
    ensures InterceptorToken(Header(jar)) == CutAtEquals(Lookup(jar, "token"))
  {
    var fs := Split(Header(jar), ';');
    SplitHeader(jar);
    assert fs[1..] == Spaced(jar[1..]);
    SpacedToken(jar[1..]);
    TokenFragmentStep(fs);
    EntryTrimmed(jar[0], fs[0]);
    if jar[0].name == "token" {
      EntryToken(jar[0], fs[0]);
    }
  }

  /**
   * For a non-empty token without `=`, the header the interceptor writes and the header
   * `getCurrentUser` builds from `getCookie` are the same, so which one wins does not matter.
   */
  lemma InterceptorAgreesWithGetCookie(jar: seq<Cookie>, v: string)
    requires ValidJar(jar)
    requires Lookup(jar, "token") == Some(v) && v != "" && '=' !in v
    ensures CookieValue(Header(jar), "token") == Some(v)
    ensures WireAuthorization(Header(jar), Some("Bearer " + v)) == Some("Bearer " + v)
  {
    SessionNamesValid();
    GetCookieReadsJar(jar, "token");
    InterceptorReadsJar(jar);
    BeforeWithout(v, '=');
    InterceptorWins(Header(jar), v, Some("Bearer " + v));
  }

  /** Whenever the interceptor finds a non-empty token, its header is the one sent. */
  lemma InterceptorWins(cookie: string, t: string, explicit: Option<string>)
    requires InterceptorToken(cookie) == Some(t) && t != ""
    ensures WireAuthorization(cookie, explicit) == Some("Bearer " + t)
  {
  }

  /**
   * For a token whose text before its first `=` is non-empty, the interceptor sends only that
   * text, and its header wins.
   */
  lemma InterceptorCutsToken(jar: seq<Cookie>, v: string)
    requires ValidJar(jar)
    requires Lookup(jar, "token") == Some(v) && Before(v, '=') != ""
    ensures WireAuthorization(Header(jar), Some("Bearer " + v)) == Some("Bearer " + Before(v, '='))
  {
    InterceptorReadsJar(jar);
    InterceptorWins(Header(jar), Before(v, '='), Some("Bearer " + v));
  }

  /** A token that starts with `=` leaves the interceptor nothing to send: the explicit header goes out. */
  lemma InterceptorEmptyCutFallsBack(jar: seq<Cookie>, v: string, explicit: Option<string>)
    requires ValidJar(jar)
    requires Lookup(jar, "token") == Some(v) && Before(v, '=') == ""
    ensures WireAuthorization(Header(jar), explicit) == explicit
  {
    InterceptorReadsJar(jar);
  }

  // ---------------------------------------------------------------------------------------
  // Login, logout, the current user

  /** The role marker `login` stores: `admin` for the backend role `1` or `'1'`, `user` for any other. */
  function RoleMarker(role: Json): (m: string)
    ensures m == "admin" || m == "user"
  {
    if role == Num(1) || role == Str("1") then "admin" else "user"
  }

  /** A backend that names the role instead of numbering it gets the `user` marker. */
  lemma RoleNamesAreUsers()
    ensures RoleMarker(Str("admin")) == "user" && RoleMarker(Num(0)) == "user" && RoleMarker(Num(2)) == "user"
    ensures RoleMarker(Num(1)) == "admin" && RoleMarker(Str("1")) == "admin"
  {
  }

  /** The cookie jar and the service's private user: the state `login`, `logout` and `getCurrentUser` change. */
  datatype Session = Session(jar: seq<Cookie>, user: Json)

  /** How `login` settles: with the response data, or by throwing (rejected call, TypeError). */
  datatype LoginOutcome = Returned(data: Json) | Threw

  /**
   * `login` step by step: a rejected call or a nullish body throws before anything changes; a
   * falsy `token` returns the data with nothing stored; otherwise the token cookie is written,
   * and then a nullish `user` throws (the token cookie stays), or the role cookie and the user
   * are stored and the data returned.
   */
  function LoginEffect(resp: Response, s: Session): (LoginOutcome, Session) {
    match resp
    case Failed => (Threw, s)
    case Ok(data) =>
      if Nullish(data) then (Threw, s)
      else
        var token := Member(data, "token");
        if !Truthy(token) then (Returned(data), s)
        else
          var jar := SetIn(s.jar, "token", StoredValue(ToString(token)));
          var u := Member(data, "user");
          if Nullish(u) then (Threw, Session(jar, s.user))
          else (Returned(data), Session(SetIn(jar, "role", StoredValue(RoleMarker(Member(u, "role")))), u))
  }

  /** `logout`: the token cookie is expired and the user forgotten; the role cookie stays. */
  function LogoutEffect(s: Session): (t: Session)
    ensures Lookup(t.jar, "token") == None && t.user == Null
    ensures forall n :: n != "token" ==> Lookup(t.jar, n) == Lookup(s.jar, n)
  {
    Session(DeleteIn(s.jar, "token"), Null)
  }

  /**
   * How `getCurrentUser` settles, the `Authorization` header its request carried (none: no
   * request, or no header), and the new state.
   */
  datatype CurrentUser = CurrentUser(user: Json, sent: Option<string>, after: Session)

  function CurrentUserEffect(resp: Response, s: Session): CurrentUser {
    var token := CookieValue(Header(s.jar), "token");
    if token.None? || token.value == "" then CurrentUser(Null, None, s)
    else
      var sent := WireAuthorization(Header(s.jar), Some("Bearer " + token.value));
      match resp
      case Failed => CurrentUser(Null, sent, LogoutEffect(s))
      case Ok(data) => CurrentUser(data, sent, Session(s.jar, data))
  }

  /** `getCurrentUser` with a token and a rejected request: the session is logged out. */
  lemma CurrentUserRejected(s: Session, token: string)
    requires CookieValue(Header(s.jar), "token") == Some(token) && token != ""
    ensures CurrentUserEffect(Failed, s) ==
      CurrentUser(Null, WireAuthorization(Header(s.jar), Some("Bearer " + token)), LogoutEffect(s))
  {
  }

  /** `getCurrentUser` with a token and an answered request: the user is stored. */
  lemma CurrentUserAnswered(data: Json, s: Session, token: string)
    requires CookieValue(Header(s.jar), "token") == Some(token) && token != ""
    ensures CurrentUserEffect(Ok(data), s) ==
      CurrentUser(data, WireAuthorization(Header(s.jar), Some("Bearer " + token)), Session(s.jar, data))
  {
  }

  /** A rejected login call changes nothing and throws. */
  lemma FailedLoginChangesNothing(s: Session)
    ensures LoginEffect(Failed, s) == (Threw, s)
  {
  }

  /** `login` returns the response data unchanged whenever it does not throw. */
  lemma LoginReturnsData(data: Json, s: Session)
    requires !Nullish(data)
    requires Truthy(Member(data, "token")) ==> !Nullish(Member(data, "user"))
    ensures LoginEffect(Ok(data), s).0 == Returned(data)
  {
  }

  /** Without a truthy token `login` stores nothing. */
  lemma LoginWithoutToken(data: Json, s: Session)
    requires !Nullish(data) && !Truthy(Member(data, "token"))
    ensures LoginEffect(Ok(data), s) == (Returned(data), s)
  {
  }

  /**
   * A login whose response has a truthy token but no user throws when it reads the user's role,
   * after the token cookie has been written: the throw leaves the token stored and the user as
   * it was.
   */
  lemma LoginThrowsWithTokenStored(data: Json, s: Session)
    requires !Nullish(data) && Truthy(Member(data, "token")) && Nullish(Member(data, "user"))
    ensures LoginEffect(Ok(data), s).0 == Threw
    ensures Lookup(LoginEffect(Ok(data), s).1.jar, "token") == Some(StoredValue(ToString(Member(data, "token"))))
    ensures LoginEffect(Ok(data), s).1.user == s.user
  {
  }

  /**
   * A complete login stores the token, the role marker and the user, and leaves every other
   * cookie as it was.
   */
  lemma LoginStoresSession(data: Json, s: Session, other: string)
    requires !Nullish(data) && Truthy(Member(data, "token")) && !Nullish(Member(data, "user"))
    requires other != "token" && other != "role"
    ensures var t := LoginEffect(Ok(data), s).1;
      && Lookup(t.jar, "token") == Some(StoredValue(ToString(Member(data, "token"))))
      && Lookup(t.jar, "role") == Some(RoleMarker(Member(Member(data, "user"), "role")))
      && t.user == Member(data, "user")
      && Lookup(t.jar, other) == Lookup(s.jar, other)
  {
    var stored := StoredValue(ToString(Member(data, "token")));
    var jar := SetIn(s.jar, "token", stored);
    var marker := RoleMarker(Member(Member(data, "user"), "role"));
    MarkerStored(marker);
    var t := LoginEffect(Ok(data), s).1;
    assert t == Session(SetIn(jar, "role", StoredValue(marker)), Member(data, "user"));
    SetInKeepsOthers(jar, "role", marker, "token");
    SetInKeepsOthers(jar, "role", marker, other);
    SetInKeepsOthers(s.jar, "token", stored, other);
  }

  /** The role markers are stored as they are. */
  lemma MarkerStored(marker: string)
    requires marker == "admin" || marker == "user"
    ensures StoredValue(marker) == marker
  {
    StoredValuePlain(marker);
  }

  /** After a login that stored a non-empty token the guard sends the sign-in page to the dashboard. */
  lemma LoginThenGuard(data: Json, s: Session)
    requires !Nullish(data) && Truthy(Member(data, "token")) && !Nullish(Member(data, "user"))
    requires StoredValue(ToString(Member(data, "token"))) != ""
    ensures Middleware.Guard("/", Lookup(LoginEffect(Ok(data), s).1.jar, "token")) == Middleware.Redirect("/dashboard")
  {
    var token := Lookup(LoginEffect(Ok(data), s).1.jar, "token");
    LoginStoresSession(data, s, "user");
    assert token == Some(StoredValue(ToString(Member(data, "token"))));
    assert Middleware.InAuthArea("/") && Middleware.HasToken(token);
  }

  /** After logout the guard sends every dashboard page back to `/`. */
  lemma LogoutThenGuard(s: Session, pathname: string)
    requires Middleware.InDashboardArea(pathname)
    ensures Middleware.Guard(pathname, Lookup(LogoutEffect(s).jar, "token")) == Middleware.Redirect("/")
  {
  }

  /** Without a non-empty token cookie `getCurrentUser` sends no request and changes nothing. */
  lemma CurrentUserWithoutToken(resp: Response, s: Session)
    requires ValidJar(s.jar)
    requires Lookup(s.jar, "token").None? || Lookup(s.jar, "token") == Some("")
    ensures CurrentUserEffect(resp, s) == CurrentUser(Null, None, s)
  {
    SessionNamesValid();
    GetCookieReadsJar(s.jar, "token");
  }

  /** The token the request of `getCurrentUser` carries: the interceptor's cut copy, unless that is empty. */
  function SentToken(v: string): string {
    if Before(v, '=') != "" then Before(v, '=') else v
  }

  /**
   * With a token, `getCurrentUser` sends it as a bearer token (up to its first `=`, which is
   * what the interceptor extracts); on success it stores and returns the fetched user, on
   * failure it logs out and returns null.
   */
  lemma CurrentUserWithToken(resp: Response, s: Session)
    requires ValidJar(s.jar)
    requires Lookup(s.jar, "token").Some? && Lookup(s.jar, "token").value != ""
    ensures var r := CurrentUserEffect(resp, s);
      && r.sent == Some("Bearer " + SentToken(Lookup(s.jar, "token").value))
      && (resp.Ok? ==> r.user == resp.data && r.after == Session(s.jar, resp.data))
      && (resp.Failed? ==> r.user == Null && r.after == LogoutEffect(s) && Lookup(r.after.jar, "token") == None)
  {
    var v := Lookup(s.jar, "token").value;
    SessionNamesValid();
    GetCookieReadsJar(s.jar, "token");
    InterceptorReadsJar(s.jar);
    if Before(v, '=') != "" {
      InterceptorWins(Header(s.jar), Before(v, '='), Some("Bearer " + v));
    }
  }

  /** For a token without `=` the request carries the whole cookie value. */
  lemma SentTokenWhole(v: string)
    requires '=' !in v
    ensures SentToken(v) == v
  {
    BeforeWithout(v, '=');
  }

  /** `validateResetToken` never throws: true when the call succeeds, false on any error. */
  function ValidateResetToken(resp: Response): (ok: bool)
    ensures ok <==> resp.Ok?
  {
    resp.Ok?
  }

  /** The service object: the cookie jar it reads and writes, and its private user. */
  class AuthService {
    var jar: seq<Cookie>
    var user: Json

    ghost predicate Valid()
      reads this
    {
      ValidJar(jar)
    }

    constructor (cookies: seq<Cookie>)
      requires ValidJar(cookies)
      ensures Valid() && jar == cookies && user == Null
    {
      jar := cookies;
      user := Null;
    }

    method SetCookie(name: string, value: string)
      requires Valid() && ValidName(name)
      modifies this`jar
      ensures Valid() && jar == SetIn(old(jar), name, StoredValue(value))
    {
      jar := SetIn(jar, name, StoredValue(value));
    }

    method DeleteCookie(name: string)
      requires Valid()
      modifies this`jar
      ensures Valid() && jar == DeleteIn(old(jar), name)
    {
      jar := DeleteIn(jar, name);
    }

    /** `getCookie`: a scan over the `;`-separated fragments of `document.cookie`. */
    method GetCookie(name: string) returns (r: Option<string>)
      ensures r == CookieValue(Header(jar), name)
    {
      var nameEQ := name + "=";
      var ca := Split(Header(jar), ';');
      assert CookieValue(Header(jar), name) == FirstFragmentValue(ca[0..], nameEQ);
      var i := 0;
      while i < |ca|
        invariant 0 <= i <= |ca|
        invariant FirstFragmentValue(ca, nameEQ) == FirstFragmentValue(ca[i..], nameEQ)
      {
        var c := StripLeadingSpaces(ca[i]);
        FirstFragmentStep(ca[i..], nameEQ);
        assert ca[i..][1..] == ca[i + 1..];
        if StartsWith(c, nameEQ) {
          return Some(c[|nameEQ|..]);
        }
        i := i + 1;
      }
      return None;
    }

    method GetToken() returns (r: Option<string>)
      ensures r == CookieValue(Header(jar), "token")
    {
      r := GetCookie("token");
    }

    method SetUser(u: Json)
      modifies this`user
      ensures user == u
    {
      user := u;
    }

    function GetUser(): (u: Json)
      reads this
      ensures u == user
    {
      user
    }

    method Login(resp: Response) returns (outcome: LoginOutcome)
      requires Valid()
      modifies this
      ensures Valid()
      ensures (outcome, Session(jar, user)) == LoginEffect(resp, Session(old(jar), old(user)))
    {
      if resp.Failed? {
        return Threw;
      }
      var data := resp.data;
      if Nullish(data) {
        return Threw;
      }
      var token := Member(data, "token");
      if Truthy(token) {
        SessionNamesValid();
        SetCookie("token", ToString(token));
        var u := Member(data, "user");
        if Nullish(u) {
          return Threw;
        }
        var roleValue := "user";
        if Member(u, "role") == Num(1) || Member(u, "role") == Str("1") {
          roleValue := "admin";
        }
        SetCookie("role", roleValue);
        SetUser(u);
      }
      return Returned(data);
    }

    method Logout()
      requires Valid()
      modifies this
      ensures Valid()
      ensures Session(jar, user) == LogoutEffect(Session(old(jar), old(user)))
    {
      DeleteCookie("token");
      SetUser(Null);
    }

    method GetCurrentUser(resp: Response) returns (r: Json, sent: Option<string>)
      requires Valid()
      modifies this
      ensures Valid()
      ensures CurrentUser(r, sent, Session(jar, user)) == CurrentUserEffect(resp, Session(old(jar), old(user)))
    {
      ghost var before := Session(jar, user);
      var token := GetCookie("token");
      if token.None? || token.value == "" {
        return Null, None;
      }
      r, sent := FetchCurrentUser(resp, token.value);
      if resp.Failed? {
        CurrentUserRejected(before, token.value);
      } else {
        CurrentUserAnswered(resp.data, before, token.value);
      }
    }

    /**
     * The `try` block of `getCurrentUser`: the request goes out with the token; a rejected one
     * logs out and gives `null`, an answered one stores and gives the user.
     */
    method FetchCurrentUser(resp: Response, token: string) returns (r: Json, sent: Option<string>)
      requires Valid()
      modifies this
      ensures Valid()
      ensures sent == WireAuthorization(Header(old(jar)), Some("Bearer " + token))
      ensures resp.Failed? ==> r == Null && Session(jar, user) == LogoutEffect(Session(old(jar), old(user)))
      ensures resp.Ok? ==> r == resp.data && jar == old(jar) && user == resp.data
    {
      sent := WireAuthorization(Header(jar), Some("Bearer " + token));
      match resp
      case Failed =>
        Logout();
        r := Null;
      case Ok(data) =>
        SetUser(data);
        r := data;
    }
  }
}
