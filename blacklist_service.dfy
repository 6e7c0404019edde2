/**
 * The blacklist service: its own token lookup (a regular-expression match on
 * `document.cookie`), the bearer header it attaches, and how it turns backend responses into
 * blacklist records. Every operation catches what goes wrong (a rejected call, a `TypeError`
 * on a missing body or a missing list element, a `URIError` while decoding the token) and
 * answers with a fallback instead.
 */
module BlacklistService {
  import opened Js
  import opened CookieJar
  import Auth

  // ---------------------------------------------------------------------------------------
  // getTokenFromCookie

  /** The separator `; ` directly followed by `token=`, the second alternative of the pattern. */
  const SeparatedKey := "; token="

  /** Whether `SeparatedKey` occurs in `s` at position `p`. */
  predicate KeyAt(s: string, p: int) {
    0 <= p && p + |SeparatedKey| <= |s| && s[p..p + |SeparatedKey|] == SeparatedKey
  }

  lemma KeyAtShiftOne(s: string, p: int)
    requires s != [] && 1 <= p
    ensures KeyAt(s, p) <==> KeyAt(s[1..], p - 1)
  {
    var n := |SeparatedKey|;
    if p + n <= |s| {
      var a, b := s[p..p + n], s[1..][p - 1..p - 1 + n];
      forall k | 0 <= k < n ensures a[k] == b[k] {
        assert a[k] == s[p + k];
        assert b[k] == s[1..][p - 1 + k];
      }
      assert a == b;
    }
  }

  lemma KeyAtShift(s: string)
    requires s != []
    ensures forall p :: 1 <= p ==> (KeyAt(s, p) <==> KeyAt(s[1..], p - 1))
  {
    forall p | 1 <= p
      ensures KeyAt(s, p) <==> KeyAt(s[1..], p - 1)
    {
      KeyAtShiftOne(s, p);
    }
  }

  /** A match starts with `;`. */
  lemma KeyAtSemicolon(s: string, p: int)
    requires 0 <= p < |s| && s[p] != ';'
    ensures !KeyAt(s, p)
  {
    if p + |SeparatedKey| <= |s| {
      assert s[p..p + |SeparatedKey|][0] == s[p];
    }
  }

  /** The leftmost position where `SeparatedKey` occurs in `s`, if any. */
  function SeparatedAt(s: string): (r: Option<nat>)
    ensures r.None? <==> forall p :: 0 <= p < |s| ==> !KeyAt(s, p)
    ensures r.Some? ==> KeyAt(s, r.value) && forall q :: 0 <= q < r.value ==> !KeyAt(s, q)
    decreases |s|
  {
    if s == [] then None
    else if KeyAt(s, 0) then Some(0)
    else
      var r := SeparatedAt(s[1..]);
      KeyAtShift(s);
      if r.None? then None
      else
        assert KeyAt(s, r.value + 1);
        Some(r.value + 1)
  }

  /** The capture of the second alternative at its leftmost match: the text up to the next `;`. */
  function SearchSeparated(s: string): (r: Option<string>)
    ensures r.None? <==> SeparatedAt(s).None?
    ensures r.Some? ==> r.value == Before(s[SeparatedAt(s).value + |SeparatedKey|..], ';')
  {
    match SeparatedAt(s)
    case None => None
    case Some(p) => Some(Before(s[p + |SeparatedKey|..], ';'))
  }

  /**
   * `document.cookie.match(/(?:^|; )token=([^;]*)/)?.[1]`: `token=` at the very start, or else
   * the leftmost `; token=`; the capture runs to the next `;` or the end.
   */
  function RegexToken(cookie: string): (r: Option<string>)
    ensures r.Some? <==> StartsWith(cookie, "token=") || exists p :: 0 <= p < |cookie| && KeyAt(cookie, p)
    ensures r.Some? ==> ';' !in r.value
    ensures StartsWith(cookie, "token=") ==> r == Some(Before(cookie[6..], ';'))
    ensures !StartsWith(cookie, "token=") ==> r == SearchSeparated(cookie)
  {
    if StartsWith(cookie, "token=") then Some(Before(cookie[6..], ';')) else SearchSeparated(cookie)
  }

  /** `token=` in the middle of a cookie value is not a match: it must follow `; ` or start the text. */
  lemma RegexNeedsSeparator()
    ensures RegexToken("a=token=x") == None
    ensures RegexToken("a=1;token=x") == None
  {
    var s1, s2 := "a=token=x", "a=1;token=x";
    assert s1[..6][0] != 't' && s2[..6][0] != 't';
    forall p | 0 <= p < |s1| ensures !KeyAt(s1, p) {
      KeyAtSemicolon(s1, p);
    }
    forall p | 0 <= p < |s2| ensures !KeyAt(s2, p) {
      if p != 3 {
        KeyAtSemicolon(s2, p);
      } else {
        assert s2[3..3 + |SeparatedKey|][1] == 't';
      }
    }
  }

  /** After `; ` the match is found, and the capture stops at the next `;`. */
  lemma RegexFindsSeparated()
    ensures RegexToken("a=1; token=x; b=2") == Some("x")
  {
    var t := "; token=x; b=2";
    CaptureStops(t);
    assert "a=1; token=x; b=2" == "a=1" + t;
    SearchSkips("a=1", t);
    assert !StartsWith("a=1; token=x; b=2", "token=") by {
      assert "a=1; token=x; b=2"[..6][0] != 't';
    }
  }

  lemma CaptureStops(t: string)
    requires t == "; token=x; b=2"
    ensures SearchSeparated(t) == Some("x")
  {
    assert t[0..|SeparatedKey|] == SeparatedKey;
    assert SeparatedAt(t) == Some(0);
    assert t[|SeparatedKey|..] == "x" + "; b=2";
    BeforeConcat("x", "; b=2", ';');
  }

  /** Past a first character that starts no match, the search goes on in the rest. */
  lemma SearchStep(s: string)
    requires s != [] && !KeyAt(s, 0)
    ensures SearchSeparated(s) == SearchSeparated(s[1..])
  {
    var r := SeparatedAt(s[1..]);
    if r.Some? {
      assert s[r.value + 1 + |SeparatedKey|..] == s[1..][r.value + |SeparatedKey|..];
    }
  }

  /** Text without `;` holds no separator, so the search skips over it. */
  lemma {:induction false} SearchSkips(a: string, b: string)
    requires ';' !in a
    ensures SearchSeparated(a + b) == SearchSeparated(b)
    decreases |a|
  {
    if a == [] {
      assert a + b == b;
    } else {
      assert (a + b)[0] == a[0];
      assert !KeyAt(a + b, 0);
      SearchStep(a + b);
      assert (a + b)[1..] == a[1..] + b;
      SearchSkips(a[1..], b);
    }
  }

  /** A cookie, with its separator in front, starts a match exactly when it is the token. */
  lemma TailKey(c: Cookie, t: string)
    requires ValidCookie(c)
    ensures KeyAt("; " + (Entry(c) + t), 0) <==> c.name == "token"
  {
    SessionNamesValid();
    NameKeyMatchBefore(c, "token", t);
    assert "token" + "=" == "token=";
    StartsWithCommon("; ", Entry(c) + t, "token=");
    assert "; " + "token=" == SeparatedKey;
  }

  /** The token cookie read directly: its whole value, which is followed by a separator or nothing. */
  lemma TokenCapture(c: Cookie, t: string, skip: nat)
    requires ValidCookie(c) && c.name == "token" && (t == [] || t[0] == ';')
    requires skip == 0 || skip == 2
    ensures Before(((if skip == 2 then "; " else "") + (Entry(c) + t))[skip + 6..], ';') == c.value
  {
    var s := (if skip == 2 then "; " else "") + (Entry(c) + t);
    assert s[skip + 6..] == c.value + t;
    BeforeConcat(c.value, t, ';');
  }

  /** Over the cookies after the first, the separated search finds the `token` cookie's value. */
  lemma {:induction false} SearchTail(cs: seq<Cookie>)
    requires ValidJar(cs)
    ensures SearchSeparated(Tail(cs)) == Lookup(cs, "token")
    decreases |cs|
  {
    if cs != [] {
      if cs[0].name == "token" {
        SearchTailToken(cs);
      } else {
        SearchTail(cs[1..]);
        SearchTailOther(cs);
      }
    }
  }

  lemma SearchTailToken(cs: seq<Cookie>)
    requires ValidJar(cs) && cs != [] && cs[0].name == "token"
    ensures SearchSeparated(Tail(cs)) == Some(cs[0].value)
  {
    var t := Tail(cs[1..]);
    assert Tail(cs) == "; " + (Entry(cs[0]) + t);
    TailKey(cs[0], t);
    assert SeparatedAt(Tail(cs)) == Some(0);
    TailStart(cs[1..]);
    TokenCapture(cs[0], t, 2);
  }

  lemma SearchTailOther(cs: seq<Cookie>)
    requires ValidJar(cs) && cs != [] && cs[0].name != "token"
    ensures SearchSeparated(Tail(cs)) == SearchSeparated(Tail(cs[1..]))
  {
    var e, t := Entry(cs[0]), Tail(cs[1..]);
    assert Tail(cs) == "; " + (e + t);
    TailKey(cs[0], t);
    EntryNoSemicolon(cs[0]);
    SkipEntry(e, t);
  }

  /** A fragment that does not start a match is skipped as a whole. */
  lemma SkipEntry(e: string, t: string)
    requires ';' !in e && !KeyAt("; " + (e + t), 0)
    ensures SearchSeparated("; " + (e + t)) == SearchSeparated(t)
  {
    var s := "; " + (e + t);
    SearchStep(s);
    assert s[1..] == " " + e + t;
    assert ';' !in " " + e;
    SearchSkips(" " + e, t);
  }

  /** Over a jar the browser maintains, the regular expression finds the `token` cookie's value. */
  lemma RegexReadsJar(jar: seq<Cookie>)
    requires ValidJar(jar)
    ensures RegexToken(Header(jar)) == Lookup(jar, "token")
  {
    if jar != [] {
      var e, t := Entry(jar[0]), Tail(jar[1..]);
      assert Header(jar) == e + t;
      SessionNamesValid();
      NameKeyMatchBefore(jar[0], "token", t);
      assert "token" + "=" == "token=";
      if jar[0].name == "token" {
        TailStart(jar[1..]);
        TokenCapture(jar[0], t, 0);
        assert "" + (e + t) == e + t;
      } else {
        SearchTail(jar[1..]);
        EntryNoSemicolon(jar[0]);
        SearchSkips(e, t);
      }
    }
  }

  /** Over such a jar, this service and `getCookie` of the session service read the same raw token. */
  lemma RegexAgreesWithGetCookie(jar: seq<Cookie>)
    requires ValidJar(jar)
    ensures RegexToken(Header(jar)) == Auth.CookieValue(Header(jar), "token")
  {
    RegexReadsJar(jar);
    SessionNamesValid();
    Auth.GetCookieReadsJar(jar, "token");
  }

  /** What `getTokenFromCookie` produces: no token, a decoded one, or a `URIError` from decoding. */
  datatype CookieToken = NoToken | Token(value: string) | Undecodable

  /** `getTokenFromCookie`, with `decodeURIComponent` as a parameter (none: it throws). */
  function TokenFromCookie(cookie: string, decode: string -> Option<string>): (t: CookieToken)
    ensures t.NoToken? <==> RegexToken(cookie).None?
    ensures t.Token? ==> decode(RegexToken(cookie).value) == Some(t.value)
    ensures t.Undecodable? <==> RegexToken(cookie).Some? && decode(RegexToken(cookie).value).None?
  {
    match RegexToken(cookie)
    case None => NoToken
    case Some(raw) =>
      match decode(raw)
      case None => Undecodable
      case Some(v) => Token(v)
  }

  /** `token ? { Authorization: 'Bearer ' + token } : {}`. */
  function RequestAuthorization(token: CookieToken): (h: Option<string>)
    ensures h.Some? <==> token.Token? && token.value != ""
    ensures h.Some? ==> h.value == "Bearer " + token.value
  {
    if token.Token? && token.value != "" then Some("Bearer " + token.value) else None
  }

  /**
   * With the session service loaded its interceptor also runs: for a jar token without `=`
   * that decodes to itself, both set the same header.
   */
  lemma HeaderAgreesWithInterceptor(jar: seq<Cookie>, v: string, decode: string -> Option<string>)
    requires ValidJar(jar)
    requires Lookup(jar, "token") == Some(v) && v != "" && '=' !in v && decode(v) == Some(v)
    ensures RequestAuthorization(TokenFromCookie(Header(jar), decode)) == Some("Bearer " + v)
    ensures Auth.WireAuthorization(Header(jar), RequestAuthorization(TokenFromCookie(Header(jar), decode)))
      == Some("Bearer " + v)
  {
    RegexReadsJar(jar);
    Auth.InterceptorAgreesWithGetCookie(jar, v);
  }

  // ---------------------------------------------------------------------------------------
  // Records

  /** A blacklist record as the service returns it. */
  datatype BlacklistEntry = BlacklistEntry(
    id: Json, plateNumber: Json, addedBy: Json, createAt: Json, reason: Json, status: Json)

  predicate NonEmptyString(j: Json) {
    j.Str? && j.s != ""
  }

  /**
   * The status of the list and create operations: a non-empty string with its first character
   * upper-cased, and `'Active'` for a missing, empty or non-string status.
   */
  function CapitalizedStatus(status: Json): (r: Json)
    ensures NonEmptyString(r)
    ensures NonEmptyString(status) ==>
      |r.s| == |status.s| && r.s[0] == UpperChar(status.s[0]) && r.s[1..] == status.s[1..]
    ensures !NonEmptyString(status) ==> r == Str("Active")
  {
    if Truthy(status) && status.Str? then Str([UpperChar(status.s[0])] + status.s[1..]) else Str("Active")
  }

  /** Capitalising is idempotent. */
  lemma CapitalizedStatusIdempotent(status: Json)
    ensures CapitalizedStatus(CapitalizedStatus(status)) == CapitalizedStatus(status)
  {
    var r := CapitalizedStatus(status);
    UpperCharIdempotent(r.s[0]);
    assert [r.s[0]] + r.s[1..] == r.s;
  }

  /** An already capitalised status comes back unchanged. */
  lemma CapitalizedStatusKeeps(s: string)
    requires s != [] && UpperChar(s[0]) == s[0]
    ensures CapitalizedStatus(Str(s)) == Str(s)
  {
    assert [s[0]] + s[1..] == s;
  }

  /** The status of the get and update operations: `entry.status || 'Active'`, not capitalised. */
  function PlainStatus(status: Json): (r: Json)
    ensures Truthy(r)
    ensures Truthy(status) ==> r == status
    ensures !Truthy(status) ==> r == Str("Active")
  {
    Or(status, Str("Active"))
  }

  /** The record built from a backend entry, with the status already normalised. */
  function Record(entry: Json, status: Json): (e: BlacklistEntry)
    ensures e.id == Member(entry, "id") && e.plateNumber == Member(entry, "plateNumber")
    ensures e.addedBy == Member(entry, "addedBy") && e.createAt == Member(entry, "createAt")
    ensures e.reason == Member(entry, "reason") && e.status == status
  {
    BlacklistEntry(Member(entry, "id"), Member(entry, "plateNumber"), Member(entry, "addedBy"),
      Member(entry, "createAt"), Member(entry, "reason"), status)
  }

  /** The record of a backend entry in the list and create operations. */
  function ListRecord(entry: Json): BlacklistEntry {
    Record(entry, CapitalizedStatus(Member(entry, "status")))
  }

  // ---------------------------------------------------------------------------------------
  // The operations

  /** The list inside a list response, when the response can be read at all. */
  function ListOf(resp: Response): Option<seq<Json>> {
    if resp.Failed? || Nullish(resp.data) then None
    else if Member(resp.data, "data").Arr? then Some(Member(resp.data, "data").items)
    else Some([])
  }

  /** `list.map(...)` reads fields of every element, so a nullish element throws. */
  predicate Readable(items: seq<Json>) {
    forall i :: 0 <= i < |items| ==> !Nullish(items[i])
  }

  /**
   * `getBlacklists`: the records of `response.data.data`, in order, when it is an array and the
   * call, the token decoding and every element read succeed; otherwise `[]`.
   */
  function GetBlacklists(token: CookieToken, resp: Response): (r: seq<BlacklistEntry>)
    ensures token.Undecodable? || ListOf(resp).None? ==> r == []
    ensures resp.Ok? && !Nullish(resp.data) && !Member(resp.data, "data").Arr? ==> r == []
    ensures !token.Undecodable? && ListOf(resp).Some? && Readable(ListOf(resp).value) ==>
      |r| == |ListOf(resp).value| && forall i :: 0 <= i < |r| ==> r[i] == ListRecord(ListOf(resp).value[i])
    ensures !token.Undecodable? && ListOf(resp).Some? && !Readable(ListOf(resp).value) ==> r == []
  {
    var items := ListOf(resp);
    if token.Undecodable? || items.None? || !Readable(items.value) then []
    else seq(|items.value|, i requires 0 <= i < |items.value| => ListRecord(items.value[i]))
  }

  /**
   * The list keeps the backend's order and copies every field but the status: the entry at
   * position `i` comes from backend element `i`.
   */
  lemma GetBlacklistsCopies(token: CookieToken, items: seq<Json>, i: int)
    requires !token.Undecodable? && Readable(items) && 0 <= i < |items|
    ensures var resp := Ok(Obj(map["data" := Arr(items)]));
      && |GetBlacklists(token, resp)| == |items|
      && GetBlacklists(token, resp)[i].plateNumber == Member(items[i], "plateNumber")
      && GetBlacklists(token, resp)[i].reason == Member(items[i], "reason")
      && GetBlacklists(token, resp)[i].status == CapitalizedStatus(Member(items[i], "status"))
  {
    var resp := Ok(Obj(map["data" := Arr(items)]));
    assert Member(resp.data, "data") == Arr(items);
  }

  /** `response.data.blacklist || response.data` (`getBlacklist`, `updateBlacklist`). */
  function EntryEnvelope(data: Json): (entry: Json)
    requires !Nullish(data)
    ensures !Nullish(entry)
    ensures Truthy(Member(data, "blacklist")) ==> entry == Member(data, "blacklist")
    ensures !Truthy(Member(data, "blacklist")) ==> entry == data
  {
    OrNotNullish(Member(data, "blacklist"), data);
    Or(Member(data, "blacklist"), data)
  }

  /** `response.data.data || response.data.blacklist || response.data` (`createBlacklist`). */
  function CreatedEnvelope(data: Json): (entry: Json)
    requires !Nullish(data)
    ensures !Nullish(entry)
    ensures Truthy(Member(data, "data")) ==> entry == Member(data, "data")
    ensures !Truthy(Member(data, "data")) && Truthy(Member(data, "blacklist")) ==> entry == Member(data, "blacklist")
    ensures !Truthy(Member(data, "data")) && !Truthy(Member(data, "blacklist")) ==> entry == data
  {
    OrNotNullish(Or(Member(data, "data"), Member(data, "blacklist")), data);
    Or(Or(Member(data, "data"), Member(data, "blacklist")), data)
  }

  /**
   * `getBlacklist` and `updateBlacklist`, whose normalisation is the same: the record from the
   * envelope with the plain status, or none when the call or the token decoding fails or the
   * body is nullish.
   */
  function StoredEntry(token: CookieToken, resp: Response): (r: Option<BlacklistEntry>)
    ensures r.None? <==> token.Undecodable? || resp.Failed? || Nullish(resp.data)
    ensures r.Some? ==> r.value == Record(EntryEnvelope(resp.data), PlainStatus(Member(EntryEnvelope(resp.data), "status")))
    ensures r.Some? ==> Truthy(r.value.status)
  {
    if token.Undecodable? || resp.Failed? || Nullish(resp.data) then None
    else
      var entry := EntryEnvelope(resp.data);
      Some(Record(entry, PlainStatus(Member(entry, "status"))))
  }

  /** `createBlacklist`: like the above, from the wider envelope and with the capitalised status. */
  function CreateBlacklist(token: CookieToken, resp: Response): (r: Option<BlacklistEntry>)
    ensures r.None? <==> token.Undecodable? || resp.Failed? || Nullish(resp.data)
    ensures r.Some? ==> r.value == ListRecord(CreatedEnvelope(resp.data))
    ensures r.Some? ==> NonEmptyString(r.value.status)
  {
    if token.Undecodable? || resp.Failed? || Nullish(resp.data) then None
    else Some(ListRecord(CreatedEnvelope(resp.data)))
  }

  /** A backend that wraps the record in `data` gets it back from create, but not from get or update. */
  lemma EnvelopesDiffer(record: Json)
    requires Truthy(record) && Member(record, "blacklist") == Undefined
    ensures var resp := Ok(Obj(map["data" := record]));
      && CreateBlacklist(NoToken, resp) == Some(ListRecord(record))
      && StoredEntry(NoToken, resp) == Some(Record(Obj(map["data" := record]), Str("Active")))
  {
    var data := Obj(map["data" := record]);
    assert Member(data, "data") == record;
    assert Member(data, "blacklist") == Undefined;
    assert Member(data, "status") == Undefined;
  }

  /** `deleteBlacklist`: true exactly when the token decodes and the call succeeds. */
  function DeleteBlacklist(token: CookieToken, resp: Response): (ok: bool)
    ensures ok <==> !token.Undecodable? && resp.Ok?
  {
    !token.Undecodable? && resp.Ok?
  }
}
