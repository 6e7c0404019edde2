/**
 * The browser's cookie jar as the client code sees it: an ordered list of name/value pairs,
 * written by assigning `document.cookie` and read back as one header string
 * `name=value; name=value`. Expiry, path and the other attributes are not modelled; an
 * expired cookie (the way the code deletes one) is simply removed.
 */
module CookieJar {
  import opened Js

  datatype Cookie = Cookie(name: string, value: string)

  predicate IsSpaceOrTab(c: char) {
    c == ' ' || c == '\t'
  }

  /** A cookie name as a browser keeps it: no `=`, no `;`, no white space. */
  predicate ValidName(name: string) {
    forall k :: 0 <= k < |name| ==> name[k] != '=' && name[k] != ';' && !IsWhitespace(name[k])
  }

  /** The two names the session code writes are valid cookie names. */
  lemma SessionNamesValid()
    ensures ValidName("token") && ValidName("role")
  {
  }

  predicate ValidCookie(c: Cookie) {
    ValidName(c.name) && ';' !in c.value
  }

  predicate ValidJar(jar: seq<Cookie>) {
    forall i :: 0 <= i < |jar| ==> ValidCookie(jar[i])
  }

  lemma NotInSuffix(s: string, k: nat, x: char)
    requires k <= |s| && x !in s
    ensures x !in s[k..]
  {
  }

  lemma NotInPrefix(s: string, k: nat, x: char)
    requires k <= |s| && x !in s
    ensures x !in s[..k]
  {
  }

  /**
   * The value a browser stores for `document.cookie = name + "=" + v + ";expires=…"`: the text
   * before the first `;` (what follows are attributes), without surrounding spaces and tabs
   * (section 5.2 of RFC 6265).
   */
  function StoredValue(v: string): (r: string)
    ensures ';' !in r
  {
    var b := Before(v, ';');
    var s := TrimStartBy(b, IsSpaceOrTab);
    NotInSuffix(b, |b| - |s|, ';');
    var r := TrimEndBy(s, IsSpaceOrTab);
    NotInPrefix(s, |r|, ';');
    r
  }

  /** A value without `;` and without surrounding spaces and tabs is stored as it is. */
  lemma StoredValuePlain(v: string)
    requires ';' !in v
    requires v != [] ==> !IsSpaceOrTab(v[0]) && !IsSpaceOrTab(v[|v| - 1])
    ensures StoredValue(v) == v
  {
    BeforeWithout(v, ';');
    assert TrimStartBy(v, IsSpaceOrTab) == v;
    assert TrimEndBy(v, IsSpaceOrTab) == v;
  }

  /** The value of the first cookie called `name`. */
  function Lookup(jar: seq<Cookie>, name: string): Option<string>
    decreases |jar|
  {
    if jar == [] then None
    else if jar[0].name == name then Some(jar[0].value)
    else Lookup(jar[1..], name)
  }

  /**
   * Storing a cookie whose value the browser has already cut to `StoredValue`: an existing
   * cookie of that name keeps its place and takes the new value (section 5.3 of RFC 6265), a
   * new one goes last.
   */
  function SetIn(jar: seq<Cookie>, name: string, value: string): (r: seq<Cookie>)
    ensures Lookup(r, name) == Some(value)
    ensures ValidJar(jar) && ValidName(name) && ';' !in value ==> ValidJar(r)
    decreases |jar|
  {
    var c := Cookie(name, value);
    if jar == [] then [c]
    else if jar[0].name == name then [c] + jar[1..]
    else
      var rest := SetIn(jar[1..], name, value);
      assert ([jar[0]] + rest)[1..] == rest;
      [jar[0]] + rest
  }

  /** Writing one cookie leaves every other name reading as before. */
  lemma {:induction false} SetInKeepsOthers(jar: seq<Cookie>, name: string, value: string, other: string)
    requires other != name
    ensures Lookup(SetIn(jar, name, value), other) == Lookup(jar, other)
    decreases |jar|
  {
    if jar != [] && jar[0].name != name {
      SetInKeepsOthers(jar[1..], name, value, other);
      assert SetIn(jar, name, value)[1..] == SetIn(jar[1..], name, value);
    }
  }

  /** Expiring a cookie: afterwards no cookie has that name, and every other name reads as before. */
  function DeleteIn(jar: seq<Cookie>, name: string): (r: seq<Cookie>)
    ensures Lookup(r, name) == None
    ensures forall n :: n != name ==> Lookup(r, n) == Lookup(jar, n)
    ensures ValidJar(jar) ==> ValidJar(r)
    decreases |jar|
  {
    if jar == [] then []
    else
      var rest := DeleteIn(jar[1..], name);
      if jar[0].name == name then rest
      else
        assert ([jar[0]] + rest)[1..] == rest;
        [jar[0]] + rest
  }

  /** One cookie as `document.cookie` shows it. */
  function Entry(c: Cookie): string {
    c.name + "=" + c.value
  }

  /** The cookies after the first, each preceded by the separator `; `. */
  function Tail(cs: seq<Cookie>): string
    decreases |cs|
  {
    if cs == [] then "" else "; " + Entry(cs[0]) + Tail(cs[1..])
  }

  /** `document.cookie`. */
  function Header(jar: seq<Cookie>): string {
    if jar == [] then "" else Entry(jar[0]) + Tail(jar[1..])
  }

  /** The fragments `Header` consists of after the first, each with the space of its separator. */
  function Spaced(cs: seq<Cookie>): seq<string> {
    seq(|cs|, i requires 0 <= i < |cs| => " " + Entry(cs[i]))
  }

  lemma SpacedCons(cs: seq<Cookie>)
    requires cs != []
    ensures Spaced(cs) == [" " + Entry(cs[0])] + Spaced(cs[1..])
  {
  }

  lemma EntryNoSemicolon(c: Cookie)
    requires ValidCookie(c)
    ensures ';' !in Entry(c)
  {
  }

  /** Splitting a header on `;` gives back one fragment per cookie. */
  lemma {:induction false} SplitTail(p: string, cs: seq<Cookie>)
    requires ';' !in p && ValidJar(cs)
    ensures Split(p + Tail(cs), ';') == [p] + Spaced(cs)
    decreases |cs|
  {
    if cs == [] {
      SplitNoSeparator(p, ';');
      assert p + Tail(cs) == p;
    } else {
      var q := " " + Entry(cs[0]);
      EntryNoSemicolon(cs[0]);
      SplitTail(q, cs[1..]);
      assert p + Tail(cs) == p + [';'] + (q + Tail(cs[1..]));
      SplitAfterPart(p, q + Tail(cs[1..]), ';');
      SpacedCons(cs);
    }
  }

  lemma SplitHeader(jar: seq<Cookie>)
    requires ValidJar(jar) && jar != []
    ensures Split(Header(jar), ';') == [Entry(jar[0])] + Spaced(jar[1..])
  {
    EntryNoSemicolon(jar[0]);
    SplitTail(Entry(jar[0]), jar[1..]);
  }

  /**
   * A cookie's text starts with `name=` exactly when the cookie is called `name`: a cookie
   * whose name merely begins with `name` (`tokenX` for `token`) does not match.
   */
  lemma NameKeyMatch(c: Cookie, name: string)
    requires ValidName(c.name) && ValidName(name)
    ensures StartsWith(Entry(c), name + "=") <==> c.name == name
  {
    NameKeyMatchBefore(c, name, "");
    assert Entry(c) + "" == Entry(c);
  }

  /** The same holds with any text after the cookie, since the `=` after its name comes first. */
  lemma NameKeyMatchBefore(c: Cookie, name: string, rest: string)
    requires ValidName(c.name) && ValidName(name)
    ensures StartsWith(Entry(c) + rest, name + "=") <==> c.name == name
  {
    var e, key := Entry(c) + rest, name + "=";
    if |c.name| < |name| {
      assert e[|c.name|] == '=' && key[|c.name|] == name[|c.name|];
    } else if |c.name| > |name| {
      assert e[|name|] == c.name[|name|] && key[|name|] == '=';
    } else {
      assert e[..|key|] == c.name + "=";
      assert (c.name + "=")[..|c.name|] == c.name;
      assert key[..|name|] == name;
    }
  }

  /** `Tail` is empty or starts with a separator. */
  lemma TailStart(cs: seq<Cookie>)
    ensures Tail(cs) == [] || Tail(cs)[0] == ';'
  {
  }
}
