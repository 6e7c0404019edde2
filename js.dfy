/**
 * The JavaScript values and built-ins that the client code relies on, restricted to what its
 * session, service and list logic needs: runtime values received from the backend, truthiness,
 * property access, `String(...)`, ASCII case mapping, `startsWith`/`includes`/`split`/`trim`,
 * and `Array.prototype.filter`/`slice`.
 */
module Js {

  datatype Option<+T> = None | Some(value: T)

  /**
   * A runtime value as the client receives it in `response.data`. Numbers are integers:
   * every number the core compares or prints is an id or a role code.
   */
  datatype Json =
    | Undefined
    | Null
    | Bool(b: bool)
    | Num(n: int)
    | Str(s: string)
    | Arr(items: seq<Json>)
    | Obj(fields: map<string, Json>)

  /** One HTTP call: resolved with `response.data`, or rejected (network error, non-2xx status). */
  datatype Response = Ok(data: Json) | Failed

  /** JavaScript truthiness (`if (x)`, `x ? … : …`, `!x`). */
  predicate Truthy(j: Json) {
    match j
    case Undefined => false
    case Null => false
    case Bool(b) => b
    case Num(n) => n != 0
    case Str(s) => s != ""
    case Arr(_) => true
    case Obj(_) => true
  }

  /** `null` and `undefined`: reading a property of either throws a TypeError. */
  predicate Nullish(j: Json) {
    j.Undefined? || j.Null?
  }

  /**
   * `j.key` on a value that is not nullish: an object's own field, `undefined` for a missing
   * field and for every non-object. Built-in properties (`length`, prototype members) are not
   * modelled; none of the keys the core reads is one of them.
   */
  function Member(j: Json, key: string): Json {
    if j.Obj? && key in j.fields then j.fields[key] else Undefined
  }

  /** `a || b`: the first operand when it is truthy, the second otherwise. */
  function Or(a: Json, b: Json): Json {
    if Truthy(a) then a else b
  }

  lemma OrNotNullish(a: Json, b: Json)
    requires !Nullish(b)
    ensures !Nullish(Or(a, b))
  {
  }

  // ---------------------------------------------------------------------------------------
  // String(x)

  /** The decimal digit for `d`: `'0'` moved on by `d`. */
  function DigitChar(d: nat): (c: char)
    requires d < 10
    ensures '0' <= c <= '9' && c as int - '0' as int == d
  {
    ('0' as int + d) as char
  }

  predicate IsDigit(c: char) {
    '0' <= c <= '9'
  }

  /** The decimal digits of `n`, most significant first, with no leading zero. */
  function NatToString(n: nat): (s: string)
    ensures |s| >= 1 && forall i :: 0 <= i < |s| ==> IsDigit(s[i])
    decreases n
  {
    if n < 10 then [DigitChar(n)] else NatToString(n / 10) + [DigitChar(n % 10)]
  }

  /** `String(n)` for an integer `n`. */
  function IntToString(i: int): string {
    if i < 0 then "-" + NatToString(-i) else NatToString(i)
  }

  /** The value of a string of decimal digits: the inverse of `NatToString`. */
  function ParseNat(s: string): nat
    decreases |s|
  {
    if s == [] then 0
    else
      var c := s[|s| - 1];
      ParseNat(s[..|s| - 1]) * 10 + (if IsDigit(c) then c as int - '0' as int else 0)
  }

  function ParseInt(s: string): int {
    if |s| > 0 && s[0] == '-' then -(ParseNat(s[1..]) as int) else ParseNat(s)
  }

  lemma {:induction false} NatToStringRoundTrip(n: nat)
    ensures ParseNat(NatToString(n)) == n
    decreases n
  {
    if n >= 10 {
      NatToStringRoundTrip(n / 10);
      var s := NatToString(n);
      assert s[..|s| - 1] == NatToString(n / 10);
      assert s[|s| - 1] == DigitChar(n % 10);
    }
  }

  /** Printing an integer loses nothing: `ParseInt` recovers it. */
  lemma IntToStringRoundTrip(i: int)
    ensures ParseInt(IntToString(i)) == i
  {
    if i < 0 {
      NatToStringRoundTrip(-i);
      assert IntToString(i)[1..] == NatToString(-i);
    } else {
      NatToStringRoundTrip(i);
      assert IsDigit(NatToString(i)[0]);
    }
  }

  /** Distinct integers print differently. */
  lemma IntToStringInjective(a: int, b: int)
    requires IntToString(a) == IntToString(b)
    ensures a == b
  {
    IntToStringRoundTrip(a);
    IntToStringRoundTrip(b);
  }

  /** A printed integer starts with a digit or a minus sign. */
  lemma IntToStringStart(i: int)
    ensures |IntToString(i)| >= 1
    ensures IntToString(i)[0] == '-' || IsDigit(IntToString(i)[0])
  {
  }

  /** The elements of an array as `Array.prototype.join` prints them: nullish ones as "". */
  function JoinItems(parts: seq<string>): string
    decreases |parts|
  {
    if parts == [] then ""
    else if |parts| == 1 then parts[0]
    else parts[0] + "," + JoinItems(parts[1..])
  }

  /** `String(j)`, which is also what a template literal `${j}` inserts. */
  function ToString(j: Json): string
    decreases j
  {
    match j
    case Undefined => "undefined"
    case Null => "null"
    case Bool(b) => if b then "true" else "false"
    case Num(n) => IntToString(n)
    case Str(s) => s
    case Arr(items) =>
      JoinItems(seq(|items|, k requires 0 <= k < |items| =>
        if Nullish(items[k]) then "" else ToString(items[k])))
    case Obj(_) => "[object Object]"
  }

  // ---------------------------------------------------------------------------------------
  // Case mapping (ASCII only)

  function LowerChar(c: char): char {
    if 'A' <= c <= 'Z' then (c as int + 32) as char else c
  }

  function UpperChar(c: char): char {
    if 'a' <= c <= 'z' then (c as int - 32) as char else c
  }

  /** `s.toLowerCase()` restricted to ASCII letters. */
  function Lower(s: string): string {
    seq(|s|, i requires 0 <= i < |s| => LowerChar(s[i]))
  }

  lemma LowerIdempotent(s: string)
    ensures Lower(Lower(s)) == Lower(s)
  {
  }

  lemma UpperCharIdempotent(c: char)
    ensures UpperChar(UpperChar(c)) == UpperChar(c)
  {
  }

  // ---------------------------------------------------------------------------------------
  // startsWith, includes

  /** `s.startsWith(p)`, and `s.indexOf(p) === 0`. */
  predicate StartsWith(s: string, p: string) {
    |p| <= |s| && s[..|p|] == p
  }

  /** A common prefix does not change whether one text starts with another. */
  lemma StartsWithCommon(p: string, s: string, q: string)
    ensures StartsWith(p + s, p + q) <==> StartsWith(s, q)
  {
    if StartsWith(s, q) {
      assert (p + s)[..|p + q|] == p + s[..|q|];
    }
    if StartsWith(p + s, p + q) {
      assert s[..|q|] == (p + s)[..|p + q|][|p|..];
    }
  }

  predicate OccursAt(hay: string, needle: string, i: int) {
    0 <= i && i + |needle| <= |hay| && hay[i..i + |needle|] == needle
  }

  lemma OccursShift(hay: string, needle: string)
    requires |hay| > 0
    ensures forall i :: OccursAt(hay[1..], needle, i) ==> OccursAt(hay, needle, i + 1)
    ensures forall j :: OccursAt(hay, needle, j) && j > 0 ==> OccursAt(hay[1..], needle, j - 1)
  {
    forall i | OccursAt(hay[1..], needle, i) ensures OccursAt(hay, needle, i + 1) {
      assert hay[1..][i..i + |needle|] == hay[i + 1..i + 1 + |needle|];
    }
    forall j | OccursAt(hay, needle, j) && j > 0 ensures OccursAt(hay[1..], needle, j - 1) {
      assert hay[1..][j - 1..j - 1 + |needle|] == hay[j..j + |needle|];
    }
  }

  /** `hay.includes(needle)`: true exactly when `needle` occurs somewhere in `hay`. */
  function Includes(hay: string, needle: string): (r: bool)
    ensures r <==> exists i :: OccursAt(hay, needle, i)
    decreases |hay|
  {
    if StartsWith(hay, needle) then
      assert OccursAt(hay, needle, 0);
      true
    else if |hay| == 0 then
      assert forall i :: OccursAt(hay, needle, i) ==> i == 0 && StartsWith(hay, needle);
      false
    else
      var r := Includes(hay[1..], needle);
      OccursShift(hay, needle);
      assert r ==> exists i :: OccursAt(hay[1..], needle, i) && OccursAt(hay, needle, i + 1);
      assert (exists j :: OccursAt(hay, needle, j)) ==> exists j :: OccursAt(hay, needle, j) && j > 0;
      r
  }

  /** The empty string occurs in every string, so an empty search keeps everything. */
  lemma IncludesEmpty(hay: string)
    ensures Includes(hay, "")
  {
    assert OccursAt(hay, "", 0);
  }

  // ---------------------------------------------------------------------------------------
  // split, join

  /** The parts separated by `sep`, in order. */
  function Join(parts: seq<string>, sep: char): string
    decreases |parts|
  {
    if parts == [] then ""
    else if |parts| == 1 then parts[0]
    else parts[0] + [sep] + Join(parts[1..], sep)
  }

  /**
   * `s.split(sep)` for a one-character separator: at least one part, no part contains the
   * separator, and joining the parts gives `s` back.
   */
  function Split(s: string, sep: char): (parts: seq<string>)
    ensures |parts| >= 1
    ensures forall i :: 0 <= i < |parts| ==> sep !in parts[i]
    ensures Join(parts, sep) == s
    decreases |s|
  {
    if s == [] then [""]
    else
      var rest := Split(s[1..], sep);
      if s[0] == sep then
        assert Join([""] + rest, sep) == [sep] + Join(rest, sep);
        [""] + rest
      else
        var parts := [[s[0]] + rest[0]] + rest[1..];
        assert parts[1..] == rest[1..];
        assert |rest| > 1 ==> Join(rest, sep) == rest[0] + [sep] + Join(rest[1..], sep);
        parts
  }

  lemma {:induction false} SplitNoSeparator(a: string, sep: char)
    requires sep !in a
    ensures Split(a, sep) == [a]
    decreases |a|
  {
    if a != [] {
      SplitNoSeparator(a[1..], sep);
      assert [a[0]] + a[1..] == a;
    }
  }

  lemma {:induction false} SplitAfterPart(a: string, b: string, sep: char)
    requires sep !in a
    ensures Split(a + [sep] + b, sep) == [a] + Split(b, sep)
    decreases |a|
  {
    if a == [] {
      assert (a + [sep] + b)[1..] == b;
    } else {
      assert (a + [sep] + b)[1..] == a[1..] + [sep] + b;
      SplitAfterPart(a[1..], b, sep);
      assert [a[0]] + a[1..] == a;
    }
  }

  /** Splitting a join of separator-free parts gives the parts back. */
  lemma {:induction false} SplitJoin(parts: seq<string>, sep: char)
    requires |parts| >= 1
    requires forall i :: 0 <= i < |parts| ==> sep !in parts[i]
    ensures Split(Join(parts, sep), sep) == parts
    decreases |parts|
  {
    if |parts| == 1 {
      SplitNoSeparator(parts[0], sep);
    } else {
      SplitJoin(parts[1..], sep);
      SplitAfterPart(parts[0], Join(parts[1..], sep), sep);
      assert [parts[0]] + parts[1..] == parts;
    }
  }

  /** The text before the first `sep`, i.e. `s.split(sep)[0]`. */
  function Before(s: string, sep: char): (r: string)
    ensures sep !in r && StartsWith(s, r)
    ensures r != s ==> |r| < |s| && s[|r|] == sep
    decreases |s|
  {
    if s == [] || s[0] == sep then "" else [s[0]] + Before(s[1..], sep)
  }

  lemma {:induction false} BeforeWithout(s: string, sep: char)
    requires sep !in s
    ensures Before(s, sep) == s
    decreases |s|
  {
    if s != [] {
      BeforeWithout(s[1..], sep);
      assert [s[0]] + s[1..] == s;
    }
  }

  /** The text before the first `sep` of `a + b`, when `a` has none and `b` starts with one (or is empty). */
  lemma {:induction false} BeforeConcat(a: string, b: string, sep: char)
    requires sep !in a && (b == [] || b[0] == sep)
    ensures Before(a + b, sep) == a
    decreases |a|
  {
    if a != [] {
      BeforeConcat(a[1..], b, sep);
      assert (a + b)[1..] == a[1..] + b;
      assert [a[0]] + a[1..] == a;
    }
  }

  lemma {:induction false} BeforeIsFirstPart(s: string, sep: char)
    ensures Split(s, sep)[0] == Before(s, sep)
    decreases |s|
  {
    if s != [] {
      BeforeIsFirstPart(s[1..], sep);
    }
  }

  // ---------------------------------------------------------------------------------------
  // trim

  /** The characters `String.prototype.trim` removes: WhiteSpace and LineTerminator. */
  predicate IsWhitespace(c: char) {
    c == ' ' || c == '\t' || c == '\n' || c == '\r' || c == '\U{B}' || c == '\U{C}'
    || c == '\U{A0}' || c == '\U{1680}' || ('\U{2000}' <= c <= '\U{200A}')
    || c == '\U{2028}' || c == '\U{2029}' || c == '\U{202F}' || c == '\U{205F}'
    || c == '\U{3000}' || c == '\U{FEFF}'
  }

  /** `s` without its leading characters that satisfy `ws`. */
  function TrimStartBy(s: string, ws: char -> bool): (r: string)
    ensures |r| <= |s| && r == s[|s| - |r|..]
    ensures r != [] ==> !ws(r[0])
    ensures forall j :: 0 <= j < |s| - |r| ==> ws(s[j])
    decreases |s|
  {
    if s != [] && ws(s[0]) then TrimStartBy(s[1..], ws) else s
  }

  /** `s` without its trailing characters that satisfy `ws`. */
  function TrimEndBy(s: string, ws: char -> bool): (r: string)
    ensures |r| <= |s| && r == s[..|r|]
    ensures r != [] ==> !ws(r[|r| - 1])
    ensures forall j :: |r| <= j < |s| ==> ws(s[j])
    decreases |s|
  {
    if s != [] && ws(s[|s| - 1]) then TrimEndBy(s[..|s| - 1], ws) else s
  }

  /** `s.trim()`. */
  function Trim(s: string): string {
    TrimEndBy(TrimStartBy(s, IsWhitespace), IsWhitespace)
  }

  lemma TrimStartNone(s: string, ws: char -> bool)
    requires s != [] ==> !ws(s[0])
    ensures TrimStartBy(s, ws) == s
  {
  }

  lemma TrimStartOne(c: char, s: string, ws: char -> bool)
    requires ws(c)
    ensures TrimStartBy([c] + s, ws) == TrimStartBy(s, ws)
  {
    assert ([c] + s)[1..] == s;
  }

  /**
   * For text that starts with no white space, trimming does not change whether it starts with a
   * prefix ending in a character that is not white space.
   */
  lemma TrimmedStartsWith(s: string, p: string)
    requires s != [] && !IsWhitespace(s[0])
    requires p != [] && !IsWhitespace(p[|p| - 1])
    ensures StartsWith(Trim(s), p) <==> StartsWith(s, p)
  {
    TrimStartNone(s, IsWhitespace);
    var t := TrimEndBy(s, IsWhitespace);
    assert Trim(s) == t;
    if StartsWith(s, p) {
      assert s[|p| - 1] == p[|p| - 1];
      assert |t| >= |p|;
      assert t[..|p|] == s[..|p|];
    }
    if StartsWith(t, p) {
      assert s[..|p|] == t[..|p|];
    }
  }

  // ---------------------------------------------------------------------------------------
  // Array.prototype.filter, Array.prototype.slice

  /** `s.filter(keep)`: the elements that pass, in their original order. */
  function Filter<T>(s: seq<T>, keep: T -> bool): (r: seq<T>)
    ensures |r| <= |s|
    ensures forall i :: 0 <= i < |r| ==> r[i] in s && keep(r[i])
    ensures forall i :: 0 <= i < |s| && keep(s[i]) ==> s[i] in r
    decreases |s|
  {
    if s == [] then []
    else
      var rest := Filter(s[1..], keep);
      assert forall i :: 0 <= i < |s| ==> i == 0 || s[i] == s[1..][i - 1];
      if keep(s[0]) then [s[0]] + rest else rest
  }

  /** `filter` keeps every copy of an element that passes and no copy of one that fails. */
  lemma {:induction false} FilterCounts<T>(s: seq<T>, keep: T -> bool)
    ensures forall x :: multiset(Filter(s, keep))[x] == if keep(x) then multiset(s)[x] else 0
    decreases |s|
  {
    if s != [] {
      FilterCounts(s[1..], keep);
      assert s == [s[0]] + s[1..];
    }
  }

  /** `a` is `b` with some elements left out, the others in the same order. */
  predicate IsSubsequence<T(==)>(a: seq<T>, b: seq<T>)
    decreases |b|
  {
    a == [] || (b != [] && if a[0] == b[0] then IsSubsequence(a[1..], b[1..]) else IsSubsequence(a, b[1..]))
  }

  lemma {:induction false} FilterIsSubsequence<T>(s: seq<T>, keep: T -> bool)
    ensures IsSubsequence(Filter(s, keep), s)
    decreases |s|
  {
    if s != [] {
      FilterIsSubsequence(s[1..], keep);
      var rest := Filter(s[1..], keep);
      if !keep(s[0]) && rest != [] {
        assert keep(rest[0]);
      }
    }
  }

  /** Keeping everything keeps the list as it is. */
  lemma {:induction false} FilterAll<T>(s: seq<T>, keep: T -> bool)
    requires forall i :: 0 <= i < |s| ==> keep(s[i])
    ensures Filter(s, keep) == s
    decreases |s|
  {
    if s != [] {
      FilterAll(s[1..], keep);
      assert [s[0]] + s[1..] == s;
    }
  }

  /** Filtering twice with the same test is filtering once. */
  lemma {:induction false} FilterIdempotent<T>(s: seq<T>, keep: T -> bool)
    ensures Filter(Filter(s, keep), keep) == Filter(s, keep)
    decreases |s|
  {
    var r := Filter(s, keep);
    FilterAll(r, keep);
  }

  /** Two tests that agree on every element filter alike. */
  lemma {:induction false} FilterAgree<T>(s: seq<T>, f: T -> bool, g: T -> bool)
    requires forall i :: 0 <= i < |s| ==> f(s[i]) == g(s[i])
    ensures Filter(s, f) == Filter(s, g)
    decreases |s|
  {
    if s != [] {
      FilterAgree(s[1..], f, g);
    }
  }

  /** Filtering a concatenation filters each part. */
  lemma {:induction false} FilterConcat<T>(a: seq<T>, b: seq<T>, keep: T -> bool)
    ensures Filter(a + b, keep) == Filter(a, keep) + Filter(b, keep)
    decreases |a|
  {
    if a != [] {
      FilterConcat(a[1..], b, keep);
      assert (a + b)[1..] == a[1..] + b;
    } else {
      assert a + b == b;
    }
  }

  // ---------------------------------------------------------------------------------------
  // Array.prototype.findIndex, Array.prototype.find

  /** `s.findIndex(p)`, with none for `-1`: the position of the first element that passes. */
  function FindIndex<T>(s: seq<T>, p: T -> bool): (r: Option<nat>)
    ensures r.None? <==> forall i :: 0 <= i < |s| ==> !p(s[i])
    ensures r.Some? ==> r.value < |s| && p(s[r.value]) && forall j :: 0 <= j < r.value ==> !p(s[j])
    decreases |s|
  {
    if s == [] then None
    else if p(s[0]) then Some(0)
    else
      var r := FindIndex(s[1..], p);
      assert forall i :: 1 <= i < |s| ==> s[i] == s[1..][i - 1];
      if r.None? then None else Some(r.value + 1)
  }

  /** `s.find(p)`: the first element that passes. */
  function Find<T>(s: seq<T>, p: T -> bool): (r: Option<T>)
    ensures r.None? <==> forall i :: 0 <= i < |s| ==> !p(s[i])
    ensures r.Some? ==> r.value in s && p(r.value)
  {
    var k := FindIndex(s, p);
    if k.None? then None else Some(s[k.value])
  }

  /** One step of `find`: the head when it passes, otherwise the search goes on in the tail. */
  lemma FindStep<T>(s: seq<T>, p: T -> bool)
    requires s != []
    ensures Find(s, p) == if p(s[0]) then Some(s[0]) else Find(s[1..], p)
  {
    if !p(s[0]) {
      var k := FindIndex(s[1..], p);
      if k.Some? {
        assert s[1..][k.value] == s[k.value + 1];
      }
    }
  }

  /** A position argument of `slice`: negative counts from the end, then clamped to the length. */
  function SliceIndex(i: int, len: nat): (r: nat)
    ensures r <= len
  {
    if i < 0 then (if len + i < 0 then 0 else len + i)
    else if i > len then len
    else i
  }

  /** `s.slice(start, end)`. */
  function Slice<T>(s: seq<T>, start: int, end: int): seq<T> {
    var a := SliceIndex(start, |s|);
    var b := SliceIndex(end, |s|);
    if a < b then s[a..b] else []
  }
}
