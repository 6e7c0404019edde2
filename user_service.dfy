/**
 * The user service: role codes turned into labels, backend users turned into the records the
 * pages show, the payload `createUser` sends, and the fallbacks every operation answers with
 * when something goes wrong. Its requests carry no header of their own; the session service's
 * interceptor adds the token.
 */
module UserService {
  import opened Js

  /** A user as the service returns it. */
  datatype UserRecord = UserRecord(id: Json, name: Json, email: Json, role: string, status: string)

  /**
   * The role label: `'Admin'` for code `1`, `'User'` for code `2` (strict equality: the string
   * `'1'` is not code `1`), and `String(role)` for anything else.
   */
  function RoleLabel(role: Json): (shown: string)
    ensures role == Num(1) ==> shown == "Admin"
    ensures role == Num(2) ==> shown == "User"
    ensures role != Num(1) && role != Num(2) ==> shown == ToString(role)
  {
    if role == Num(1) then "Admin" else if role == Num(2) then "User" else ToString(role)
  }

  /** Any other integer code reads as its decimal digits: the enum's `USER = 0` becomes `'0'`. */
  lemma OtherCodesPrintDigits(n: int)
    requires n != 1 && n != 2
    ensures RoleLabel(Num(n)) == IntToString(n)
    ensures IntToString(n)[0] == '-' || IsDigit(IntToString(n)[0])
  {
    IntToStringStart(n);
  }

  lemma UserCodeIsZero()
    ensures RoleLabel(Num(0)) == "0"
  {
  }

  /** The label of an integer code determines the code: no two codes share a label. */
  lemma RoleLabelInjective(a: int, b: int)
    requires RoleLabel(Num(a)) == RoleLabel(Num(b))
    ensures a == b
  {
    if a == 1 || a == 2 || b == 1 || b == 2 {
      if a != 1 && a != 2 {
        IntToStringStart(a);
      }
      if b != 1 && b != 2 {
        IntToStringStart(b);
      }
    } else {
      IntToStringInjective(a, b);
    }
  }

  /** A backend user mapped field by field; `name` comes from `username`, and every status is `'Active'`. */
  function MapUser(u: Json): (r: UserRecord)
    ensures r.id == Member(u, "id") && r.name == Member(u, "username") && r.email == Member(u, "email")
    ensures r.role == RoleLabel(Member(u, "role"))
    ensures r.status == "Active"
  {
    UserRecord(Member(u, "id"), Member(u, "username"), Member(u, "email"), RoleLabel(Member(u, "role")), "Active")
  }

  /** `usersRaw.map(...)` reads fields of every element, so a nullish element throws. */
  predicate Readable(items: seq<Json>) {
    forall i :: 0 <= i < |items| ==> !Nullish(items[i])
  }

  /**
   * `getUsers`: the mapped users of `response.data.users`, in order, when that is an array and
   * the call and every element read succeed; otherwise `[]`.
   */
  function GetUsers(resp: Response): (r: seq<UserRecord>)
    ensures resp.Failed? || Nullish(resp.data) ==> r == []
    ensures resp.Ok? && !Nullish(resp.data) && !Member(resp.data, "users").Arr? ==> r == []
    ensures resp.Ok? && !Nullish(resp.data) && Member(resp.data, "users").Arr? ==>
      var items := Member(resp.data, "users").items;
      if Readable(items) then |r| == |items| && forall i :: 0 <= i < |r| ==> r[i] == MapUser(items[i])
      else r == []
  {
    if resp.Failed? || Nullish(resp.data) || !Member(resp.data, "users").Arr? then []
    else
      var items := Member(resp.data, "users").items;
      if Readable(items) then seq(|items|, i requires 0 <= i < |items| => MapUser(items[i])) else []
  }

  /** Every user that `getUsers` returns is active. */
  lemma GetUsersAllActive(resp: Response, i: int)
    requires 0 <= i < |GetUsers(resp)|
    ensures GetUsers(resp)[i].status == "Active"
  {
  }

  /** `getUser`: none for a failed call or a falsy body, otherwise the mapped body. */
  function GetUser(resp: Response): (r: Option<UserRecord>)
    ensures r.None? <==> resp.Failed? || !Truthy(resp.data)
    ensures r.Some? ==> r.value == MapUser(resp.data)
  {
    if resp.Failed? || !Truthy(resp.data) then None else Some(MapUser(resp.data))
  }

  /** The fields `createUser` always sends. */
  const PayloadFields: set<string> := {"username", "email", "password", "role"}

  /**
   * A payload for `data`: exactly `username`, `email`, `password` and `role` copied from it,
   * plus `status` exactly when the input's status is truthy.
   */
  predicate PayloadFor(payload: map<string, Json>, data: Json) {
    && payload.Keys == PayloadFields + (if Truthy(Member(data, "status")) then {"status"} else {})
    && forall k :: k in payload ==> payload[k] == Member(data, k)
  }

  /**
   * The payload as `createUser` builds it: the four fields, then `status` assigned only when
   * truthy. The input must be readable (a nullish input throws on its first field).
   */
  method BuildPayload(data: Json) returns (payload: map<string, Json>)
    requires !Nullish(data)
    ensures PayloadFor(payload, data)
  {
    payload := map[
      "username" := Member(data, "username"),
      "email" := Member(data, "email"),
      "password" := Member(data, "password"),
      "role" := Member(data, "role")];
    if Truthy(Member(data, "status")) {
      payload := payload["status" := Member(data, "status")];
    }
  }

  /** Two payloads for the same input are the same: the description leaves nothing open. */
  lemma PayloadDetermined(p: map<string, Json>, q: map<string, Json>, data: Json)
    requires PayloadFor(p, data) && PayloadFor(q, data)
    ensures p == q
  {
  }

  /** The fields that reach the wire: `JSON.stringify` leaves out those whose value is `undefined`. */
  function WireFields(payload: map<string, Json>): (w: map<string, Json>)
    ensures w.Keys <= payload.Keys
    ensures forall k :: k in payload && payload[k] != Undefined ==> k in w && w[k] == payload[k]
    ensures forall k :: k in w ==> w[k] != Undefined
  {
    map k | k in payload && payload[k] != Undefined :: payload[k]
  }

  /** A user created without a role sends no `role` field, and one without a status sends no `status`. */
  lemma OptionalFieldsDropped(payload: map<string, Json>, data: Json)
    requires PayloadFor(payload, data)
    requires Member(data, "role") == Undefined && Member(data, "status") == Undefined
    ensures "role" !in WireFields(payload) && "status" !in WireFields(payload)
  {
  }

  /** What `createUser` sends and answers. */
  datatype Created = Created(sent: Option<map<string, Json>>, result: Json)

  /**
   * `createUser`: a nullish input throws before any request; otherwise the payload is sent and
   * the response body returned as it is, or null when the call fails.
   */
  method CreateUser(data: Json, resp: Response) returns (c: Created)
    ensures Nullish(data) ==> c == Created(None, Null)
    ensures !Nullish(data) ==> c.sent.Some? && PayloadFor(c.sent.value, data)
    ensures !Nullish(data) ==> c.result == (if resp.Ok? then resp.data else Null)
  {
    if Nullish(data) {
      return Created(None, Null);
    }
    var payload := BuildPayload(data);
    if resp.Ok? {
      c := Created(Some(payload), resp.data);
    } else {
      c := Created(Some(payload), Null);
    }
  }

  /** `updateUser`: the response body, or null when the call fails. */
  function UpdateUser(resp: Response): (r: Json)
    ensures resp.Ok? ==> r == resp.data
    ensures resp.Failed? ==> r == Null
  {
    if resp.Ok? then resp.data else Null
  }

  /** `deleteUser`: true exactly when the call succeeds. */
  function DeleteUser(resp: Response): (ok: bool)
    ensures ok <==> resp.Ok?
  {
    resp.Ok?
  }
}
