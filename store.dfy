/**
 * The two client-side stores: a single slot holding the signed-in user, and the list of
 * notifications waiting to be shown, in display order.
 */
module Store {
  import opened Js

  datatype User = User(id: int, email: string, name: string, role: string)

  /** The user store: starts empty; `SetUser` replaces the slot, `ClearUser` empties it. */
  class UserStore {
    var user: Option<User>

    constructor ()
      ensures user == None
    {
      user := None;
    }

    method SetUser(u: Option<User>)
      modifies this
      ensures user == u
    {
      user := u;
    }

    method ClearUser()
      modifies this
      ensures user == None
    {
      user := None;
    }
  }

  datatype NotificationType = Info | Success | Warning | Error

  /** The string a notification type is written as. */
  function TypeName(kind: NotificationType): string {
    match kind
    case Info => "info"
    case Success => "success"
    case Warning => "warning"
    case Error => "error"
  }

  datatype AppNotification = AppNotification(id: string, kind: NotificationType, message: string)

  /** The test `removeNotification` filters with. */
  function IdIsNot(id: string): AppNotification -> bool {
    (n: AppNotification) => n.id != id
  }

  /**
   * The list without the notifications carrying `id`: none of them is left, every other entry
   * stays, and the survivors keep their relative order.
   */
  function Without(ns: seq<AppNotification>, id: string): (r: seq<AppNotification>)
    ensures forall i :: 0 <= i < |r| ==> r[i].id != id && r[i] in ns
    ensures forall i :: 0 <= i < |ns| && ns[i].id != id ==> ns[i] in r
    ensures IsSubsequence(r, ns)
    ensures forall x :: multiset(r)[x] == if x.id != id then multiset(ns)[x] else 0
  {
    FilterIsSubsequence(ns, IdIsNot(id));
    FilterCounts(ns, IdIsNot(id));
    Filter(ns, IdIsNot(id))
  }

  /** Removing an id no entry carries leaves the list unchanged. */
  lemma WithoutAbsent(ns: seq<AppNotification>, id: string)
    requires forall i :: 0 <= i < |ns| ==> ns[i].id != id
    ensures Without(ns, id) == ns
  {
    FilterAll(ns, IdIsNot(id));
  }

  /** Removing the same id twice is removing it once. */
  lemma WithoutIdempotent(ns: seq<AppNotification>, id: string)
    ensures Without(Without(ns, id), id) == Without(ns, id)
  {
    FilterIdempotent(ns, IdIsNot(id));
  }

  /** Removing a freshly added notification, whose id was not in use, undoes the addition. */
  lemma AddThenRemove(ns: seq<AppNotification>, n: AppNotification)
    requires forall i :: 0 <= i < |ns| ==> ns[i].id != n.id
    ensures Without(ns + [n], n.id) == ns
  {
    FilterConcat(ns, [n], IdIsNot(n.id));
    WithoutAbsent(ns, n.id);
    assert Filter([n], IdIsNot(n.id)) == [];
  }

  /** Removal commutes: the order two ids are removed in does not matter. */
  lemma {:induction false} WithoutCommutes(ns: seq<AppNotification>, a: string, b: string)
    ensures Without(Without(ns, a), b) == Without(Without(ns, b), a)
    decreases |ns|
  {
    if ns != [] {
      WithoutCommutes(ns[1..], a, b);
      FilterConcat([ns[0]], ns[1..], IdIsNot(a));
      FilterConcat([ns[0]], ns[1..], IdIsNot(b));
      assert [ns[0]] + ns[1..] == ns;
      var wa, wb := Filter([ns[0]], IdIsNot(a)), Filter([ns[0]], IdIsNot(b));
      FilterConcat(wa, Without(ns[1..], a), IdIsNot(b));
      FilterConcat(wb, Without(ns[1..], b), IdIsNot(a));
    }
  }

  /**
   * The notification store: `AddNotification` appends one entry (the id is generated by the
   * caller's random source and is not guaranteed unique), `RemoveNotification` filters by id,
   * `ClearNotifications` empties the list.
   */
  class NotificationStore {
    var notifications: seq<AppNotification>

    constructor ()
      ensures notifications == []
    {
      notifications := [];
    }

    method AddNotification(kind: NotificationType, message: string, id: string)
      modifies this
      ensures notifications == old(notifications) + [AppNotification(id, kind, message)]
    {
      notifications := notifications + [AppNotification(id, kind, message)];
    }

    method RemoveNotification(id: string)
      modifies this
      ensures notifications == Without(old(notifications), id)
    {
      notifications := Without(notifications, id);
    }

    method ClearNotifications()
      modifies this
      ensures notifications == []
    {
      notifications := [];
    }
  }
}
