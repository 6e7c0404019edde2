/**
 * The notification stack: each notification of the store is shown as a card with an icon for its
 * type, open or closed as a map from notification id to a flag says. New ids are opened as they
 * appear; an id the map already holds keeps its flag, so a closed card is never reopened.
 */
module NotificationView {
  import opened Js
  import opened Store

  datatype Icon = WarningIcon | ErrorIcon | SuccessIcon | DefaultIcon

  /** `typeIcon`: its own icon for `warning`, `error` and `success`, the default one for anything else. */
  function TypeIcon(kind: string): (icon: Icon)
    ensures icon == WarningIcon <==> kind == "warning"
    ensures icon == ErrorIcon <==> kind == "error"
    ensures icon == SuccessIcon <==> kind == "success"
    ensures icon == DefaultIcon <==> kind != "warning" && kind != "error" && kind != "success"
  {
    match kind
    case "warning" => WarningIcon
    case "error" => ErrorIcon
    case "success" => SuccessIcon
    case _ => DefaultIcon
  }

  /** `'info'` and the empty default type both get the default icon. */
  lemma InfoAndEmptyShareDefault()
    ensures TypeIcon("info") == DefaultIcon && TypeIcon("") == DefaultIcon
  {
  }

  /** Of the store's four types only `info` falls to the default icon; the other three get distinct ones. */
  lemma StoreTypesIcons(a: NotificationType, b: NotificationType)
    ensures TypeIcon(TypeName(a)) == DefaultIcon <==> a == Info
    ensures a != Info && b != Info && a != b ==> TypeIcon(TypeName(a)) != TypeIcon(TypeName(b))
  {
  }

  /** The ids of a list of notifications. */
  function Ids(ns: seq<AppNotification>): set<string> {
    set i | 0 <= i < |ns| :: ns[i].id
  }

  lemma IdsSnoc(ns: seq<AppNotification>, n: AppNotification)
    ensures Ids(ns + [n]) == Ids(ns) + {n.id}
  {
    var s := ns + [n];
    forall k | k in Ids(s) ensures k in Ids(ns) + {n.id} {
      var i :| 0 <= i < |s| && s[i].id == k;
      if i < |ns| {
        assert ns[i] == s[i];
      }
    }
    forall k | k in Ids(ns) ensures k in Ids(s) {
      var i :| 0 <= i < |ns| && ns[i].id == k;
      assert s[i] == ns[i];
    }
    assert s[|ns|] == n;
  }

  /**
   * The open flags after the notifications `ns` have been seen, one after the other from `prev`:
   * the keys are those of `prev` and the ids of `ns`; a key of `prev` keeps its flag, and every
   * id that was new is open.
   */
  function Merged(prev: map<string, bool>, ns: seq<AppNotification>): (m: map<string, bool>)
    ensures m.Keys == prev.Keys + Ids(ns)
    ensures forall k :: k in prev ==> m[k] == prev[k]
    ensures forall k :: k in m && k !in prev ==> m[k]
    decreases |ns|
  {
    if ns == [] then prev
    else
      var front, last := ns[..|ns| - 1], ns[|ns| - 1];
      assert front + [last] == ns;
      IdsSnoc(front, last);
      var m := Merged(prev, front);
      if last.id in m then m else m[last.id := true]
  }

  /** With no new id the merge leaves the map as it is. */
  lemma MergeNothingNew(prev: map<string, bool>, ns: seq<AppNotification>)
    requires forall i :: 0 <= i < |ns| ==> ns[i].id in prev
    ensures Merged(prev, ns) == prev
  {
    assert Merged(prev, ns).Keys == prev.Keys;
  }

  /** Merging the same notifications again changes nothing. */
  lemma MergeIdempotent(prev: map<string, bool>, ns: seq<AppNotification>)
    ensures Merged(Merged(prev, ns), ns) == Merged(prev, ns)
  {
    MergeNothingNew(Merged(prev, ns), ns);
  }

  /** A card closed before the merge stays closed after it. */
  lemma MergeNeverReopens(prev: map<string, bool>, ns: seq<AppNotification>, id: string)
    requires id in prev && !prev[id]
    ensures id in Merged(prev, ns) && !Merged(prev, ns)[id]
  {
  }

  /** A notification as the stack shows it; its body appears only while it is open. */
  datatype Card = Card(id: string, icon: Icon, message: string, open: bool)

  /** The stack's state: which cards are open. */
  class NotificationStack {
    var openMap: map<string, bool>

    constructor()
      ensures openMap == map[]
    {
      openMap := map[];
    }

    /**
     * The effect run whenever the notifications change: the map is copied and each id it lacks
     * is opened, one notification after the other.
     */
    method MergeOpen(ns: seq<AppNotification>)
      modifies this
      ensures openMap == Merged(old(openMap), ns)
    {
      var next := openMap;
      var i := 0;
      while i < |ns|
        invariant 0 <= i <= |ns|
        invariant next == Merged(openMap, ns[..i])
      {
        assert ns[..i + 1][..i] == ns[..i];
        if !(ns[i].id in next) {
          next := next[ns[i].id := true];
        }
        i := i + 1;
      }
      assert ns[..|ns|] == ns;
      openMap := next;
    }

    /** A card's `setOpen`: only that id's flag changes. */
    method SetOpen(id: string, open: bool)
      modifies this
      ensures openMap == old(openMap)[id := open]
    {
      openMap := openMap[id := open];
    }

    /** `openMap[n.id]`: an id the map lacks reads as closed. */
    function IsOpen(id: string): (open: bool)
      reads this
      ensures open <==> id in openMap && openMap[id]
    {
      id in openMap && openMap[id]
    }

    /** The stack: nothing for an empty list, otherwise one card per notification, in order. */
    function Render(ns: seq<AppNotification>): (r: Option<seq<Card>>)
      reads this
      ensures r.None? <==> ns == []
      ensures r.Some? ==> |r.value| == |ns|
      ensures r.Some? ==> forall i :: 0 <= i < |ns| ==>
          r.value[i] == Card(ns[i].id, TypeIcon(TypeName(ns[i].kind)), ns[i].message, IsOpen(ns[i].id))
    {
      if |ns| == 0 then None
      else Some(seq(|ns|, i requires 0 <= i < |ns| reads this => Card(ns[i].id, TypeIcon(TypeName(ns[i].kind)), ns[i].message, IsOpen(ns[i].id))))
    }
  }

  /** After the merge every notification in the list is shown open unless it was closed before. */
  lemma MergedShowsNew(prev: map<string, bool>, ns: seq<AppNotification>, i: int)
    requires 0 <= i < |ns| && ns[i].id !in prev
    ensures ns[i].id in Merged(prev, ns) && Merged(prev, ns)[ns[i].id]
  {
    assert ns[i].id in Ids(ns);
  }
}
