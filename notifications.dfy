/** The learner's notification list (src/contexts/NotificationContext.jsx): loaded
    newest first, grown by realtime inserts, marked read all at once, and pruned one
    id at a time, with an unread counter kept beside the list. */
module Notifications {
  import opened Common

  datatype Notification = Notification(id: int, userId: int, message: string, read: bool, createdAt: int)

  predicate Unread(n: Notification) { !n.read }

  /** The number of unread notifications of a list. */
  function UnreadOf(ns: seq<Notification>): nat
  {
    Count(ns, Unread)
  }

  function NewestFirst(n: Notification): int { -n.createdAt }

  predicate OwnedBy(userId: int, n: Notification) { n.userId == userId }

  /** The initial load: the learner's rows, newest first. */
  function LoadedList(table: seq<Notification>, userId: int): (ns: seq<Notification>)
    ensures forall n <- ns :: n in table && n.userId == userId
    ensures forall n <- table :: n.userId == userId ==> n in ns
    ensures forall i, j :: 0 <= i < j < |ns| ==> ns[i].createdAt >= ns[j].createdAt
    ensures multiset(ns) == multiset(Filter(table, n => OwnedBy(userId, n)))
  {
    var mine := Filter(table, n => OwnedBy(userId, n));
    var ns := SortBy(mine, NewestFirst);
    assert forall n :: n in ns <==> n in mine by {
      forall n ensures n in ns <==> n in mine {
        assert n in ns <==> n in multiset(ns);
      }
    }
    ns
  }

  /** Every notification marked read (`prev.map(n => ({ ...n, read: true }))`). */
  function AllRead(ns: seq<Notification>): (r: seq<Notification>)
    ensures |r| == |ns|
    ensures forall i :: 0 <= i < |ns| ==> r[i] == ns[i].(read := true)
  {
    if ns == [] then [] else AllRead(ns[..|ns| - 1]) + [ns[|ns| - 1].(read := true)]
  }

  /** The list without the notifications carrying `id`, the others in order
      (`prev.filter(n => n.id !== id)`). */
  function WithoutId(ns: seq<Notification>, id: int): (r: seq<Notification>)
    ensures forall n :: n in r <==> n in ns && n.id != id
    ensures |r| <= |ns|
  {
    if ns == [] then []
    else
      assert ns == [ns[0]] + ns[1..];
      (if ns[0].id != id then [ns[0]] else []) + WithoutId(ns[1..], id)
  }

  predicate KeptBy(id: int, n: Notification) { n.id != id }

  /** Deleting keeps the other notifications in their order: the list is the
      filter of the old one by a different id. */
  lemma {:induction false} WithoutIdIsFilter(ns: seq<Notification>, id: int)
    ensures WithoutId(ns, id) == Filter(ns, n => KeptBy(id, n))
  {
    if ns != [] {
      FilterCons(ns, n => KeptBy(id, n));
      WithoutIdIsFilter(ns[1..], id);
    }
  }

  /** After marking everything read nothing is unread, whatever the list held. */
  lemma {:induction false} AllReadNoneUnread(ns: seq<Notification>)
    ensures UnreadOf(AllRead(ns)) == 0
  {
    if ns != [] {
      AllReadNoneUnread(ns[..|ns| - 1]);
      assert AllRead(ns)[..|ns| - 1] == AllRead(ns[..|ns| - 1]);
    }
  }

  lemma {:induction false} UnreadCons(n: Notification, ns: seq<Notification>)
    ensures UnreadOf([n] + ns) == UnreadOf(ns) + (if n.read then 0 else 1)
    decreases |ns|
  {
    if ns != [] {
      var init := ns[..|ns| - 1];
      UnreadCons(n, init);
      assert ([n] + ns)[..|ns|] == [n] + init;
    }
  }

  /** Deleting never lowers the number of unread notifications below what the
      counter says: the list's count can only drop. */
  lemma {:induction false} DeleteNeverAddsUnread(ns: seq<Notification>, id: int)
    ensures UnreadOf(WithoutId(ns, id)) <= UnreadOf(ns)
    decreases |ns|
  {
    if ns != [] {
      DeleteNeverAddsUnread(ns[1..], id);
      UnreadCons(ns[0], ns[1..]);
      assert [ns[0]] + ns[1..] == ns;
      if ns[0].id != id {
        assert WithoutId(ns, id) == [ns[0]] + WithoutId(ns[1..], id);
        UnreadCons(ns[0], WithoutId(ns[1..], id));
      } else {
        assert WithoutId(ns, id) == WithoutId(ns[1..], id);
      }
    }
  }

  /** Deleting an id no notification carries changes nothing. */
  lemma {:induction false} WithoutAbsentId(ns: seq<Notification>, id: int)
    requires forall n <- ns :: n.id != id
    ensures WithoutId(ns, id) == ns
  {
    if ns != [] {
      assert ns[0] in ns;
      assert forall n <- ns[1..] :: n in ns;
      WithoutAbsentId(ns[1..], id);
      assert ns == [ns[0]] + ns[1..];
    }
  }

  /** The notification at `k` is unread and the only one carrying `id`. */
  predicate OnlyUnreadWithId(ns: seq<Notification>, id: int, k: int)
  {
    0 <= k < |ns| && ns[k].id == id && !ns[k].read
    && forall j :: 0 <= j < |ns| && j != k ==> ns[j].id != id
  }

  /** Deleting the one unread notification with an id lowers the list's unread
      count by exactly one, while the counter stays: the counter is left one
      above the list. */
  lemma {:induction false} DeleteCanOvercount(ns: seq<Notification>, id: int, k: int)
    requires OnlyUnreadWithId(ns, id, k)
    ensures UnreadOf(WithoutId(ns, id)) + 1 == UnreadOf(ns)
    decreases |ns|
  {
    UnreadCons(ns[0], ns[1..]);
    assert [ns[0]] + ns[1..] == ns;
    if k == 0 {
      assert forall n <- ns[1..] :: n.id != id by {
        forall n | n in ns[1..] ensures n.id != id {
          var j :| 0 <= j < |ns[1..]| && ns[1..][j] == n;
          assert ns[j + 1] == n;
        }
      }
      WithoutAbsentId(ns[1..], id);
      assert WithoutId(ns, id) == WithoutId(ns[1..], id);
    } else {
      assert OnlyUnreadWithId(ns[1..], id, k - 1) by {
        forall j | 0 <= j < |ns[1..]| && j != k - 1 ensures ns[1..][j].id != id {
          assert ns[1..][j] == ns[j + 1];
        }
      }
      DeleteCanOvercount(ns[1..], id, k - 1);
      assert WithoutId(ns, id) == [ns[0]] + WithoutId(ns[1..], id);
      UnreadCons(ns[0], WithoutId(ns[1..], id));
    }
  }

  /** The notification state of the signed-in learner. */
  class NotificationCenter {
    var notifications: seq<Notification>
    var unreadCount: int

    /** The counter agrees with the list. */
    predicate Consistent()
      reads this
    {
      unreadCount == UnreadOf(notifications)
    }

    constructor ()
      ensures notifications == [] && unreadCount == 0 && Consistent()
    {
      notifications := [];
      unreadCount := 0;
    }

    /** `fetchNotifications`: nothing without a learner or when the read fails;
        otherwise the learner's list, newest first, and its unread count. */
    method Load(user: Option<int>, table: seq<Notification>, fails: bool)
      modifies this
      ensures user.None? || fails ==> notifications == old(notifications) && unreadCount == old(unreadCount)
      ensures user.Some? && !fails ==> notifications == LoadedList(table, user.value) && Consistent()
    {
      if user.None? || fails {
        return;
      }
      var data := LoadedList(table, user.value);
      notifications := data;
      unreadCount := UnreadOf(data);
    }

    /** The realtime insert handler: the new notification goes first and the
        counter goes up by one. */
    method OnInsert(n: Notification)
      modifies this
      ensures notifications == [n] + old(notifications)
      ensures unreadCount == old(unreadCount) + 1
      ensures old(Consistent()) && !n.read ==> Consistent()
    {
      UnreadCons(n, notifications);
      notifications := [n] + notifications;
      unreadCount := unreadCount + 1;
    }

    /** `markAllAsRead`: nothing when the counter is 0 or the update fails;
        otherwise every notification is read, in the same order, and the counter
        is 0. */
    method MarkAllAsRead(fails: bool)
      modifies this
      ensures old(unreadCount) == 0 || fails ==> notifications == old(notifications) && unreadCount == old(unreadCount)
      ensures old(unreadCount) != 0 && !fails ==> notifications == AllRead(old(notifications)) && unreadCount == 0 && Consistent()
    {
      if unreadCount == 0 {
        return;
      }
      if !fails {
        AllReadNoneUnread(notifications);
        notifications := AllRead(notifications);
        unreadCount := 0;
      }
    }

    /** `deleteNotification(id)`: the notifications with that id leave the list,
        the others keep their order, and the counter is left as it was. */
    method DeleteNotification(id: int)
      modifies this
      ensures notifications == WithoutId(old(notifications), id)
      ensures unreadCount == old(unreadCount)
      ensures old(Consistent()) ==> unreadCount >= UnreadOf(notifications)
      ensures old(Consistent()) && (exists k :: OnlyUnreadWithId(old(notifications), id, k)) ==>
        unreadCount == UnreadOf(notifications) + 1
    {
      DeleteNeverAddsUnread(notifications, id);
      if exists k :: OnlyUnreadWithId(notifications, id, k) {
        ghost var k :| OnlyUnreadWithId(notifications, id, k);
        DeleteCanOvercount(notifications, id, k);
      }
      notifications := WithoutId(notifications, id);
    }
  }
}
