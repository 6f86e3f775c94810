/**
 The four tables of the application's relational store, the queries the
 request handlers run against them, and the table transformations those
 handlers perform, as pure functions with the lemmas that pin them down.

 Ownership (`author`) is kept as the owner's username: usernames are unique,
 so a username identifies the user row the source's foreign key points to.
 */
module Tables {

  datatype Option<T> = None | Some(value: T)

  /**
   A registered account: `status` is true for free, false for busy. The
   schedule column is empty (`None`) until the user first saves a schedule.
   */
  datatype User = User(username: string, status: bool, schedule: Option<string>)

  /**
   A friend-request row. The send handler stores the RECIPIENT in both
   `author` and `requesterUsername` and the sender in `friendUsername`.
   */
  datatype FriendRequest = FriendRequest(author: string, requesterUsername: string,
                                         friendUsername: string, requestStatus: bool)

  /** A directed friendship edge owned by `author`. */
  datatype Friend = Friend(author: string, friendUsername: string)

  /** The five user-supplied fields of an event, already formatted. */
  datatype EventForm = EventForm(title: string, description: string, date: string,
                                 startTime: string, endTime: string)

  datatype Event = Event(id: int, author: string, title: string, description: string,
                         date: string, startTime: string, endTime: string)

  /** One entry of the home page's friend list. */
  datatype FriendStatus = FriendStatus(username: string, status: bool)

  // ---------------------------------------------------------------------
  // Users

  ghost predicate UniqueUsernames(us: seq<User>)
  {
    forall i, j :: 0 <= i < j < |us| ==> us[i].username != us[j].username
  }

  /** `User.query.filter_by(username=name).first()`: the first row with that name. */
  function FindUser(us: seq<User>, name: string): (r: Option<nat>)
    ensures r.Some? ==> r.value < |us| && us[r.value].username == name
    ensures r.Some? ==> forall j :: 0 <= j < r.value ==> us[j].username != name
    ensures r.None? <==> forall j :: 0 <= j < |us| ==> us[j].username != name
  {
    if us == [] then None
    else if us[0].username == name then Some(0)
    else match FindUser(us[1..], name)
      case None => None
      case Some(k) => Some(k + 1)
  }

  /** Two user tables with the same usernames row by row answer every lookup alike. */
  lemma {:induction false} FindUserByNamesOnly(us: seq<User>, vs: seq<User>, name: string)
    requires |us| == |vs|
    requires forall i :: 0 <= i < |us| ==> us[i].username == vs[i].username
    ensures FindUser(us, name) == FindUser(vs, name)
  {
    if us != [] && us[0].username != name {
      FindUserByNamesOnly(us[1..], vs[1..], name);
    }
  }

  /** With unique usernames, the row FindUser returns is the only one with that name. */
  lemma FindUserIsTheRow(us: seq<User>, name: string, i: nat)
    requires UniqueUsernames(us)
    requires i < |us| && us[i].username == name
    ensures FindUser(us, name) == Some(i)
  {
  }

  /** The users table after `user.status = not user.status` on the named user's row. */
  function WithStatusToggled(us: seq<User>, name: string): (vs: seq<User>)
    ensures |vs| == |us|
    ensures forall i :: 0 <= i < |us| ==>
      vs[i].username == us[i].username && vs[i].schedule == us[i].schedule
  {
    match FindUser(us, name)
      case None => us
      case Some(i) => us[i := us[i].(status := !us[i].status)]
  }

  /** Toggling negates the named user's status and changes no other field or row. */
  lemma WithStatusToggledSpec(us: seq<User>, name: string, i: nat)
    requires FindUser(us, name) == Some(i)
    ensures |WithStatusToggled(us, name)| == |us|
    ensures WithStatusToggled(us, name)[i] == User(name, !us[i].status, us[i].schedule)
    ensures forall j :: 0 <= j < |us| && j != i ==> WithStatusToggled(us, name)[j] == us[j]
  {
  }

  /** Toggling twice gives back the original users table. */
  lemma WithStatusToggledTwice(us: seq<User>, name: string)
    ensures WithStatusToggled(WithStatusToggled(us, name), name) == us
  {
    var once := WithStatusToggled(us, name);
    FindUserByNamesOnly(us, once, name);
  }

  /** The users table after `user.schedule = payload` on the named user's row. */
  function WithSchedule(us: seq<User>, name: string, payload: string): (vs: seq<User>)
    ensures |vs| == |us|
    ensures forall i :: 0 <= i < |us| ==>
      vs[i].username == us[i].username && vs[i].status == us[i].status
  {
    match FindUser(us, name)
      case None => us
      case Some(i) => us[i := us[i].(schedule := Some(payload))]
  }

  /**
   A schedule stored for `name` is what a lookup of `name` reads back, and a
   lookup of anyone else reads what it read before.
   */
  lemma ScheduleReadsBack(us: seq<User>, name: string, payload: string, other: string)
    requires FindUser(us, name).Some?
    ensures FindUser(WithSchedule(us, name, payload), name) == FindUser(us, name)
    ensures WithSchedule(us, name, payload)[FindUser(us, name).value].schedule == Some(payload)
    ensures other != name ==> FindUser(WithSchedule(us, name, payload), other) == FindUser(us, other)
    ensures other != name && FindUser(us, other).Some? ==>
      WithSchedule(us, name, payload)[FindUser(us, other).value] == us[FindUser(us, other).value]
  {
    var vs := WithSchedule(us, name, payload);
    FindUserByNamesOnly(us, vs, name);
    FindUserByNamesOnly(us, vs, other);
  }

  // ---------------------------------------------------------------------
  // Friends

  /**
   The `friend_username` of every Friend row owned by `owner`, in table order:
   what `current_user.friends` and `Friend.query.filter_by(user_id=...)` yield.
   */
  function FriendsOf(fs: seq<Friend>, owner: string): (names: seq<string>)
    ensures |names| <= |fs|
  {
    if fs == [] then []
    else
      var last := fs[|fs| - 1];
      FriendsOf(fs[..|fs| - 1], owner) + (if last.author == owner then [last.friendUsername] else [])
  }

  /** A name is on `owner`'s friend list exactly when a Friend row owned by `owner` names it. */
  lemma {:induction false} FriendsOfMembers(fs: seq<Friend>, owner: string)
    ensures forall n :: n in FriendsOf(fs, owner) <==>
      exists k :: 0 <= k < |fs| && fs[k].author == owner && fs[k].friendUsername == n
  {
    if fs != [] {
      var init := fs[..|fs| - 1];
      FriendsOfMembers(init, owner);
      assert forall k :: 0 <= k < |init| ==> init[k] == fs[k];
    }
  }

  /** No Friend row names a user that is not registered. */
  ghost predicate FriendsRegistered(us: seq<User>, fs: seq<Friend>)
  {
    forall k :: 0 <= k < |fs| ==> FindUser(us, fs[k].friendUsername).Some?
  }

  /** While no Friend row dangles, every name on anyone's friend list can be looked up. */
  lemma RegisteredFriendsAreFound(us: seq<User>, fs: seq<Friend>, owner: string)
    requires FriendsRegistered(us, fs)
    ensures forall n :: n in FriendsOf(fs, owner) ==> FindUser(us, n).Some?
  {
    FriendsOfMembers(fs, owner);
  }

  /**
   Accepting adds only the edge owned by the sender: the accepting user's own
   friend list is what it was, so friendship is one-sided unless it already
   existed in the other direction. This rests on the Friend object the accept
   branch builds first never being saved; see the caveat on
   `Routes.Store.UpdateFriendRequest` in the README.
   */
  lemma AcceptIsOneSided(fs: seq<Friend>, sender: string, current: string)
    requires sender != current
    ensures FriendsOf(fs + [Friend(sender, current)], sender) == FriendsOf(fs, sender) + [current]
    ensures FriendsOf(fs + [Friend(sender, current)], current) == FriendsOf(fs, current)
  {
    assert (fs + [Friend(sender, current)])[..|fs|] == fs;
  }

  // ---------------------------------------------------------------------
  // Friend requests

  /** Some row has this requester and this friend, whatever its author and status. */
  ghost predicate RequestExists(rs: seq<FriendRequest>, requester: string, friend: string)
  {
    exists k :: 0 <= k < |rs| && rs[k].requesterUsername == requester && rs[k].friendUsername == friend
  }

  /** The row the send handler stores when `sender` targets `target`. */
  function RequestRow(sender: string, target: string): (row: FriendRequest)
    ensures IsIncoming(row, target) && row.friendUsername == sender
  {
    FriendRequest(target, target, sender, true)
  }

  /**
   The names listed as incoming requests for `user`: rows owned by `user`
   whose `requesterUsername` is `user` and whose status is open, in table order.
   */
  function IncomingOf(rs: seq<FriendRequest>, user: string): (names: seq<string>)
    ensures |names| <= |rs|
  {
    if rs == [] then []
    else
      var last := rs[|rs| - 1];
      IncomingOf(rs[..|rs| - 1], user) +
        (if IsIncoming(last, user) then [last.friendUsername] else [])
  }

  /** An open row owned by `user` with `user` as requester: a request waiting for `user`. */
  predicate IsIncoming(row: FriendRequest, user: string)
  {
    row.author == user && row.requesterUsername == user && row.requestStatus
  }

  /** A name is listed as incoming for `user` exactly when a row waiting for `user` has it as friend. */
  lemma {:induction false} IncomingOfMembers(rs: seq<FriendRequest>, user: string)
    ensures forall n :: n in IncomingOf(rs, user) <==>
      exists k :: 0 <= k < |rs| && IsIncoming(rs[k], user) && rs[k].friendUsername == n
  {
    if rs != [] {
      var init := rs[..|rs| - 1];
      IncomingOfMembers(init, user);
      assert forall k :: 0 <= k < |init| ==> init[k] == rs[k];
    }
  }

  /** A request just sent shows up, last, in the target's incoming list. */
  lemma SentRequestIsIncoming(rs: seq<FriendRequest>, sender: string, target: string)
    ensures IncomingOf(rs + [RequestRow(sender, target)], target) == IncomingOf(rs, target) + [sender]
  {
    assert (rs + [RequestRow(sender, target)])[..|rs|] == rs;
  }

  /**
   The duplicate check is one-directional: storing A's request to B makes a
   repeat from A count as already sent, but leaves B's check for a request to
   A exactly as it was.
   */
  lemma ReverseRequestNotBlocked(rs: seq<FriendRequest>, a: string, b: string)
    requires a != b
    ensures RequestExists(rs + [RequestRow(a, b)], b, a)
    ensures RequestExists(rs + [RequestRow(a, b)], a, b) <==> RequestExists(rs, a, b)
  {
    var t := rs + [RequestRow(a, b)];
    assert t[|rs|].requesterUsername == b && t[|rs|].friendUsername == a;
    if RequestExists(t, a, b) {
      var k :| 0 <= k < |t| && t[k].requesterUsername == a && t[k].friendUsername == b;
      assert k < |rs| && rs[k] == t[k];
    }
    if RequestExists(rs, a, b) {
      var k :| 0 <= k < |rs| && rs[k].requesterUsername == a && rs[k].friendUsername == b;
      assert t[k] == rs[k];
    }
  }

  /** The table after deleting every row with this requester and this friend. */
  function WithoutRequests(rs: seq<FriendRequest>, requester: string, friend: string): (kept: seq<FriendRequest>)
    ensures |kept| <= |rs|
  {
    if rs == [] then []
    else
      var last := rs[|rs| - 1];
      WithoutRequests(rs[..|rs| - 1], requester, friend) +
        (if last.requesterUsername == requester && last.friendUsername == friend then [] else [last])
  }

  /** Resolving keeps exactly the rows that do not pair this requester with this friend. */
  lemma {:induction false} WithoutRequestsMembers(rs: seq<FriendRequest>, requester: string, friend: string)
    ensures forall x :: x in WithoutRequests(rs, requester, friend) <==>
      x in rs && !(x.requesterUsername == requester && x.friendUsername == friend)
  {
    if rs != [] {
      var init := rs[..|rs| - 1];
      WithoutRequestsMembers(init, requester, friend);
      assert rs == init + [rs[|rs| - 1]];
    }
  }

  /** After resolving, no row for the pair is left, so a new request is no longer blocked. */
  lemma ResolvedPairIsGone(rs: seq<FriendRequest>, requester: string, friend: string)
    ensures !RequestExists(WithoutRequests(rs, requester, friend), requester, friend)
  {
    WithoutRequestsMembers(rs, requester, friend);
  }

  /** Resolving the same pair a second time deletes nothing more. */
  lemma {:induction false} WithoutRequestsIdempotent(rs: seq<FriendRequest>, requester: string, friend: string)
    ensures WithoutRequests(WithoutRequests(rs, requester, friend), requester, friend)
         == WithoutRequests(rs, requester, friend)
  {
    if rs != [] {
      var init, last := rs[..|rs| - 1], rs[|rs| - 1];
      var once := WithoutRequests(init, requester, friend);
      WithoutRequestsIdempotent(init, requester, friend);
      if last.requesterUsername == requester && last.friendUsername == friend {
        assert WithoutRequests(rs, requester, friend) == once;
      } else {
        assert WithoutRequests(rs, requester, friend) == once + [last];
        assert (once + [last])[..|once|] == once;
        assert WithoutRequests(once + [last], requester, friend)
            == WithoutRequests(once, requester, friend) + [last];
      }
    }
  }

  /**
   Resolving removes exactly the resolved sender from the current user's
   incoming list.
   */
  lemma ResolveClearsIncoming(rs: seq<FriendRequest>, current: string, sender: string, n: string)
    ensures n in IncomingOf(WithoutRequests(rs, current, sender), current) <==>
            n in IncomingOf(rs, current) && n != sender
  {
    var r := WithoutRequests(rs, current, sender);
    WithoutRequestsMembers(rs, current, sender);
    IncomingOfMembers(rs, current);
    IncomingOfMembers(r, current);
    if n in IncomingOf(r, current) {
      var k :| 0 <= k < |r| && IsIncoming(r[k], current) && r[k].friendUsername == n;
      assert r[k] in rs;
      var j :| 0 <= j < |rs| && rs[j] == r[k];
    }
    if n in IncomingOf(rs, current) && n != sender {
      var j :| 0 <= j < |rs| && IsIncoming(rs[j], current) && rs[j].friendUsername == n;
      assert rs[j] in r;
      var k :| 0 <= k < |r| && r[k] == rs[j];
    }
  }

  // ---------------------------------------------------------------------
  // Events

  ghost predicate UniqueEventIds(es: seq<Event>)
  {
    forall i, j :: 0 <= i < j < |es| ==> es[i].id != es[j].id
  }

  /** The owner constraint of a lookup: `None` accepts any owner. */
  predicate OwnedBy(e: Event, owner: Option<string>)
  {
    owner.None? || e.author == owner.value
  }

  /**
   `Event.query.filter_by(id=id).first()`, or, with an owner, the same query
   joined to the owner's user row: the first event with that id (and owner).
   */
  function FindEvent(es: seq<Event>, id: int, owner: Option<string>): (r: Option<nat>)
    ensures r.Some? ==> r.value < |es| && es[r.value].id == id && OwnedBy(es[r.value], owner)
    ensures r.Some? ==> forall j :: 0 <= j < r.value ==> !(es[j].id == id && OwnedBy(es[j], owner))
    ensures r.None? <==> forall j :: 0 <= j < |es| ==> !(es[j].id == id && OwnedBy(es[j], owner))
  {
    if es == [] then None
    else if es[0].id == id && OwnedBy(es[0], owner) then Some(0)
    else match FindEvent(es[1..], id, owner)
      case None => None
      case Some(k) => Some(k + 1)
  }

  /** An event with the five form fields written over it; id and owner are kept. */
  function Edited(e: Event, f: EventForm): (r: Event)
    ensures r.id == e.id && r.author == e.author
    ensures EventForm(r.title, r.description, r.date, r.startTime, r.endTime) == f
  {
    e.(title := f.title, description := f.description, date := f.date,
       startTime := f.startTime, endTime := f.endTime)
  }

  /** `current_user.events.all()`: the events owned by `owner`, in table order. */
  function EventsOf(es: seq<Event>, owner: string): (mine: seq<Event>)
    ensures |mine| <= |es|
  {
    if es == [] then []
    else
      var last := es[|es| - 1];
      EventsOf(es[..|es| - 1], owner) + (if last.author == owner then [last] else [])
  }

  /** An event is on `owner`'s list exactly when it is in the table and `owner` owns it. */
  lemma {:induction false} EventsOfMembers(es: seq<Event>, owner: string)
    ensures forall e :: e in EventsOf(es, owner) <==> e in es && e.author == owner
  {
    if es != [] {
      var init := es[..|es| - 1];
      EventsOfMembers(init, owner);
      assert es == init + [es[|es| - 1]];
    }
  }

  /** Appending an event adds it at the end of its owner's list and of no other list. */
  lemma EventsOfAppend(es: seq<Event>, e: Event)
    ensures EventsOf(es + [e], e.author) == EventsOf(es, e.author) + [e]
    ensures forall owner :: owner != e.author ==> EventsOf(es + [e], owner) == EventsOf(es, owner)
  {
    assert (es + [e])[..|es|] == es;
  }

  /** With ids unique, a lookup with an owner succeeds exactly when the row with that id is the owner's. */
  lemma OwnedLookup(es: seq<Event>, id: int, owner: string, k: nat)
    requires UniqueEventIds(es)
    requires FindEvent(es, id, None) == Some(k)
    ensures FindEvent(es, id, Some(owner)) == (if es[k].author == owner then Some(k) else None)
  {
  }

  /**
   With ids unique, deleting the row found by id removes exactly the events
   with that id: every other event stays.
   */
  lemma {:induction false} DeleteRemovesOnlyThatId(es: seq<Event>, id: int, k: nat)
    requires UniqueEventIds(es)
    requires FindEvent(es, id, None) == Some(k)
    ensures forall e :: e in RemoveAt(es, k) <==> e in es && e.id != id
  {
    var r := RemoveAt(es, k);
    forall e | e in r
      ensures e in es && e.id != id
    {
      var j :| 0 <= j < |r| && r[j] == e;
      var i := if j < k then j else j + 1;
      assert es[i] == e && i != k;
      assert es[i].id != es[k].id by {
        if i < k { assert es[i].id != es[k].id; } else { assert es[k].id != es[i].id; }
      }
    }
    forall e | e in es && e.id != id
      ensures e in r
    {
      var i :| 0 <= i < |es| && es[i] == e;
      var j := if i < k then i else i - 1;
      assert r[j] == e;
    }
  }

  /** The table without its row at position `k`. */
  function RemoveAt(es: seq<Event>, k: nat): (r: seq<Event>)
    requires k < |es|
    ensures |r| == |es| - 1
    ensures forall j :: 0 <= j < |r| ==> r[j] == es[if j < k then j else j + 1]
  {
    es[..k] + es[k + 1..]
  }

  /** Deleting one row keeps event ids unique and below any bound they were below. */
  lemma DeleteKeepsIdsUnique(es: seq<Event>, k: nat, bound: int)
    requires k < |es|
    requires UniqueEventIds(es)
    requires forall i :: 0 <= i < |es| ==> es[i].id < bound
    ensures UniqueEventIds(RemoveAt(es, k))
    ensures forall i :: 0 <= i < |RemoveAt(es, k)| ==> RemoveAt(es, k)[i].id < bound
  {
  }

  /** Appending an event under an id above every id in use keeps ids unique. */
  lemma AppendFreshKeepsIdsUnique(es: seq<Event>, e: Event, bound: int)
    requires UniqueEventIds(es)
    requires forall i :: 0 <= i < |es| ==> es[i].id < bound
    requires e.id == bound
    ensures FindEvent(es, e.id, None).None?
    ensures UniqueEventIds(es + [e])
    ensures forall i :: 0 <= i < |es + [e]| ==> (es + [e])[i].id < bound + 1
  {
  }
}
