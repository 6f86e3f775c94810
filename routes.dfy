/**
 The request handlers of the application as transitions of an in-memory
 relational store. Each handler is one method of `Store`; the signed-in user
 arrives as a `Session` argument, and what the handler would render or
 redirect to is summarised by a `Reply`.
 */
module Routes {
  import opened Tables

  /** Who is making the request. */
  datatype Session = Anonymous | SignedIn(username: string)

  /** Why the friend-request form was refused; each is a flashed error, nothing is written. */
  datatype Reason = InvalidUsername | AlreadyFriends | AlreadyRequested

  /**
   What a handler ends with: a redirect to the login page (nothing read or
   written), a normal result, a refusal, or an uncaught exception (the
   framework's error page).
   */
  datatype Reply<T> = LoginRequired | Ok(value: T) | Rejected(reason: Reason) | Crashed

  /** What the home page shows: the user's own status and each friend's. */
  datatype Home = Home(status: bool, friends: seq<FriendStatus>)

  /** The path `url_for('index')` produces. */
  const IndexUrl: string := "/index"

  /**
   Where `login` sends a user after signing in: the `next` query argument
   when it is present, non-empty and has no network location, as the URL
   parser reports it (`netloc` is that parser's network-location part of
   `next`), else the home page. The parser's verdict is trusted: a value it
   reads as having no network location is followed as given.
   */
  function NextPage(next: Option<string>, netloc: string): (target: string)
    ensures target == IndexUrl || (netloc == "" && next == Some(target) && target != "")
    ensures next.Some? && next.value != "" && netloc == "" ==> target == next.value
    ensures next.None? || next.value == "" || netloc != "" ==> target == IndexUrl
  {
    if next.None? || next.value == "" || netloc != "" then IndexUrl else next.value
  }

  /** A home-page friend list that gives, for each name in turn, that user's current status. */
  ghost predicate ListsStatuses(page: seq<FriendStatus>, names: seq<string>, us: seq<User>)
  {
    |page| == |names| &&
    forall i :: 0 <= i < |page| ==>
      page[i].username == names[i] && FindUser(us, names[i]).Some? &&
      page[i].status == us[FindUser(us, names[i]).value].status
  }

  class Store {
    var users: seq<User>
    var requests: seq<FriendRequest>
    var friends: seq<Friend>
    var events: seq<Event>
    /** The id the next created event receives (the database's id allocator). */
    var nextId: int

    /** The store's integrity constraints: unique usernames, unique event ids, and a fresh next id. */
    ghost predicate Valid()
      reads this
    {
      UniqueUsernames(users) && UniqueEventIds(events) &&
      forall i :: 0 <= i < |events| ==> events[i].id < nextId
    }

    /** A signed-in session belongs to a registered user, as the login manager guarantees. */
    ghost predicate Authentic(session: Session)
      reads this
    {
      session.SignedIn? ==> FindUser(users, session.username).Some?
    }

    /** A store holding the given registered accounts and nothing else. */
    constructor (accounts: seq<User>)
      requires UniqueUsernames(accounts)
      ensures Valid()
      ensures users == accounts && requests == [] && friends == [] && events == []
    {
      users, requests, friends, events := accounts, [], [], [];
      nextId := 1;
    }

    // -------------------------------------------------------------------
    // Home page

    /** `index`: the user's own status and, for each Friend row they own, the friend's status. */
    method Index(session: Session) returns (r: Reply<Home>)
      requires Authentic(session)
      ensures session.Anonymous? <==> r == LoginRequired
      ensures session.SignedIn? ==> r.Ok? || r.Crashed?
      ensures session.SignedIn? ==>
        (r.Crashed? <==> exists n :: n in FriendsOf(friends, session.username) && FindUser(users, n).None?)
      ensures r.Ok? ==>
        session.SignedIn? &&
        r.value.status == users[FindUser(users, session.username).value].status &&
        ListsStatuses(r.value.friends, FriendsOf(friends, session.username), users)
    {
      if session.Anonymous? {
        return LoginRequired;
      }
      var u := session.username;
      var own := users[FindUser(users, u).value];
      var page: seq<FriendStatus> := [];
      var i := 0;
      while i < |friends|
        invariant 0 <= i <= |friends|
        invariant ListsStatuses(page, FriendsOf(friends[..i], u), users)
      {
        assert friends[..i + 1][..i] == friends[..i];
        if friends[i].author == u {
          var name := friends[i].friendUsername;
          var found := FindUser(users, name);
          if found.None? {
            FriendsOfMembers(friends, u);
            assert name in FriendsOf(friends, u);
            return Crashed;
          }
          page := page + [FriendStatus(name, users[found.value].status)];
        }
        i := i + 1;
      }
      assert friends[..i] == friends;
      r := Ok(Home(own.status, page));
      assert forall j :: 0 <= j < |page| ==> FindUser(users, FriendsOf(friends, u)[j]).Some?;
    }

    // -------------------------------------------------------------------
    // Friend requests

    /** The `isFriend` scan: does `owner` own a Friend row naming `target`? */
    method IsFriend(owner: string, target: string) returns (b: bool)
      ensures b <==> target in FriendsOf(friends, owner)
    {
      b := false;
      var i := 0;
      while i < |friends|
        invariant 0 <= i <= |friends|
        invariant b <==> exists k :: 0 <= k < i && friends[k].author == owner && friends[k].friendUsername == target
      {
        if friends[i].author == owner && friends[i].friendUsername == target {
          b := true;
        }
        i := i + 1;
      }
      FriendsOfMembers(friends, owner);
    }

    /** The `sentFriendRequest` scan: is there a row with this requester and this friend? */
    method RequestSent(requester: string, friend: string) returns (b: bool)
      ensures b <==> RequestExists(requests, requester, friend)
    {
      b := false;
      var i := 0;
      while i < |requests|
        invariant 0 <= i <= |requests|
        invariant b <==> exists k :: 0 <= k < i && requests[k].requesterUsername == requester &&
                                     requests[k].friendUsername == friend
      {
        if requests[i].requesterUsername == requester && requests[i].friendUsername == friend {
          b := true;
        }
        i := i + 1;
      }
    }

    /**
     `friends` on a submitted form: send a friend request to `target`. The
     target must be another registered user who is not already in the sender's
     friend list and who has no row naming it as requester and the sender as
     friend; then exactly one open row is added, owned by the target.
     */
    method SendFriendRequest(session: Session, target: string) returns (r: Reply<()>)
      requires Valid() && Authentic(session)
      modifies this`requests
      ensures Valid()
      ensures session.Anonymous? <==> r == LoginRequired
      ensures session.SignedIn? ==>
        var u := session.username;
        var known := FindUser(users, target).Some? && target != u;
        (r == Rejected(InvalidUsername) <==> !known) &&
        (r == Rejected(AlreadyFriends) <==> known && target in FriendsOf(friends, u)) &&
        (r == Rejected(AlreadyRequested) <==>
           known && target !in FriendsOf(friends, u) && RequestExists(old(requests), target, u)) &&
        (r == Ok(()) <==>
           known && target !in FriendsOf(friends, u) && !RequestExists(old(requests), target, u))
      ensures r.Ok? ==> session.SignedIn? && requests == old(requests) + [RequestRow(session.username, target)]
      ensures !r.Ok? ==> requests == old(requests)
    {
      if session.Anonymous? {
        return LoginRequired;
      }
      var u := session.username;
      var found := FindUser(users, target);
      var isFriend, sent := false, false;
      if found.Some? {
        isFriend := IsFriend(u, target);
        sent := RequestSent(target, u);
      }
      if found.Some? && target != u {
        if isFriend {
          r := Rejected(AlreadyFriends);
        } else if sent {
          r := Rejected(AlreadyRequested);
        } else {
          requests := requests + [RequestRow(u, target)];
          r := Ok(());
        }
      } else {
        r := Rejected(InvalidUsername);
      }
    }

    /** `friends` without a submitted form: the senders of the user's open incoming requests. */
    method IncomingRequests(session: Session) returns (r: Reply<seq<string>>)
      ensures session.Anonymous? ==> r == LoginRequired
      ensures session.SignedIn? ==> r == Ok(IncomingOf(requests, session.username))
    {
      if session.Anonymous? {
        return LoginRequired;
      }
      var u := session.username;
      var names: seq<string> := [];
      var i := 0;
      while i < |requests|
        invariant 0 <= i <= |requests|
        invariant names == IncomingOf(requests[..i], u)
      {
        assert requests[..i + 1][..i] == requests[..i];
        var row := requests[i];
        if row.author == u && row.requesterUsername == u && row.requestStatus {
          names := names + [row.friendUsername];
        }
        i := i + 1;
      }
      assert requests[..i] == requests;
      r := Ok(names);
    }

    /**
     `updateFriendRequest`: resolve the request from `sender` with `decision`.
     Every row with the user as requester and `sender` as friend is deleted,
     whatever the decision. On "accept" one Friend row owned by the sender and
     naming the user is added; when no user is called `sender`, the lookup
     fails after the deletions are already committed. Any other decision adds
     nothing. Nothing checks that a request from `sender` was pending: an
     accept with none still adds the Friend row.
     */
    method UpdateFriendRequest(session: Session, sender: string, decision: string) returns (r: Reply<()>)
      requires Valid() && Authentic(session)
      modifies this`requests, this`friends
      ensures Valid()
      ensures session.Anonymous? ==>
        r == LoginRequired && requests == old(requests) && friends == old(friends)
      ensures session.SignedIn? ==>
        requests == WithoutRequests(old(requests), session.username, sender)
      ensures session.SignedIn? && decision == "accept" && FindUser(users, sender).Some? ==>
        r == Ok(()) && friends == old(friends) + [Friend(sender, session.username)]
      ensures session.SignedIn? && decision == "accept" && FindUser(users, sender).None? ==>
        r == Crashed && friends == old(friends)
      ensures session.SignedIn? && decision != "accept" ==>
        r == Ok(()) && friends == old(friends)
      ensures FriendsRegistered(users, old(friends)) ==> FriendsRegistered(users, friends)
    {
      if session.Anonymous? {
        return LoginRequired;
      }
      var u := session.username;
      var kept: seq<FriendRequest> := [];
      var i := 0;
      while i < |requests|
        invariant 0 <= i <= |requests|
        invariant kept == WithoutRequests(requests[..i], u, sender)
      {
        assert requests[..i + 1][..i] == requests[..i];
        var row := requests[i];
        if !(row.requesterUsername == u && row.friendUsername == sender) {
          kept := kept + [row];
        }
        i := i + 1;
      }
      assert requests[..i] == requests;
      requests := kept;
      if decision == "accept" {
        var found := FindUser(users, sender);
        if found.None? {
          return Crashed;
        }
        friends := friends + [Friend(users[found.value].username, u)];
      }
      r := Ok(());
    }

    // -------------------------------------------------------------------
    // Events

    /** `viewEvent`: the events the user owns, in table order. */
    method ViewEvents(session: Session) returns (r: Reply<seq<Event>>)
      ensures session.Anonymous? ==> r == LoginRequired
      ensures session.SignedIn? ==> r == Ok(EventsOf(events, session.username))
      ensures r.Ok? ==> forall e :: e in r.value <==> e in events && e.author == session.username
    {
      if session.Anonymous? {
        return LoginRequired;
      }
      EventsOfMembers(events, session.username);
      r := Ok(EventsOf(events, session.username));
    }

    /**
     `createEvent`: add one event owned by the user, under an id no event has;
     by `EventsOfAppend` it appears last in the user's own list and in nobody
     else's.
     */
    method CreateEvent(session: Session, form: EventForm) returns (r: Reply<()>)
      requires Valid() && Authentic(session)
      modifies this`events, this`nextId
      ensures Valid()
      ensures session.Anonymous? ==> r == LoginRequired && events == old(events)
      ensures session.SignedIn? ==>
        var e := Event(old(nextId), session.username, form.title, form.description,
                       form.date, form.startTime, form.endTime);
        r == Ok(()) && FindEvent(old(events), e.id, None).None? && events == old(events) + [e]
    {
      if session.Anonymous? {
        return LoginRequired;
      }
      var u := session.username;
      var e := Event(nextId, u, form.title, form.description, form.date, form.startTime, form.endTime);
      AppendFreshKeepsIdsUnique(events, e, nextId);
      events := events + [e];
      nextId := nextId + 1;
      r := Ok(());
    }

    /**
     `editEvent`: overwrite the five fields of the event with this id owned by
     the user. When there is none (no such id, or another user's event) the
     lookup yields nothing and the handler fails without writing.
     */
    method EditEvent(session: Session, id: int, form: EventForm) returns (r: Reply<()>)
      requires Valid() && Authentic(session)
      modifies this`events
      ensures Valid()
      ensures session.Anonymous? ==> r == LoginRequired && events == old(events)
      ensures session.SignedIn? ==>
        match FindEvent(old(events), id, Some(session.username))
          case None => r == Crashed && events == old(events)
          case Some(k) => r == Ok(()) && events == old(events)[k := Edited(old(events)[k], form)]
      ensures |events| == |old(events)|
      ensures forall j :: 0 <= j < |events| && events[j] != old(events)[j] ==>
        session.SignedIn? && old(events)[j].id == id && old(events)[j].author == session.username &&
        events[j] == Edited(old(events)[j], form)
    {
      if session.Anonymous? {
        return LoginRequired;
      }
      var found := FindEvent(events, id, Some(session.username));
      if found.None? {
        return Crashed;
      }
      var k := found.value;
      events := events[k := Edited(events[k], form)];
      r := Ok(());
    }

    /**
     `deleteEvent`: delete the event with this id, whoever owns it. Every
     other event stays; when no event has the id the handler fails without
     writing.
     */
    method DeleteEvent(session: Session, id: int) returns (r: Reply<()>)
      requires Valid() && Authentic(session)
      modifies this`events
      ensures Valid()
      ensures session.Anonymous? ==> r == LoginRequired && events == old(events)
      ensures session.SignedIn? ==>
        match FindEvent(old(events), id, None)
          case None => r == Crashed && events == old(events)
          case Some(k) => r == Ok(()) && events == RemoveAt(old(events), k)
      ensures r.Ok? ==> forall e :: e in events <==> e in old(events) && e.id != id
    {
      if session.Anonymous? {
        return LoginRequired;
      }
      var found := FindEvent(events, id, None);
      if found.None? {
        return Crashed;
      }
      var k := found.value;
      DeleteRemovesOnlyThatId(events, id, k);
      DeleteKeepsIdsUnique(events, k, nextId);
      events := RemoveAt(events, k);
      r := Ok(());
    }

    // -------------------------------------------------------------------
    // Availability

    /**
     `createSchedule` without a submitted form: the user's own stored schedule
     for the editor, which is `None` when the user has never saved one.
     */
    method CreateSchedule(session: Session) returns (r: Reply<Option<string>>)
      requires Valid() && Authentic(session)
      ensures session.Anonymous? ==> r == LoginRequired
      ensures session.SignedIn? ==> r.Ok?
      ensures r.Ok? ==>
        exists j :: 0 <= j < |users| && users[j].username == session.username && users[j].schedule == r.value
    {
      if session.Anonymous? {
        return LoginRequired;
      }
      var k := FindUser(users, session.username).value;
      r := Ok(users[k].schedule);
    }

    /** `updateSchedule`: overwrite the user's own schedule with `payload`; nothing else changes. */
    method UpdateSchedule(session: Session, payload: string) returns (r: Reply<()>)
      requires Valid() && Authentic(session)
      modifies this`users
      ensures Valid() && Authentic(session)
      ensures session.Anonymous? ==> r == LoginRequired && users == old(users)
      ensures session.SignedIn? ==> r == Ok(()) && users == WithSchedule(old(users), session.username, payload)
    {
      if session.Anonymous? {
        return LoginRequired;
      }
      var k := FindUser(users, session.username).value;
      ghost var before := users;
      users := users[k := users[k].(schedule := Some(payload))];
      FindUserByNamesOnly(before, users, session.username);
      r := Ok(());
    }

    /**
     `getSchedule`: any user's stored schedule, by username. An unknown name
     fails on the attribute access; a user who never saved a schedule makes
     the view return nothing, which the framework refuses with an error.
     */
    method GetSchedule(session: Session, name: string) returns (r: Reply<string>)
      requires Valid()
      ensures session.Anonymous? <==> r == LoginRequired
      ensures session.SignedIn? ==> r.Ok? || r.Crashed?
      ensures session.SignedIn? ==>
        (r.Crashed? <==> forall j :: 0 <= j < |users| && users[j].username == name ==> users[j].schedule.None?)
      ensures r.Ok? ==> exists j :: 0 <= j < |users| && users[j].username == name && users[j].schedule == Some(r.value)
    {
      if session.Anonymous? {
        return LoginRequired;
      }
      var found := FindUser(users, name);
      if found.None? {
        return Crashed;
      }
      var k := found.value;
      if users[k].schedule.None? {
        return Crashed;
      }
      r := Ok(users[k].schedule.value);
    }

    /** `updateStatus`: negate the user's own status; nothing else changes. */
    method UpdateStatus(session: Session) returns (r: Reply<()>)
      requires Valid() && Authentic(session)
      modifies this`users
      ensures Valid() && Authentic(session)
      ensures session.Anonymous? ==> r == LoginRequired && users == old(users)
      ensures session.SignedIn? ==> r == Ok(()) && users == WithStatusToggled(old(users), session.username)
    {
      if session.Anonymous? {
        return LoginRequired;
      }
      var k := FindUser(users, session.username).value;
      ghost var before := users;
      users := users[k := users[k].(status := !users[k].status)];
      FindUserByNamesOnly(before, users, session.username);
      r := Ok(());
    }
  }
}
