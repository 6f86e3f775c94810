/**
 Client code that drives the handlers through whole interactions and checks,
 from the handlers' contracts alone, what each step leaves in the store.
 */
module Scenarios {
  import opened Tables
  import opened Routes

  /**
   alice asks bob: one open row owned by bob appears, and a second identical
   request is refused.
   */
  method SendScenario()
  {
    var store := new Store([User("alice", true, None), User("bob", false, None)]);
    var sent := store.SendFriendRequest(SignedIn("alice"), "bob");
    assert "bob" !in FriendsOf([], "alice");
    assert !RequestExists([], "bob", "alice");
    assert sent == Ok(());
    assert store.requests == [FriendRequest("bob", "bob", "alice", true)];

    var again := store.SendFriendRequest(SignedIn("alice"), "bob");
    assert store.requests[0].requesterUsername == "bob";
    assert again == Rejected(AlreadyRequested);
  }

  /** alice's request to bob makes bob's incoming list name alice, and alice's name nobody. */
  method IncomingScenario()
  {
    var store := new Store([User("alice", true, None), User("bob", false, None)]);
    var sent := store.SendFriendRequest(SignedIn("alice"), "bob");
    assert "bob" !in FriendsOf([], "alice");
    assert !RequestExists([], "bob", "alice");
    assert sent == Ok(());
    var incoming := store.IncomingRequests(SignedIn("bob"));
    SentRequestIsIncoming([], "alice", "bob");
    assert [] + [RequestRow("alice", "bob")] == store.requests;
    assert IncomingOf([], "bob") == [];
    assert IncomingOf(store.requests, "bob") == ["alice"];
    assert incoming == Ok(["alice"]);
    var outgoing := store.IncomingRequests(SignedIn("alice"));
    assert IncomingOf(store.requests, "alice") == IncomingOf([], "alice") == [];
    assert outgoing == Ok([]);
  }

  /** alice asks bob and bob accepts: the request is gone and one Friend row, owned by alice, remains. */
  method AcceptedStore() returns (store: Store)
    ensures fresh(store) && store.Valid()
    ensures store.users == [User("alice", true, None), User("bob", false, None)]
    ensures store.requests == [] && store.friends == [Friend("alice", "bob")]
  {
    store := new Store([User("alice", true, None), User("bob", false, None)]);
    var sent := store.SendFriendRequest(SignedIn("alice"), "bob");
    assert "bob" !in FriendsOf([], "alice");
    assert !RequestExists([], "bob", "alice");
    assert sent == Ok(());
    assert store.requests == [RequestRow("alice", "bob")];
    ResolvedPairIsGone([RequestRow("alice", "bob")], "bob", "alice");
    var resolved := store.UpdateFriendRequest(SignedIn("bob"), "alice", "accept");
    assert resolved == Ok(());
  }

  /**
   After bob accepts alice's request, alice's home page lists bob with his
   live status, while bob's lists nobody: the accept step stores only the
   edge owned by the sender (assuming the ORM never saves the first Friend
   object the handler builds; see the README's caveat on accepting).
   */
  method AcceptScenario()
  {
    var store := AcceptedStore();
    var home := store.Index(SignedIn("alice"));
    AcceptIsOneSided([], "alice", "bob");
    assert FriendsOf(store.friends, "alice") == ["bob"];
    assert home.Ok?;
    assert home.value.status == true;
    assert home.value.friends[0] == FriendStatus("bob", false);

    var bobsHome := store.Index(SignedIn("bob"));
    assert FriendsOf(store.friends, "bob") == [];
    assert bobsHome == Ok(Home(false, []));
  }

  /**
   No request is needed to accept: bob, never asked by anyone, posts an
   accept naming alice, and bob lands on alice's friend list.
   */
  method UnsolicitedAcceptScenario()
  {
    var store := new Store([User("alice", true, None), User("bob", false, None)]);
    var resolved := store.UpdateFriendRequest(SignedIn("bob"), "alice", "accept");
    assert resolved == Ok(());
    assert store.friends == [Friend("alice", "bob")];
    AcceptIsOneSided([], "alice", "bob");
    assert FriendsOf(store.friends, "alice") == ["bob"];
  }

  /**
   A pending alice-to-bob request does not stop bob from asking alice, but a
   request to oneself or to an unknown name is refused.
   */
  method RequestDirectionScenario()
  {
    var store := new Store([User("alice", true, None), User("bob", true, None)]);
    var first := store.SendFriendRequest(SignedIn("alice"), "bob");
    assert !RequestExists([], "bob", "alice");
    assert first == Ok(());

    ReverseRequestNotBlocked([], "alice", "bob");
    var reverse := store.SendFriendRequest(SignedIn("bob"), "alice");
    assert reverse == Ok(());
    assert |store.requests| == 2;

    var self := store.SendFriendRequest(SignedIn("alice"), "alice");
    assert self == Rejected(InvalidUsername);
    var unknown := store.SendFriendRequest(SignedIn("alice"), "carol");
    assert unknown == Rejected(InvalidUsername);
    assert |store.requests| == 2;

    var declined := store.UpdateFriendRequest(SignedIn("alice"), "bob", "decline");
    assert declined == Ok(());
    assert store.friends == [];
  }

  /** Create an event, move its end time as its owner, and read the list back. */
  method EditScenario()
  {
    var store := new Store([User("alice", true, None), User("bob", true, None)]);
    var standup := EventForm("Standup", "", "01/02/2023", "09:00", "09:15");
    var created := store.CreateEvent(SignedIn("alice"), standup);
    assert created == Ok(());
    var id := store.events[0].id;

    var foreign := store.EditEvent(SignedIn("bob"), id, standup.(title := "Hijacked"));
    assert foreign == Crashed;

    var edited := store.EditEvent(SignedIn("alice"), id, standup.(endTime := "09:30"));
    assert edited == Ok(());
    var listed := store.ViewEvents(SignedIn("alice"));
    assert store.events == [Event(id, "alice", "Standup", "", "01/02/2023", "09:00", "09:30")];
    assert listed.Ok? && |listed.value| == 1;
    assert listed.value[0] == store.events[0];
  }

  /** Another user can delete alice's event; deleting it again fails. */
  method DeleteScenario()
  {
    var store := new Store([User("alice", true, None), User("bob", true, None)]);
    var created := store.CreateEvent(SignedIn("alice"), EventForm("Standup", "", "01/02/2023", "09:00", "09:15"));
    var id := store.events[0].id;

    var deleted := store.DeleteEvent(SignedIn("bob"), id);
    assert deleted == Ok(());
    assert store.events == [];
    var gone := store.DeleteEvent(SignedIn("alice"), id);
    assert gone == Crashed;
  }

  /**
   Toggling the status twice, and storing then reading a schedule; reading
   the schedule of a user who never saved one fails.
   */
  method AvailabilityScenario()
  {
    var store := new Store([User("alice", true, None), User("bob", true, Some("bob's")), User("carol", true, None)]);
    var asAlice := SignedIn("alice");
    var before := store.users;
    var once := store.UpdateStatus(asAlice);
    assert store.users[0].status == false;
    var twice := store.UpdateStatus(asAlice);
    WithStatusToggledTwice(before, "alice");
    assert store.users == before;

    var empty := store.CreateSchedule(asAlice);
    assert empty == Ok(None);
    var stored := store.UpdateSchedule(asAlice, "{'mon': [9]}");
    ScheduleReadsBack(before, "alice", "{'mon': [9]}", "bob");
    ScheduleReadsBack(before, "alice", "{'mon': [9]}", "carol");
    assert store.users == [User("alice", true, Some("{'mon': [9]}")), User("bob", true, Some("bob's")), User("carol", true, None)];
    var mine := store.CreateSchedule(asAlice);
    assert mine == Ok(Some("{'mon': [9]}"));
    var bobs := store.GetSchedule(asAlice, "bob");
    assert store.users[0].username != "bob" && store.users[2].username != "bob";
    assert bobs == Ok("bob's");
    var unsaved := store.GetSchedule(asAlice, "carol");
    assert unsaved == Crashed;
    var nobody := store.GetSchedule(asAlice, "dave");
    assert nobody == Crashed;
  }
}
