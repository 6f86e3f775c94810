# Connect365 request handlers, modelled in Dafny

Connect365 is a small social scheduling web application: users befriend each
other through friend requests, publish calendar events, keep a weekly
schedule, and show a busy/free status to their friends. All of its logic sits
in the request handlers of `app/routes.py`. Each handler checks that someone is
signed in. It then reads and writes a relational store of four tables through
the ORM. Most handlers commit once at the end. `updateFriendRequest` commits
after each row it deletes, and again after adding the Friend row.

This project models that store and those handlers:

- `tables.dfy` (module `Tables`) holds the rows of the four tables. Users
  have a username, a status and a schedule, which stays empty until the user
  first saves one. Friend requests have an author,
  `requesterUsername`, `friendUsername` and `requestStatus`. Friends have an
  author and `friendUsername`. Events have an id, an author and five text
  fields. The module also holds the queries the handlers run, as recursive
  functions (`filter_by(...).first()` becomes `FindUser`/`FindEvent`), the
  table updates the handlers make, and the lemmas about them.
- `routes.dfy` (module `Routes`) has the class `Store`. Its fields hold the
  four tables as sequences, plus the id the next event receives. It has one
  method per handler. The signed-in user arrives as a `Session` argument.
  What the handler renders or redirects to is summarised by a `Reply`: a
  redirect to the login page (nothing read or written), a normal result, a
  flashed refusal, or an uncaught exception. `Valid()` is the store's
  integrity constraint: unique usernames and unique event ids. `Authentic`
  states that a signed-in session belongs to a registered user, which the
  login manager guarantees.
- `scenarios.dfy` (module `Scenarios`) has client methods. They run the
  handlers through whole interactions: sending, repeating and receiving a
  request; accepting one, and accepting when nothing was asked; requests in
  both directions; creating, editing and deleting an event; toggling status
  and reading a schedule back. They
  check, from the contracts alone, what each step leaves in the store.

The model follows the code where it departs from the application's stated
design:

- The request row names the recipient as `requesterUsername` and as `author`.
  The sender is named in `friendUsername`.
- The duplicate-request check looks in one direction only. A pending request
  from A to B does not block a request from B to A.
- Accepting stores a single Friend row, owned by the sender and naming the
  accepting user. The row built first at app/routes.py:177 is replaced before
  it is added. Friendship is therefore one-sided, as `AcceptIsOneSided` and
  `AcceptScenario` show. This holds only if the ORM never saves that first
  row; see the `Routes.Store.UpdateFriendRequest` caveat under "Left out".
- Accepting does not check that a request is pending. Any signed-in user can
  put themselves on anyone's friend list by posting "<name>-accept", as
  `UnsolicitedAcceptScenario` shows.
- Deleting an event by id does not check who owns it. Editing does.
- A failed lookup in edit, delete, accept or schedule retrieval raises an
  exception. So does retrieving the schedule of a user who never saved one:
  the view then returns nothing, which the framework refuses. It is modelled as `Crashed`. When accepting a request from an
  unknown user, the deletions that ran before the failing lookup have already
  been committed, and the model keeps them.

## Model

| member | source | states |
|---|---|---|
| Tables.FindUser | app/routes.py:106 | the first user row with the given name, or none exactly when no row has that name |
| Tables.FindUserByNamesOnly | app/routes.py:338-339 | a user lookup depends only on the usernames, so updating status or schedule never moves it |
| Tables.FindUserIsTheRow | app/routes.py:338 | with unique usernames, the lookup returns the one row carrying that name |
| Tables.WithStatusToggled | app/routes.py:338-339 | the users table after the toggle: same rows, same names and schedules; `WithStatusToggledSpec` pins down the changed status |
| Tables.WithStatusToggledSpec | app/routes.py:338-339 | toggling negates the named user's status and leaves their name, their schedule and every other row unchanged |
| Tables.WithStatusToggledTwice | app/routes.py:338-340 | toggling the status twice restores the users table exactly |
| Tables.WithSchedule | app/routes.py:307-308 | the users table after storing a schedule: same rows, same names and statuses; `ScheduleReadsBack` pins down the stored schedule |
| Tables.ScheduleReadsBack | app/routes.py:305-326 | after storing a schedule for a user, looking that user up reads it back as a saved schedule; lookups of anyone else find the same unchanged row |
| Tables.FriendsOf | app/routes.py:109-110 | a user's friend list, as the send handler queries it and as the home page's `current_user.friends` yields it: at most one entry per Friend row; its members are given by `FriendsOfMembers` |
| Tables.FriendsOfMembers | app/routes.py:26-30 | a name is on a user's friend list exactly when some Friend row owned by that user names it |
| Tables.RegisteredFriendsAreFound | app/routes.py:28-30 | while no Friend row names an unregistered user, every friend-list name can be looked up |
| Tables.AcceptIsOneSided | app/routes.py:176-183 | accepting appends the accepter to the sender's friend list and leaves the accepter's own friend list as it was |
| Tables.RequestRow | app/routes.py:132-133 | the stored request row is an open request waiting for the target, naming the sender as friend |
| Tables.IncomingOf | app/routes.py:144-149 | a user's incoming list, at most one entry per request row; its members are given by `IncomingOfMembers` |
| Tables.IncomingOfMembers | app/routes.py:144-149 | a name is listed as an incoming request for a user exactly when an open row owned by that user, with that user as requester, has that name as friend |
| Tables.SentRequestIsIncoming | app/routes.py:132-149 | the row stored for a request makes the sender appear, last, in the target's incoming list |
| Tables.ReverseRequestNotBlocked | app/routes.py:117-121 | for any request table, adding A's request to B makes a repeat from A count as already sent, and leaves B's check for a request to A as it was |
| Tables.WithoutRequests | app/routes.py:169-175 | the request table after resolving, never longer than before; the kept rows are given by `WithoutRequestsMembers` |
| Tables.WithoutRequestsMembers | app/routes.py:169-175 | resolving keeps exactly the rows that do not have this requester and this friend |
| Tables.ResolvedPairIsGone | app/routes.py:169-175 | after resolving, no row for the pair remains, so a new request is not blocked |
| Tables.WithoutRequestsIdempotent | app/routes.py:169-175 | resolving the same pair a second time deletes nothing more |
| Tables.ResolveClearsIncoming | app/routes.py:144-175 | after resolving, the user's incoming list is the old list without the resolved sender |
| Tables.FindEvent | app/routes.py:247 | the first event with the id (and, for edit, the owner), or none exactly when no event matches |
| Tables.Edited | app/routes.py:248-252 | an edited event keeps its id and owner and takes its five fields from the form |
| Tables.EventsOf | app/routes.py:200 | a user's event list, never longer than the table; its members are given by `EventsOfMembers` |
| Tables.EventsOfMembers | app/routes.py:200 | an event is on a user's event list exactly when it is in the table and owned by that user |
| Tables.EventsOfAppend | app/routes.py:219-222 | a new event goes last in its owner's list and in no one else's |
| Tables.OwnedLookup | app/routes.py:247 | with unique ids, the edit lookup finds the event with that id exactly when the current user owns it |
| Tables.RemoveAt | app/routes.py:270-271 | the table without the one deleted row: one row shorter, the rows before it in place, the rows after it moved up by one |
| Tables.DeleteRemovesOnlyThatId | app/routes.py:270-272 | with unique ids, deleting the row found by id leaves exactly the events with other ids |
| Tables.DeleteKeepsIdsUnique | app/routes.py:270-272 | deleting one event keeps the remaining ids unique and below the next id |
| Tables.AppendFreshKeepsIdsUnique | app/routes.py:219-222 | an event created under an id above every id in use matches no existing event and keeps ids unique |
| Routes.NextPage | app/routes.py:53-57 | after login the user goes to `next` only when it is present, non-empty and has no network location, as the URL parser reports it, otherwise to the home page |
| Routes.Store.Index | app/routes.py:17-31 | the page shows the user's own status and, for each of the user's friends in order, that friend's current status; it fails exactly when a friend's name matches no user |
| Routes.Store.IsFriend | app/routes.py:109-115 | the scan is true exactly when the target is on the user's friend list |
| Routes.Store.RequestSent | app/routes.py:117-121 | the scan is true exactly when a row has the target as requester and the user as friend |
| Routes.Store.SendFriendRequest | app/routes.py:101-141 | rejected as an invalid username exactly when the target is unknown or is the user; rejected as already friends or already sent when those checks hold; otherwise exactly one open row owned by the target is appended; no other table changes |
| Routes.Store.IncomingRequests | app/routes.py:143-151 | returns the user's open incoming requests, in table order |
| Routes.Store.UpdateFriendRequest | app/routes.py:161-187 | deletes every row with the user as requester and the sender as friend, whatever the decision; "accept" adds exactly one Friend row owned by the sender, or fails if the sender is unknown; other decisions add none; no Friend row that names an unregistered user is introduced |
| Routes.Store.ViewEvents | app/routes.py:197-201 | returns the user's event list; an event is on it exactly when it is in the table and the user owns it |
| Routes.Store.CreateEvent | app/routes.py:211-225 | appends exactly one event, carrying the five form fields and owned by the user, under an id no event had; nothing else changes |
| Routes.Store.EditEvent | app/routes.py:238-255 | overwrites the five fields of the user's event with that id; fails without writing when the user has no such event; no event owned by someone else changes |
| Routes.Store.DeleteEvent | app/routes.py:268-274 | removes the event with that id whoever owns it, keeping every other event; fails without writing when no event has the id |
| Routes.Store.CreateSchedule | app/routes.py:284-292 | returns the schedule stored on the user's own row, which is empty when the user never saved one |
| Routes.Store.UpdateSchedule | app/routes.py:302-310 | the user's schedule becomes the payload and nothing else in the store changes |
| Routes.Store.GetSchedule | app/routes.py:322-326 | returns the saved schedule of the named user, and fails exactly when no user has that name or that user never saved a schedule |
| Routes.Store.UpdateStatus | app/routes.py:336-342 | the user's status becomes its negation and nothing else changes |

## Left out

- Page rendering, flashed message texts, redirect targets and debug printing are left out. A `Reply` records only which kind of outcome a handler reaches.
- Sessions are left out: the login manager, `login_user`, `logout_user`, the landing page and the password check in `login`. The signed-in user is the `Session` argument. Of `login`, only the choice of post-login redirect is modelled (`NextPage`). The URL's network location is taken as an input there, because it comes from the URL parser.
- `register` is left out. Password hashing and the form's uniqueness validators live in files that are not part of this model. `Store`'s constructor stands in: it takes the registered accounts. `register` sets no schedule, so an account may start with none (`None`); whether `app/models.py` gives the column a default is not part of this model, and the model allows both.
- Form validation and date/time formatting are left out. Handlers receive the already formatted strings (`EventForm`). For `createEvent` and `editEvent`, the branch taken when the form does not validate only renders a page and is not modelled. For `friends`, that branch lists incoming requests (`IncomingRequests`). For `createSchedule` it is the other way round: the validating branch (app/routes.py:287-289) only flashes and redirects and is not modelled, and `CreateSchedule` models the branch that reads the stored schedule.
- Decoding the JSON request bodies is left out. The accept/decline body is stringified and split on `-`, and the schedule body is stringified. Handlers receive the split `(sender, decision)` pair and the schedule string. This means a username containing `-` is not modelled.
- The GET branches of `updateFriendRequest` and `updateSchedule` are not modelled. They redirect without reading or writing.
- Commits, transactions, concurrent requests and the database engine are left out. Each handler is one step of the model. `updateFriendRequest` commits after each deletion, so a failure part way leaves the earlier deletions in place; the model keeps them when the accept lookup fails, and no other failure can occur in that loop. The id a new event receives comes from the counter `nextId`, not from the engine's autoincrement.
- Routes.Store.UpdateFriendRequest: the model assumes the Friend object built at app/routes.py:177 is never saved. Whether the ORM would save it anyway, through a relationship cascade, depends on `app/models.py` and the ORM version. `app/models.py` is not part of this model.
- `app/test_main.py` only checks that model constructors store their arguments and that the password hash differs from the password. Both concern `app/models.py`, which is not part of this model.
