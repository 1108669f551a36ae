# Level-up backend: a verified model of its data rules

Level-up is a small event-RSVP backend. Gamers host events for games from a catalog, and
other gamers sign up for those events. This project models the part of it that has rules:

- the database of users, gamer profiles, game types, games, events and EventGamer
  attendance rows, with the delete cascades the models declare;
- the view actions that change it: game create, update and destroy, and event create,
  update, destroy, signup and leave;
- the read views and the counts they annotate: `event_count` and `user_event_count` per
  game, `attendees_count` and `joined` per event;
- the grouping loop of the events-by-user report.

Layout:

- `basics.dfy` (`Basics`): `Option` and `Outcome`. `Outcome` is `Ok`, `NotFound`,
  `BadRequest` or `ServerError`; `ServerError` stands for an exception the view does not
  catch.
- `models.dfy` (`Models`): the records and the `Integrity` predicate (no orphaned foreign
  key, one gamer per user, bounded character fields). Also `GamerOf`, the lookup of the
  requesting user's gamer profile; `FullName`; and the `joined` property of a loaded Event.
- `aggregates.dfy` (`Aggregates`): the counts, and what signup and leave do to them.
- `cascade.dfy` (`Cascade`): each delete as a function from the database before to the
  database after, with lemmas that cascades remove exactly the dependent rows and never
  leave an orphan.
- `queries.dfy` (`Queries`): game and event retrieve and list, as functions of the database
  and the request.
- `store.dfy` (`Api.Store`): a class whose fields are the tables. Its methods are the
  mutating view actions. Each one says which outcome it answers for which input, and what
  every table holds afterwards. Every method keeps `Valid()`.
- `events_by_user.dfy` (`EventsByUser`): the report loop over a sequence of rows, proved
  against a declarative description of the report.

The requester is the authenticated user's id. Resolving it to a gamer profile is
`Gamer.objects.get(user=...)`, modelled by `GamerOf`.

The model reproduces these behaviours of the code, marked in comments:

- `GameView.list` with a `type` parameter filters a variable it has not assigned yet.
  That request is a server error, and without the parameter every game is listed.
- `EventView.list` computes a `game` filter and then throws it away. Every event is always
  listed; only a `game` value that `int()` rejects changes anything (it is a server error).
- `GameType.objects.get` raises for an unknown game type. The `is None` check after it
  never answers 400, so an unknown game type is a server error.
- Neither create nor update of a game checks `min_player <= max_player`.
- Event update checks no requester, and it keeps the host.
- Retrieving a game needs the requester to have a gamer profile. Retrieving an event does
  not.

Where the code shows an intent it does not carry out, the model follows what the code does.
The game views check for a missing game type with a 400 answer
(`levelupapi/views/game_view.py:67-68`), but the lookup before that check raises first, so
an unknown game type is `ServerError`. Game listing tries a game-type filter
(`levelupapi/views/game_view.py:41-43`), but it filters a variable not yet assigned, which
raises, so no filtered listing exists. Lookups by primary key that sit outside any `try` (event update, destroy, signup and
leave; game update and destroy) raise for an unknown id, so the model answers `ServerError`
for them.

## Model

| member | source | states |
|---|---|---|
| `Models.FullName` | levelupapi/models/gamer.py:12-14 | the full name is the user's first name, one space, then the last name |
| `Models.GamerOf` | levelupapi/models/gamer.py:8 | under the one-to-one user link, the requester's gamer is the unique profile of that user, or none when the user has no profile |
| `Models.EventInstance.SetJoined` | levelupapi/models/event.py:17-19 | the `joined` setter stores the value in the instance's private slot |
| `Models.EventInstance.GetJoined` | levelupapi/models/event.py:13-15 | the `joined` getter returns the value most recently set, or nothing (AttributeError) if none was set |
| `Aggregates.Attendees` | levelupapi/models/event.py:11 | a gamer attends an event exactly when an EventGamer row pairs them |
| `Aggregates.Joined` | levelupapi/views/event_view.py:50-53 | `joined` is 1 when the requester attends the event and 0 otherwise |
| `Aggregates.JoinedAtMostAttendeesCount` | levelupapi/views/event_view.py:48-54 | `joined` never exceeds `attendees_count` |
| `Aggregates.AttendeesCount` | levelupapi/views/event_view.py:23 | `attendees_count` equals the number of the event's EventGamer rows (what retrieve counts), which is also the number of its attendees (what the listing at event_view.py:48-49 counts); it is 0 exactly when no row pairs a gamer with the event |
| `Aggregates.GameEventsPartition` | levelupapi/models/event.py:9 | every event is among the `game_events` of its own game; the `game_events` of two different games are disjoint, so their event counts add up to at most the number of events |
| `Aggregates.AddEventCounts` | levelupapi/views/event_view.py:77-83 | storing a new event raises `event_count` of its game and `user_event_count` of its game and host by one; the counts of every other game, and of every other host, stay as they were |
| `Cascade.DeleteGamerClearsUserEventCount` | levelupapi/models/event.py:10 | after a gamer is deleted its `user_event_count` is 0 for every game, since the events it hosted are gone |
| `Aggregates.EventCount` | levelupapi/views/game_view.py:26 | `event_count` never exceeds the number of events, and it is 0 exactly when no event is of the game |
| `Aggregates.UserEventCount` | levelupapi/views/game_view.py:27 | `user_event_count` <= `event_count` for every game and requester |
| `Aggregates.SignupEffect` | levelupapi/views/event_view.py:125-127 | after signup the gamer attends and `joined` is 1; the count rises by one exactly when the gamer was not attending; a second signup changes nothing; other events keep their attendees |
| `Aggregates.LeaveEffect` | levelupapi/views/event_view.py:134-136 | after leave the gamer does not attend; the count drops by one exactly when it did; leaving when not attending changes nothing; other events keep their attendees |
| `Cascade.DeleteEventCascades` | levelupapi/models/eventGamer.py:6 | `DeleteEvent` removes the event and exactly its attendance rows; every other event is kept unchanged, and games, gamers, users and game types are untouched; integrity holds |
| `Cascade.DeleteGameCascades` | levelupapi/models/event.py:9 | `DeleteGame` removes the game, exactly its events and, transitively, exactly those events' attendance rows; every other game and event is kept unchanged; its event count becomes 0; gamers, users and game types are untouched; integrity holds |
| `Cascade.DeleteGamerCascades` | levelupapi/models/event.py:10 | `DeleteGamer` removes the gamer, the events it hosts and the attendance rows of those events and of the gamer (EventGamer.gamer, eventGamer.py:7); every other gamer and event is kept unchanged, and games, users and game types are untouched; integrity holds |
| `Cascade.DeleteUserCascades` | levelupapi/models/gamer.py:8 | `DeleteUser` deletes the user and its gamer profile with that profile's cascade; afterwards the user resolves to no gamer; integrity holds |
| `Queries.RetrieveGame` | levelupapi/views/game_view.py:15-33 | a user without a profile gets a server error and an unknown id NotFound; otherwise the game with `event_count` = its number of events and `user_event_count` = those hosted by the requester, and `user_event_count` <= `event_count` |
| `Queries.ListGames` | levelupapi/views/game_view.py:35-53 | a `type` parameter is a server error; without it, a requester without a profile gets a server error, and otherwise every game is listed, each with the same value retrieve gives |
| `Queries.RetrieveEvent` | levelupapi/views/event_view.py:15-28 | NotFound exactly for an unknown id; otherwise the event with `attendees_count` = the number of its EventGamer rows |
| `Queries.ListEvents` | levelupapi/views/event_view.py:30-57 | an unparsable `game` parameter is a server error; otherwise a requester without a profile gets a server error, and for one with a profile every event is listed regardless of the parameter, with its attendee count and `joined` (1 exactly when the requester attends), and `joined` <= `attendees_count` |
| `Queries.ListEventsIgnoresGameFilter` | levelupapi/views/event_view.py:38-48 | the listing for any `game` id equals the listing without one |
| `Queries.ListedEventMatchesRetrieve` | levelupapi/views/event_view.py:23-54 | a listed event carries the same event and attendee count as retrieving it |
| `Queries.RetrieveAfterDestroyEvent` | levelupapi/views/event_view.py:116-119 | retrieving an event after destroying it answers NotFound |
| `Queries.RetrieveAfterDestroyGame` | levelupapi/views/game_view.py:129-132 | after destroying a game, retrieving it answers NotFound to a requester with a profile |
| `Queries.RetrieveEventsAfterDestroyGame` | levelupapi/models/event.py:9 | after destroying a game, retrieving any of its former events answers NotFound, whoever asks |
| `Api.Store.CreateGame` | levelupapi/views/game_view.py:55-83 | no profile: NotFound; unknown game type: server error; no description: BadRequest; in each case the database is unchanged. The answer is Ok exactly when none of these applies; then one new game is stored, with a fresh id, the requester as owner and the other fields as given; nothing else changes; integrity is kept |
| `Api.Store.UpdateGame` | levelupapi/views/game_view.py:98-127 | same error cases as create, plus a server error for an unknown id, each leaving the database unchanged; Ok exactly when none applies, and then only game `pk` changes, to the given name, bounds, description and type, with the requester as owner |
| `Api.Store.DestroyGame` | levelupapi/views/game_view.py:129-132 | unknown id: server error, database unchanged; otherwise the database becomes `DeleteGame` of the old one |
| `Api.Store.CreateEvent` | levelupapi/views/event_view.py:59-86 | no profile or unknown game: NotFound; a location over 100 characters: server error; each leaves the database unchanged. Ok exactly when none applies, and then one new event with a fresh id, the given date, time, location and game, and the requester as host; it starts with 0 attendees and nothing else changes |
| `Api.Store.UpdateEvent` | levelupapi/views/event_view.py:88-114 | unknown game: NotFound; unknown event or a location over 100 characters: server error; each leaves the database unchanged. Ok exactly when none applies, and then only date, time, location and game of event `pk` change; host, attendance and all other rows stay |
| `Api.Store.DestroyEvent` | levelupapi/views/event_view.py:116-119 | unknown id: server error, database unchanged; otherwise the database becomes `DeleteEvent` of the old one |
| `Api.Store.Signup` | levelupapi/views/event_view.py:121-128 | Ok exactly when the requester has a profile and the event exists; then only the pair (event, requester) is added to the attendance and `joined` is 1; otherwise nothing changes |
| `Api.Store.Leave` | levelupapi/views/event_view.py:130-137 | Ok under the same condition; then only the pair (event, requester) is removed and `joined` is 0; otherwise nothing changes |
| `Api.Store.DeleteGamer` | levelupapi/models/eventGamer.py:7 | the database becomes `DeleteGamer` of the old one and keeps integrity |
| `Api.Store.DeleteUser` | levelupapi/models/gamer.py:8 | the database becomes `DeleteUser` of the old one; the user then has no gamer profile |
| `EventsByUser.FirstIndex` | levelupreports/views/users/eventsbyuser.py:69-74 | the index of the first row with a given gamer id: that row matches and no earlier row does |
| `EventsByUser.FindGroup` | levelupreports/views/users/eventsbyuser.py:60-63 | the inner search gives the last group with the row's gamer id, or none exactly when no group has it |
| `EventsByUser.AppendStep` | levelupreports/views/users/eventsbyuser.py:65-67 | appending a row's record to its gamer's existing group keeps the report right for one more row |
| `EventsByUser.OpenStep` | levelupreports/views/users/eventsbyuser.py:68-74 | a row whose gamer has no group is that gamer's first row; opening a group named after it keeps the report right for one more row |
| `EventsByUser.AddRow` | levelupreports/views/users/eventsbyuser.py:52-74 | one pass of the loop body extends the report by one row and its event total by one |
| `EventsByUser.GroupByGamer` | levelupreports/views/users/eventsbyuser.py:50-74 | gamer ids of groups are pairwise distinct and are exactly the rows' ids; groups come in first-appearance order; each group has its first row's full name; each group's events are (event_id, date, time, game_name) of its rows in row order; the total number of events equals the number of rows |

## Left out

- HTTP plumbing (responses, status codes, routing, query-parameter parsing), serializers and
  token authentication are not modelled. The requester is the authenticated user's id and
  the answer is an `Outcome`.
- Game types are only read: their view is not part of this model. Creating users, gamer
  profiles and game types is not a core action either, so the `Api.Store` constructor takes
  them as initial data.
- A request body that lacks a key the view indexes (a KeyError) is not modelled. Every field
  is taken as sent, except the description, which the game views read with a default.
- `Queries.ListEvents`: the `game` parameter is reduced to "absent, parsed by `int()`, or
  rejected by it". The exact strings Python's `int()` accepts are not modelled.
- `Queries.ListGames`, `Queries.ListEvents`: listings are maps keyed by id, because the
  querysets have no ordering. The order of the response array is not modelled.
- `Queries.RetrieveEvent`: the `joined` field is reported as not annotated. What the
  serializer emits for a property that was never set is not modelled.
- Location length: an event location over 100 characters is modelled as refused by the
  database at save (a server error). This matches a database that enforces `varchar(100)`,
  such as PostgreSQL; SQLite stores the longer value.
- `bio` length: no modelled action writes a bio, so the 600-character bound is an invariant
  of the initial data.
- The Game model's delete rule for its owner (`Game.gamer`) is not part of this model.
  `levelupapi/models/game.py` is not part of this model, so deleting a gamer leaves the
  games it owns untouched, and integrity does not require a game's owner to exist.
- Integer widths of the database columns (ids, player counts) are not modelled.
- Date and time values are opaque strings. Their normalisation by the database (for example
  "09:00" read back as "09:00:00") is not modelled.
- `Api.Store.CreateEvent`, `Api.Store.UpdateEvent`: a `date_of_event` or `start_time` that
  is not a valid date or time makes the DateField or TimeField raise at save, which the views
  do not catch (a server error). The model stores any string and answers Ok, because it does
  not model the date and time formats Django accepts.
- The raw SQL of the events-by-user report, the database cursor and the template rendering
  are not modelled. The report loop takes the query's rows as given. The query itself
  selects the game creator's id as `gamer_id` and uses the `gamer` alias before joining it.
- The schema migration that once made the event host a many-to-many field is superseded by
  the current Event model and is not modelled.
- Concurrent requests and the transactional atomicity of cascades are left to the database.
  Each action is modelled as one atomic step.
