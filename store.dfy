/** The database as the views change it: `GameView.create/update/destroy`,
    `EventView.create/update/destroy/signup/leave`, and the model-level deletes of a gamer and
    of a user. Each action returns its outcome and says exactly what the database holds after. */
module Api {
  import opened Basics
  import opened Models
  import opened Aggregates
  import opened Cascade

  class Store {
    var users: map<UserId, User>
    var gamers: map<GamerId, Gamer>
    var gameTypes: map<GameTypeId, string>
    var games: map<GameId, Game>
    var events: map<EventId, Event>
    var attendance: set<EventGamer>
    /** The next primary keys the database hands out; every existing key is below them. */
    var nextGameId: GameId
    var nextEventId: EventId

    function Snapshot(): Db
      reads this
    {
      Db(users, gamers, gameTypes, games, events, attendance)
    }

    ghost predicate Valid()
      reads this
    {
      && Integrity(Snapshot())
      && (forall id :: id in games ==> id < nextGameId)
      && (forall id :: id in events ==> id < nextEventId)
    }

    /** A database holding accounts, gamer profiles and game types, and no games or events. */
    constructor (users: map<UserId, User>, gamers: map<GamerId, Gamer>, gameTypes: map<GameTypeId, string>)
      requires Integrity(Db(users, gamers, gameTypes, map[], map[], {}))
      ensures Valid()
      ensures Snapshot() == Db(users, gamers, gameTypes, map[], map[], {})
    {
      this.users := users;
      this.gamers := gamers;
      this.gameTypes := gameTypes;
      games := map[];
      events := map[];
      attendance := {};
      nextGameId := 1;
      nextEventId := 1;
    }

    /** Replace every table by those of `db`, which must keep integrity and the id bounds. */
    method Commit(db: Db)
      requires Integrity(db)
      requires forall id :: id in db.games ==> id < nextGameId
      requires forall id :: id in db.events ==> id < nextEventId
      modifies this
      ensures Valid()
      ensures Snapshot() == db
      ensures nextGameId == old(nextGameId) && nextEventId == old(nextEventId)
    {
      users, gamers, gameTypes := db.users, db.gamers, db.gameTypes;
      games, events, attendance := db.games, db.events, db.attendance;
    }

    /** `GameView.create`. A user without a gamer profile gets NotFound; an unknown game type
        raises `GameType.DoesNotExist` (the `is None` check after `get` never fires); a missing
        description is a BadRequest. Otherwise a new game owned by the requester is stored, with
        no check that `minPlayer <= maxPlayer`. */
    method CreateGame(user: UserId, name: string, minPlayer: int, maxPlayer: int,
                      description: Option<string>, gameType: GameTypeId)
      returns (r: Outcome<GameId>)
      requires Valid()
      modifies this
      ensures Valid()
      ensures GamerOf(old(gamers), user).None? ==> r == NotFound
      ensures GamerOf(old(gamers), user).Some? && gameType !in old(gameTypes) ==> r == ServerError
      ensures GamerOf(old(gamers), user).Some? && gameType in old(gameTypes) && description.None? ==>
                r == BadRequest
      ensures r.Ok? <==> GamerOf(old(gamers), user).Some? && gameType in old(gameTypes) && description.Some?
      ensures !r.Ok? ==> Snapshot() == old(Snapshot())
      ensures r.Ok? ==>
        && r.value !in old(games)
        && Snapshot() == old(Snapshot()).(games := old(games)[r.value :=
             Game(name, description.value, minPlayer, maxPlayer, GamerOf(old(gamers), user).value, gameType)])
    {
      var gamer := GamerOf(gamers, user);
      if gamer.None? {
        return NotFound;
      }
      if gameType !in gameTypes {
        // GameType.objects.get raised; the `game_type is None` branch is unreachable.
        return ServerError;
      }
      if description.None? {
        return BadRequest;
      }
      var id := nextGameId;
      games := games[id := Game(name, description.value, minPlayer, maxPlayer, gamer.value, gameType)];
      nextGameId := nextGameId + 1;
      r := Ok(id);
    }

    /** `GameView.update`: the same checks as create, then `Game.objects.get(pk)` (an unknown id
        raises), then name, player bounds, description, owner (now the requester) and game type
        of game `pk` are overwritten. Events, attendance and every other game are unchanged. */
    method UpdateGame(user: UserId, pk: GameId, name: string, minPlayer: int, maxPlayer: int,
                      description: Option<string>, gameType: GameTypeId)
      returns (r: Outcome<()>)
      requires Valid()
      modifies this
      ensures Valid()
      ensures GamerOf(old(gamers), user).None? ==> r == NotFound
      ensures GamerOf(old(gamers), user).Some? && gameType !in old(gameTypes) ==> r == ServerError
      ensures GamerOf(old(gamers), user).Some? && gameType in old(gameTypes) && description.None? ==>
                r == BadRequest
      ensures (GamerOf(old(gamers), user).Some? && gameType in old(gameTypes) && description.Some? &&
               pk !in old(games)) ==> r == ServerError
      ensures r.Ok? <==>
        GamerOf(old(gamers), user).Some? && gameType in old(gameTypes) && description.Some? && pk in old(games)
      ensures !r.Ok? ==> Snapshot() == old(Snapshot())
      ensures r.Ok? ==>
        && Snapshot() == old(Snapshot()).(games := old(games)[pk :=
             Game(name, description.value, minPlayer, maxPlayer, GamerOf(old(gamers), user).value, gameType)])
    {
      var gamer := GamerOf(gamers, user);
      if gamer.None? {
        return NotFound;
      }
      if gameType !in gameTypes {
        // As in create: the lookup raised before the `is None` check.
        return ServerError;
      }
      if description.None? {
        return BadRequest;
      }
      if pk !in games {
        return ServerError;
      }
      var game := games[pk];
      game := game.(name := name, minPlayer := minPlayer, description := description.value);
      game := game.(maxPlayer := maxPlayer, owner := gamer.value, gameType := gameType);
      games := games[pk := game];
      r := Ok(());
    }

    /** `GameView.destroy`: an unknown id raises; otherwise the game goes with its events and
        their attendance rows. */
    method DestroyGame(pk: GameId) returns (r: Outcome<()>)
      requires Valid()
      modifies this
      ensures Valid()
      ensures r.Ok? <==> pk in old(games)
      ensures !r.Ok? ==> r == ServerError && Snapshot() == old(Snapshot())
      ensures r.Ok? ==> Snapshot() == DeleteGame(old(Snapshot()), pk)
    {
      if pk !in games {
        return ServerError;
      }
      DeleteGameCascades(Snapshot(), pk);
      Commit(DeleteGame(Snapshot(), pk));
      r := Ok(());
    }

    /** `EventView.create`. A user without a gamer profile gets NotFound ("invalid token"), an
        unknown game NotFound ("invalid game ID"); a location longer than the column allows is
        refused by the database. Otherwise a new event hosted by the requester is stored. */
    method CreateEvent(user: UserId, dateOfEvent: string, startTime: string, location: string, game: GameId)
      returns (r: Outcome<EventId>)
      requires Valid()
      modifies this
      ensures Valid()
      ensures GamerOf(old(gamers), user).None? ==> r == NotFound
      ensures GamerOf(old(gamers), user).Some? && game !in old(games) ==> r == NotFound
      ensures GamerOf(old(gamers), user).Some? && game in old(games) && |location| > MaxLocationLength ==>
                r == ServerError
      ensures r.Ok? <==> GamerOf(old(gamers), user).Some? && game in old(games) && |location| <= MaxLocationLength
      ensures !r.Ok? ==> Snapshot() == old(Snapshot())
      ensures r.Ok? ==>
        && r.value !in old(events)
        && Snapshot() == old(Snapshot()).(events := old(events)[r.value :=
             Event(dateOfEvent, startTime, location, game, GamerOf(old(gamers), user).value)])
        && AttendeesCount(attendance, r.value) == 0
    {
      var host := GamerOf(gamers, user);
      if host.None? {
        return NotFound;
      }
      if game !in games {
        return NotFound;
      }
      if |location| > MaxLocationLength {
        return ServerError;
      }
      var id := nextEventId;
      assert Attendees(attendance, id) == {};
      events := events[id := Event(dateOfEvent, startTime, location, game, host.value)];
      nextEventId := nextEventId + 1;
      r := Ok(id);
    }

    /** `EventView.update`. There is no requester check (it is commented out). An unknown game
        is NotFound; an unknown event id raises; a too long location is refused by the database.
        Otherwise date, start time, location and game of event `pk` are overwritten; its host,
        the attendance rows and every other event are unchanged. */
    method UpdateEvent(pk: EventId, dateOfEvent: string, startTime: string, location: string, game: GameId)
      returns (r: Outcome<()>)
      requires Valid()
      modifies this
      ensures Valid()
      ensures game !in old(games) ==> r == NotFound
      ensures game in old(games) && pk !in old(events) ==> r == ServerError
      ensures game in old(games) && pk in old(events) && |location| > MaxLocationLength ==> r == ServerError
      ensures r.Ok? <==> game in old(games) && pk in old(events) && |location| <= MaxLocationLength
      ensures !r.Ok? ==> Snapshot() == old(Snapshot())
      ensures r.Ok? ==>
        && Snapshot() == old(Snapshot()).(events := old(events)[pk :=
             Event(dateOfEvent, startTime, location, game, old(events)[pk].host)])
    {
      if game !in games {
        return NotFound;
      }
      if pk !in events {
        return ServerError;
      }
      if |location| > MaxLocationLength {
        return ServerError;
      }
      var event := events[pk];
      event := event.(dateOfEvent := dateOfEvent, startTime := startTime);
      event := event.(location := location, game := game);
      events := events[pk := event];
      r := Ok(());
    }

    /** `EventView.destroy`: an unknown id raises; otherwise the event goes with its attendance. */
    method DestroyEvent(pk: EventId) returns (r: Outcome<()>)
      requires Valid()
      modifies this
      ensures Valid()
      ensures r.Ok? <==> pk in old(events)
      ensures !r.Ok? ==> r == ServerError && Snapshot() == old(Snapshot())
      ensures r.Ok? ==> Snapshot() == DeleteEvent(old(Snapshot()), pk)
    {
      if pk !in events {
        return ServerError;
      }
      DeleteEventCascades(Snapshot(), pk);
      Commit(DeleteEvent(Snapshot(), pk));
      r := Ok(());
    }

    /** `EventView.signup`: both lookups raise when they fail (no gamer profile, unknown event);
        otherwise the pair (event, requester) is added to the attendance, once. */
    method Signup(user: UserId, pk: EventId) returns (r: Outcome<()>)
      requires Valid()
      modifies this
      ensures Valid()
      ensures r.Ok? <==> GamerOf(old(gamers), user).Some? && pk in old(events)
      ensures !r.Ok? ==> r == ServerError && Snapshot() == old(Snapshot())
      ensures r.Ok? ==>
        && Snapshot() == old(Snapshot()).(attendance :=
             old(attendance) + {EventGamer(pk, GamerOf(old(gamers), user).value)})
        && Joined(attendance, pk, GamerOf(old(gamers), user).value) == 1
    {
      var gamer := GamerOf(gamers, user);
      if gamer.None? {
        return ServerError;
      }
      if pk !in events {
        return ServerError;
      }
      attendance := attendance + {EventGamer(pk, gamer.value)};
      r := Ok(());
    }

    /** `EventView.leave`: the same lookups as signup; then the pair (event, requester) is
        removed, which does nothing when the requester was not attending. */
    method Leave(user: UserId, pk: EventId) returns (r: Outcome<()>)
      requires Valid()
      modifies this
      ensures Valid()
      ensures r.Ok? <==> GamerOf(old(gamers), user).Some? && pk in old(events)
      ensures !r.Ok? ==> r == ServerError && Snapshot() == old(Snapshot())
      ensures r.Ok? ==>
        && Snapshot() == old(Snapshot()).(attendance :=
             old(attendance) - {EventGamer(pk, GamerOf(old(gamers), user).value)})
        && Joined(attendance, pk, GamerOf(old(gamers), user).value) == 0
    {
      var gamer := GamerOf(gamers, user);
      if gamer.None? {
        return ServerError;
      }
      if pk !in events {
        return ServerError;
      }
      attendance := attendance - {EventGamer(pk, gamer.value)};
      r := Ok(());
    }

    /** Deleting a gamer profile, with the cascades declared on Event.host and EventGamer.gamer. */
    method DeleteGamer(g: GamerId)
      requires Valid()
      modifies this
      ensures Valid()
      ensures Snapshot() == Cascade.DeleteGamer(old(Snapshot()), g)
    {
      DeleteGamerCascades(Snapshot(), g);
      Commit(Cascade.DeleteGamer(Snapshot(), g));
    }

    /** Deleting a user account, with the cascade declared on Gamer.user. */
    method DeleteUser(u: UserId)
      requires Valid()
      modifies this
      ensures Valid()
      ensures Snapshot() == Cascade.DeleteUser(old(Snapshot()), u)
      ensures GamerOf(gamers, u) == None
    {
      DeleteUserCascades(Snapshot(), u);
      Commit(Cascade.DeleteUser(Snapshot(), u));
    }
  }
}
