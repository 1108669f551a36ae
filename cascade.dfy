/** The delete rules the models declare (`on_delete=CASCADE` on Event.game, Event.host,
    EventGamer.event, EventGamer.gamer and Gamer.user), as functions from the database before
    a delete to the database after it. */
module Cascade {
  import opened Basics
  import opened Models
  import opened Aggregates

  /** Remove the events `doomed` together with their attendance rows (EventGamer.event). */
  function DropEvents(db: Db, doomed: set<EventId>): Db {
    db.(events := db.events - doomed,
        attendance := set p | p in db.attendance && p.event !in doomed)
  }

  /** `event.delete()`. */
  function DeleteEvent(db: Db, e: EventId): Db {
    DropEvents(db, {e})
  }

  /** `game.delete()`: the game, every event of it (Event.game) and, through those events,
      their attendance rows. */
  function DeleteGame(db: Db, g: GameId): Db {
    DropEvents(db, EventsOfGame(db.events, g)).(games := db.games - {g})
  }

  /** The events hosted by any gamer in `hosts`. */
  function HostedBy(events: map<EventId, Event>, hosts: set<GamerId>): set<EventId> {
    set e | e in events && events[e].host in hosts
  }

  /** Deleting the gamers `doomed`: the events they host (Event.host) with those events'
      attendance, and every attendance row of theirs (EventGamer.gamer). */
  function DeleteGamers(db: Db, doomed: set<GamerId>): Db {
    var d := DropEvents(db, HostedBy(db.events, doomed));
    d.(gamers := db.gamers - doomed,
       attendance := set p | p in d.attendance && p.gamer !in doomed)
  }

  /** `gamer.delete()`. */
  function DeleteGamer(db: Db, g: GamerId): Db {
    DeleteGamers(db, {g})
  }

  /** The gamer profiles of user `u` (at most one under Integrity). */
  function ProfilesOf(gamers: map<GamerId, Gamer>, u: UserId): set<GamerId> {
    set g | g in gamers && gamers[g].user == u
  }

  /** `user.delete()`: the user and, through Gamer.user, its gamer profile. */
  function DeleteUser(db: Db, u: UserId): Db {
    DeleteGamers(db, ProfilesOf(db.gamers, u)).(users := db.users - {u})
  }

  /** Deleting an event removes it and exactly its attendance rows, keeps every other event
      as it was, and leaves no orphaned row. */
  lemma DeleteEventCascades(db: Db, e: EventId)
    requires Integrity(db)
    ensures var r := DeleteEvent(db, e);
      && Integrity(r)
      && r.events.Keys == db.events.Keys - {e}
      && (forall x :: x in r.events ==> r.events[x] == db.events[x])
      && (forall p :: p in r.attendance <==> p in db.attendance && p.event != e)
      && r.games == db.games && r.gamers == db.gamers && r.users == db.users
      && r.gameTypes == db.gameTypes
  {
    var r := DeleteEvent(db, e);
    assert r.events.Keys == db.events.Keys - {e};
  }

  /** Deleting a game removes every event of it and, transitively, every attendance row of
      those events; events of other games and their rows stay, and nothing is orphaned. */
  lemma DeleteGameCascades(db: Db, g: GameId)
    requires Integrity(db)
    ensures var r := DeleteGame(db, g);
      && Integrity(r)
      && r.games.Keys == db.games.Keys - {g}
      && (forall x :: x in r.games ==> r.games[x] == db.games[x])
      && EventCount(r.events, g) == 0
      && (forall e :: e in r.events <==> e in db.events && db.events[e].game != g)
      && (forall e :: e in r.events ==> r.events[e] == db.events[e])
      && (forall p :: p in r.attendance <==>
            p in db.attendance && db.events[p.event].game != g)
      && r.gamers == db.gamers && r.users == db.users && r.gameTypes == db.gameTypes
  {
    var r := DeleteGame(db, g);
    assert EventsOfGame(r.events, g) == {};
    forall p | p in r.attendance
      ensures p.event in r.events && p.gamer in r.gamers
    {
    }
  }

  /** Deleting a gamer removes the events it hosts (with their attendance rows) and every
      attendance row of its own; everything else stays, and nothing is orphaned. */
  lemma DeleteGamerCascades(db: Db, g: GamerId)
    requires Integrity(db)
    ensures var r := DeleteGamer(db, g);
      && Integrity(r)
      && r.gamers.Keys == db.gamers.Keys - {g}
      && (forall x :: x in r.gamers ==> r.gamers[x] == db.gamers[x])
      && (forall e :: e in r.events <==> e in db.events && db.events[e].host != g)
      && (forall e :: e in r.events ==> r.events[e] == db.events[e])
      && (forall p :: p in r.attendance <==>
            p in db.attendance && p.gamer != g && db.events[p.event].host != g)
      && r.games == db.games && r.users == db.users && r.gameTypes == db.gameTypes
  {
    DeleteGamersKeepIntegrity(db, {g});
  }

  /** After a gamer is deleted, no game counts an event hosted by it: its `user_event_count`
      is 0 for every game. */
  lemma DeleteGamerClearsUserEventCount(db: Db, h: GamerId, g: GameId)
    ensures UserEventCount(DeleteGamer(db, h).events, g, h) == 0
  {
  }

  lemma DeleteGamersKeepIntegrity(db: Db, doomed: set<GamerId>)
    requires Integrity(db)
    ensures Integrity(DeleteGamers(db, doomed))
  {
    var r := DeleteGamers(db, doomed);
    assert forall g1, g2 :: g1 in r.gamers && g2 in r.gamers ==> g1 in db.gamers && g2 in db.gamers;
    forall p | p in r.attendance
      ensures p.event in r.events && p.gamer in r.gamers
    {
    }
  }

  /** Deleting a user deletes its gamer profile with that profile's cascade; afterwards the
      user resolves to no gamer and nothing is orphaned. */
  lemma DeleteUserCascades(db: Db, u: UserId)
    requires Integrity(db)
    ensures var r := DeleteUser(db, u);
      && Integrity(r)
      && r.users.Keys == db.users.Keys - {u}
      && GamerOf(r.gamers, u) == None
      && (GamerOf(db.gamers, u).Some? ==>
            r == DeleteGamer(db, GamerOf(db.gamers, u).value).(users := db.users - {u}))
      && (GamerOf(db.gamers, u).None? ==> r == db.(users := db.users - {u}))
  {
    var doomed := ProfilesOf(db.gamers, u);
    DeleteGamersKeepIntegrity(db, doomed);
    var r := DeleteUser(db, u);
    match GamerOf(db.gamers, u)
    case Some(g) =>
      forall x | x in doomed
        ensures x == g
      {
        assert db.gamers[x].user == db.gamers[g].user;
      }
      assert doomed == {g};
    case None =>
      assert doomed == {};
      assert HostedBy(db.events, doomed) == {};
      assert db.events - {} == db.events;
      assert (set p | p in db.attendance && p.event !in {}) == db.attendance;
      assert (set p | p in db.attendance && p.gamer !in doomed) == db.attendance;
      assert db.gamers - doomed == db.gamers;
  }
}
