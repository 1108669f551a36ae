/** The read-only view actions: `GameView.retrieve/list` and `EventView.retrieve/list`, each a
    function of the database and the request. A listing is a map from id to annotated row: the
    querysets carry no ordering, so only the set of rows and their values are determined. */
module Queries {
  import opened Basics
  import opened Models
  import opened Aggregates
  import opened Cascade

  /** A game annotated with `event_count` and `user_event_count`. */
  datatype GameView = GameView(game: Game, eventCount: nat, userEventCount: nat)

  /** An event annotated with `attendees_count` and, in the listing, `joined`
      (`None` where the view does not annotate it). */
  datatype EventView = EventView(event: Event, attendeesCount: nat, joined: Option<nat>)

  /** How the `game` query parameter of the event listing reads: absent, a string `int()`
      accepts, or one it rejects with ValueError. */
  datatype GameFilter = NoFilter | Parsed(id: int) | Unparsable

  function AnnotateGame(db: Db, pk: GameId, gamer: GamerId): GameView
    requires pk in db.games
  {
    GameView(db.games[pk], EventCount(db.events, pk), UserEventCount(db.events, pk, gamer))
  }

  /** `GameView.retrieve`. The gamer lookup of the requesting user sits outside the try block, so
      a user without a profile gets a server error; an unknown id is answered NotFound. */
  function RetrieveGame(db: Db, user: UserId, pk: GameId): (r: Outcome<GameView>)
    requires OneGamerPerUser(db.gamers)
    ensures GamerOf(db.gamers, user).None? ==> r == ServerError
    ensures GamerOf(db.gamers, user).Some? ==> (r.NotFound? <==> pk !in db.games)
    ensures GamerOf(db.gamers, user).Some? && pk in db.games ==> r.Ok?
    ensures r.Ok? ==>
      && r.value.game == db.games[pk]
      && r.value.eventCount == |set e | e in db.events && db.events[e].game == pk|
      && r.value.userEventCount ==
           |set e | e in db.events && db.events[e].game == pk
                    && db.events[e].host == GamerOf(db.gamers, user).value|
      && r.value.userEventCount <= r.value.eventCount
  {
    match GamerOf(db.gamers, user)
    case None => ServerError
    case Some(gamer) =>
      if pk !in db.games then NotFound
      else
        Ok(AnnotateGame(db, pk, gamer))
  }

  /** `GameView.list`, `typeParam` being the `type` query parameter. When it is present the view
      filters a `games` variable it has not assigned yet (UnboundLocalError, a server error);
      when it is absent every game is listed, unfiltered, with the counts for the requester. */
  function ListGames(db: Db, user: UserId, typeParam: Option<string>): (r: Outcome<map<GameId, GameView>>)
    requires OneGamerPerUser(db.gamers)
    ensures typeParam.Some? ==> r == ServerError
    ensures typeParam.None? ==> (r.Ok? <==> GamerOf(db.gamers, user).Some?)
    ensures typeParam.None? && GamerOf(db.gamers, user).None? ==> r == ServerError
    ensures r.Ok? ==> r.value.Keys == db.games.Keys
    ensures r.Ok? ==> forall pk :: pk in r.value ==> RetrieveGame(db, user, pk) == Ok(r.value[pk])
  {
    if typeParam.Some? then ServerError
    else
      match GamerOf(db.gamers, user)
      case None => ServerError
      case Some(gamer) =>
        Ok(map pk | pk in db.games :: AnnotateGame(db, pk, gamer))
  }

  /** `EventView.retrieve`: the event with the number of its EventGamer rows, or NotFound. */
  function RetrieveEvent(db: Db, pk: EventId): (r: Outcome<EventView>)
    ensures r.Ok? || r.NotFound?
    ensures r.NotFound? <==> pk !in db.events
    ensures r.Ok? ==>
      && r.value.event == db.events[pk]
      && r.value.attendeesCount == |set p | p in db.attendance && p.event == pk|
      && r.value.joined == None
  {
    if pk !in db.events then NotFound
    else Ok(EventView(db.events[pk], AttendeesCount(db.attendance, pk), None))
  }

  /** `EventView.list`. A `game` parameter is parsed (a non-integer raises ValueError) and the
      filtered queryset is then discarded: every event is listed. A user without a gamer
      profile gets a server error. Each event carries its attendee count and `joined`, the
      number of the requester's attendance rows for it. */
  function ListEvents(db: Db, user: UserId, game: GameFilter): (r: Outcome<map<EventId, EventView>>)
    requires OneGamerPerUser(db.gamers)
    ensures game.Unparsable? ==> r == ServerError
    ensures !game.Unparsable? ==> (r.Ok? <==> GamerOf(db.gamers, user).Some?)
    ensures !game.Unparsable? && GamerOf(db.gamers, user).None? ==> r == ServerError
    ensures r.Ok? ==> r.value.Keys == db.events.Keys
    ensures r.Ok? ==> forall pk :: pk in r.value ==>
      && r.value[pk].event == db.events[pk]
      && r.value[pk].attendeesCount == AttendeesCount(db.attendance, pk)
      && r.value[pk].joined.Some?
      && (r.value[pk].joined.value == 1 <==>
            EventGamer(pk, GamerOf(db.gamers, user).value) in db.attendance)
      && (r.value[pk].joined.value == 0 <==>
            EventGamer(pk, GamerOf(db.gamers, user).value) !in db.attendance)
      && r.value[pk].joined.value <= r.value[pk].attendeesCount
  {
    if game.Unparsable? then ServerError
    else
      match GamerOf(db.gamers, user)
      case None => ServerError
      case Some(gamer) =>
        assert forall pk :: Joined(db.attendance, pk, gamer) <= AttendeesCount(db.attendance, pk) by {
          forall pk { JoinedAtMostAttendeesCount(db.attendance, pk, gamer); }
        }
        Ok(map pk | pk in db.events ::
             EventView(db.events[pk], AttendeesCount(db.attendance, pk),
                       Some(Joined(db.attendance, pk, gamer))))
  }

  /** The listing does not depend on which game id is asked for. */
  lemma ListEventsIgnoresGameFilter(db: Db, user: UserId, id: int)
    requires OneGamerPerUser(db.gamers)
    ensures ListEvents(db, user, Parsed(id)) == ListEvents(db, user, NoFilter)
  {
  }

  /** A listed event agrees with what retrieving it gives, apart from the `joined` annotation. */
  lemma ListedEventMatchesRetrieve(db: Db, user: UserId, game: GameFilter, pk: EventId)
    requires OneGamerPerUser(db.gamers)
    requires ListEvents(db, user, game).Ok? && pk in ListEvents(db, user, game).value
    ensures RetrieveEvent(db, pk) == Ok(ListEvents(db, user, game).value[pk].(joined := None))
  {
  }

  /** Once an event is destroyed, retrieving it answers NotFound. */
  lemma RetrieveAfterDestroyEvent(db: Db, pk: EventId)
    ensures RetrieveEvent(DeleteEvent(db, pk), pk) == NotFound
  {
  }

  /** Once a game is destroyed, retrieving it answers NotFound to a requester with a gamer
      profile (one without gets the server error of any game retrieve). */
  lemma RetrieveAfterDestroyGame(db: Db, user: UserId, pk: GameId)
    requires Integrity(db)
    requires GamerOf(db.gamers, user).Some?
    ensures RetrieveGame(DeleteGame(db, pk), user, pk) == NotFound
  {
    DeleteGameCascades(db, pk);
  }

  /** Once a game is destroyed, retrieving any of its former events answers NotFound; event
      retrieve needs no requester profile, and this holds of every database. */
  lemma RetrieveEventsAfterDestroyGame(db: Db, pk: GameId)
    ensures forall e :: e in db.events && db.events[e].game == pk ==>
              RetrieveEvent(DeleteGame(db, pk), e) == NotFound
  {
  }
}
