/** The records of the level-up database (users, gamers, game types, games, events and the
    EventGamer attendance rows) and the integrity their foreign keys declare. */
module Models {
  import opened Basics

  type UserId = int
  type GamerId = int
  type GameTypeId = int
  type GameId = int
  type EventId = int

  /** `Event.location` is a CharField with max_length 100. */
  const MaxLocationLength: nat := 100
  /** `Gamer.bio` is a CharField with max_length 600. */
  const MaxBioLength: nat := 600

  /** The part of Django's built-in user that the core reads. */
  datatype User = User(firstName: string, lastName: string)

  /** A player profile, bound one-to-one to a user. */
  datatype Gamer = Gamer(user: UserId, bio: string)

  /** A catalog game; `owner` is the Game's `gamer` foreign key. */
  datatype Game = Game(name: string, description: string, minPlayer: int, maxPlayer: int,
                       owner: GamerId, gameType: GameTypeId)

  /** A scheduled occurrence of a game. Dates and times are kept as the opaque values sent. */
  datatype Event = Event(dateOfEvent: string, startTime: string, location: string,
                         game: GameId, host: GamerId)

  /** One attendance row: `gamer` attends `event`. */
  datatype EventGamer = EventGamer(event: EventId, gamer: GamerId)

  /** The whole database. Attendance is a set: the views only write it through the related
      manager's add/remove, which never duplicates a pair. */
  datatype Db = Db(users: map<UserId, User>,
                   gamers: map<GamerId, Gamer>,
                   gameTypes: map<GameTypeId, string>,
                   games: map<GameId, Game>,
                   events: map<EventId, Event>,
                   attendance: set<EventGamer>)

  /** `Gamer.full_name`: the linked user's first name, a space, then the last name. */
  function FullName(u: User): (s: string)
    ensures |s| == |u.firstName| + 1 + |u.lastName|
    ensures s[..|u.firstName|] == u.firstName
    ensures s[|u.firstName|] == ' '
    ensures s[|u.firstName| + 1..] == u.lastName
  {
    u.firstName + " " + u.lastName
  }

  /** The one-to-one `Gamer.user` field: no user has two gamer profiles. */
  ghost predicate OneGamerPerUser(gamers: map<GamerId, Gamer>) {
    forall g1, g2 :: g1 in gamers && g2 in gamers && gamers[g1].user == gamers[g2].user ==> g1 == g2
  }

  /** `Gamer.objects.get(user=u)`: the profile of user `u`, or None when it has none
      (the lookup raises `Gamer.DoesNotExist`). */
  function GamerOf(gamers: map<GamerId, Gamer>, u: UserId): (r: Option<GamerId>)
    requires OneGamerPerUser(gamers)
    ensures r.Some? ==> r.value in gamers && gamers[r.value].user == u
    ensures r.None? ==> forall g :: g in gamers ==> gamers[g].user != u
  {
    if exists g :: g in gamers && gamers[g].user == u then
      var g :| g in gamers && gamers[g].user == u;
      Some(g)
    else
      None
  }

  /** The constraints the models declare: every foreign key of a gamer, game, event and
      attendance row points at an existing row, a user has at most one gamer, and the
      bounded character fields fit. A game's owner is not required to exist: the delete rule
      of `Game.gamer` is declared in the Game model, which is not part of this model. */
  ghost predicate Integrity(db: Db) {
    && (forall g :: g in db.gamers ==> db.gamers[g].user in db.users)
    && OneGamerPerUser(db.gamers)
    && (forall g :: g in db.gamers ==> |db.gamers[g].bio| <= MaxBioLength)
    && (forall g :: g in db.games ==> db.games[g].gameType in db.gameTypes)
    && (forall e :: e in db.events ==> db.events[e].game in db.games)
    && (forall e :: e in db.events ==> db.events[e].host in db.gamers)
    && (forall e :: e in db.events ==> |db.events[e].location| <= MaxLocationLength)
    && (forall p :: p in db.attendance ==> p.event in db.events && p.gamer in db.gamers)
  }

  /** A loaded Event model instance. The `joined` property stores into a private slot that is
      empty until something (the list view's annotation) sets it; reading it before then raises
      AttributeError, which `None` stands for. */
  class EventInstance {
    const id: EventId
    const row: Event
    var joinedSlot: Option<int>

    constructor (id: EventId, row: Event)
      ensures this.id == id && this.row == row && joinedSlot == None
    {
      this.id := id;
      this.row := row;
      joinedSlot := None;
    }

    /** The `joined` setter. */
    method SetJoined(value: int)
      modifies this`joinedSlot
      ensures joinedSlot == Some(value)
    {
      joinedSlot := Some(value);
    }

    /** The `joined` getter: the value most recently set, or None (AttributeError) if never set. */
    method GetJoined() returns (r: Option<int>)
      ensures r == joinedSlot
    {
      r := joinedSlot;
    }
  }
}
