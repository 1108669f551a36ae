/** The derived counts the views annotate: `attendees_count` and `joined` per event,
    `event_count` and `user_event_count` per game. */
module Aggregates {
  import opened Models

  /** `event.attendees`: the gamers of the event's EventGamer rows. */
  function Attendees(attendance: set<EventGamer>, e: EventId): (s: set<GamerId>)
    ensures forall g :: g in s <==> EventGamer(e, g) in attendance
  {
    set p | p in attendance && p.event == e :: p.gamer
  }

  /** The EventGamer rows of event `e` (the `events` related name). */
  function RowsOf(attendance: set<EventGamer>, e: EventId): set<EventGamer> {
    set p | p in attendance && p.event == e
  }

  /** Rows that share one event are told apart by their gamer, so there are as many of them
      as there are gamers among them. */
  lemma {:induction false} RowsMatchGamers(rows: set<EventGamer>, e: EventId)
    requires forall p :: p in rows ==> p.event == e
    ensures |rows| == |set p | p in rows :: p.gamer|
    decreases rows
  {
    if rows != {} {
      var p :| p in rows;
      var rest := rows - {p};
      RowsMatchGamers(rest, e);
      var gamers := set q | q in rest :: q.gamer;
      assert (set q | q in rows :: q.gamer) == gamers + {p.gamer};
      assert p.gamer !in gamers by {
        forall q | q in rest
          ensures q.gamer != p.gamer
        {
          assert q != p && q.event == p.event;
        }
      }
    }
  }

  /** `attendees_count`: how many gamers attend event `e`. The retrieve view counts the event's
      EventGamer rows (`Count('events')`) and the list view its attendees
      (`Count('attendees')`); the two counts are equal. */
  function AttendeesCount(attendance: set<EventGamer>, e: EventId): (n: nat)
    ensures n == |RowsOf(attendance, e)|
    ensures n == 0 <==> forall g :: EventGamer(e, g) !in attendance
  {
    RowsMatchGamers(RowsOf(attendance, e), e);
    assert (set p | p in RowsOf(attendance, e) :: p.gamer) == Attendees(attendance, e);
    assert forall g :: EventGamer(e, g) in attendance ==> g in Attendees(attendance, e);
    |Attendees(attendance, e)|
  }

  /** `joined`: the attendees of `e` counted under the filter "is gamer `g`". */
  function Joined(attendance: set<EventGamer>, e: EventId, g: GamerId): (n: nat)
    ensures n <= 1
    ensures n == 1 <==> g in Attendees(attendance, e)
  {
    if EventGamer(e, g) in attendance then 1 else 0
  }

  /** The events of game `g` (the `game_events` related name). */
  function EventsOfGame(events: map<EventId, Event>, g: GameId): set<EventId> {
    set e | e in events && events[e].game == g
  }

  /** The events of game `g` hosted by gamer `host`. */
  function HostedEventsOfGame(events: map<EventId, Event>, g: GameId, host: GamerId): set<EventId> {
    set e | e in events && events[e].game == g && events[e].host == host
  }

  /** `event_count`: how many events game `g` has; never more than there are events, and 0
      exactly when no event is of `g`. */
  function EventCount(events: map<EventId, Event>, g: GameId): (n: nat)
    ensures n <= |events|
    ensures n == 0 <==> forall e :: e in events ==> events[e].game != g
  {
    SubsetCardinality(EventsOfGame(events, g), events.Keys);
    assert forall e :: e in events && events[e].game == g ==> e in EventsOfGame(events, g);
    assert (forall e :: e in events ==> events[e].game != g) ==> EventsOfGame(events, g) == {};
    |EventsOfGame(events, g)|
  }

  /** `user_event_count`: `Count('game_events', filter=Q(game_events__host=gamer))`. A gamer
      hosts no more of a game's events than the game has. */
  function UserEventCount(events: map<EventId, Event>, g: GameId, host: GamerId): (n: nat)
    ensures n <= EventCount(events, g)
  {
    SubsetCardinality(HostedEventsOfGame(events, g, host), EventsOfGame(events, g));
    |HostedEventsOfGame(events, g, host)|
  }

  lemma {:induction false} SubsetCardinality<T>(a: set<T>, b: set<T>)
    requires a <= b
    ensures |a| <= |b|
    decreases b
  {
    if a != {} {
      var x :| x in a;
      SubsetCardinality(a - {x}, b - {x});
    }
  }

  /** Each event is among the `game_events` of its own game and of no other, so the event
      counts of two different games together never exceed the number of events. */
  lemma GameEventsPartition(events: map<EventId, Event>, g1: GameId, g2: GameId)
    requires g1 != g2
    ensures forall e :: e in events ==> e in EventsOfGame(events, events[e].game)
    ensures EventsOfGame(events, g1) !! EventsOfGame(events, g2)
    ensures EventCount(events, g1) + EventCount(events, g2) <= |events|
  {
    var both := EventsOfGame(events, g1) + EventsOfGame(events, g2);
    SubsetCardinality(both, events.Keys);
  }

  /** Storing a new event `ev` under a fresh id raises `event_count` of its game and
      `user_event_count` of its game and host by one; the counts of every other game and of
      every other host stay as they were. */
  lemma AddEventCounts(events: map<EventId, Event>, id: EventId, ev: Event)
    requires id !in events
    ensures EventCount(events[id := ev], ev.game) == EventCount(events, ev.game) + 1
    ensures UserEventCount(events[id := ev], ev.game, ev.host) == UserEventCount(events, ev.game, ev.host) + 1
    ensures forall g :: g != ev.game ==> EventCount(events[id := ev], g) == EventCount(events, g)
    ensures forall g, h :: g != ev.game || h != ev.host ==>
              UserEventCount(events[id := ev], g, h) == UserEventCount(events, g, h)
  {
    var after := events[id := ev];
    assert EventsOfGame(after, ev.game) == EventsOfGame(events, ev.game) + {id};
    assert HostedEventsOfGame(after, ev.game, ev.host) == HostedEventsOfGame(events, ev.game, ev.host) + {id};
    forall g | g != ev.game
      ensures EventCount(after, g) == EventCount(events, g)
    {
      assert EventsOfGame(after, g) == EventsOfGame(events, g);
    }
    forall g, h | g != ev.game || h != ev.host
      ensures UserEventCount(after, g, h) == UserEventCount(events, g, h)
    {
      assert HostedEventsOfGame(after, g, h) == HostedEventsOfGame(events, g, h);
    }
  }

  /** The requester has joined an event at most as often as it has attendees. */
  lemma JoinedAtMostAttendeesCount(attendance: set<EventGamer>, e: EventId, g: GamerId)
    ensures Joined(attendance, e, g) <= AttendeesCount(attendance, e)
  {
    if Joined(attendance, e, g) == 1 {
      SubsetCardinality({g}, Attendees(attendance, e));
    }
  }

  /** Signing gamer `g` up for `e` (`event.attendees.add(gamer)`, a set insert): `g` then attends,
      the count grows by one exactly when `g` was not attending, repeating the signup changes
      nothing, and every other event keeps its attendees. */
  lemma SignupEffect(attendance: set<EventGamer>, e: EventId, g: GamerId)
    ensures var after := attendance + {EventGamer(e, g)};
      && Attendees(after, e) == Attendees(attendance, e) + {g}
      && Joined(after, e, g) == 1
      && AttendeesCount(after, e) == AttendeesCount(attendance, e) + 1 - Joined(attendance, e, g)
      && AttendeesCount(after + {EventGamer(e, g)}, e) == AttendeesCount(after, e)
      && forall e' :: e' != e ==> Attendees(after, e') == Attendees(attendance, e')
  {
    var after := attendance + {EventGamer(e, g)};
    assert Attendees(after, e) == Attendees(attendance, e) + {g};
    if Joined(attendance, e, g) == 1 {
      assert Attendees(attendance, e) + {g} == Attendees(attendance, e);
    }
    assert after + {EventGamer(e, g)} == after;
    forall e' | e' != e
      ensures Attendees(after, e') == Attendees(attendance, e')
    {
      assert forall x :: x in Attendees(after, e') <==> x in Attendees(attendance, e');
    }
  }

  /** Gamer `g` leaving `e` (`event.attendees.remove(gamer)`, a set delete): `g` no longer
      attends, the count drops by one exactly when `g` was attending, and every other pair,
      of this event or of another, is untouched. */
  lemma LeaveEffect(attendance: set<EventGamer>, e: EventId, g: GamerId)
    ensures var after := attendance - {EventGamer(e, g)};
      && Attendees(after, e) == Attendees(attendance, e) - {g}
      && Joined(after, e, g) == 0
      && AttendeesCount(after, e) == AttendeesCount(attendance, e) - Joined(attendance, e, g)
      && (Joined(attendance, e, g) == 0 ==> after == attendance)
      && forall e' :: e' != e ==> Attendees(after, e') == Attendees(attendance, e')
  {
    var after := attendance - {EventGamer(e, g)};
    assert Attendees(after, e) == Attendees(attendance, e) - {g};
    forall e' | e' != e
      ensures Attendees(after, e') == Attendees(attendance, e')
    {
      assert forall x :: x in Attendees(after, e') <==> x in Attendees(attendance, e');
    }
  }
}
