/** `EventService`: the `events` collection and its `attendees` sub-collections, changed in place
    by the service's methods. Each method states its new state through the functions of modules
    Attendance and Events; the lemmas there say what those functions promise. */
module Service {
  import opened Common
  import opened Attendance
  import opened Events
  import Sorting

  function StartKey(e: Event): int { e.startTime }

  /** The sub-collection of `eventId`; a missing one reads as empty. */
  function TableOf(attendees: map<EventId, Table>, eventId: EventId): Table {
    if eventId in attendees then attendees[eventId] else map[]
  }

  /** The capacity bound over the whole store: no capped event has more `going` records than seats. */
  ghost predicate CapacityRespected(events: map<EventId, Event>, attendees: map<EventId, Table>) {
    forall id :: id in events && events[id].capacity > 0 ==> GoingCount(TableOf(attendees, id)) <= events[id].capacity
  }

  /** Replacing one sub-collection by one within that event's capacity keeps the bound. */
  lemma ReplaceTableKeepsCapacity(events: map<EventId, Event>, attendees: map<EventId, Table>, eventId: EventId, t: Table)
    requires CapacityRespected(events, attendees)
    requires eventId in events && events[eventId].capacity > 0 ==> GoingCount(t) <= events[eventId].capacity
    ensures CapacityRespected(events, attendees[eventId := t])
  {
    forall id | id in events && events[id].capacity > 0
      ensures GoingCount(TableOf(attendees[eventId := t], id)) <= events[id].capacity
    {
      if id != eventId {
        assert TableOf(attendees[eventId := t], id) == TableOf(attendees, id);
      }
    }
  }

  /** The store invariant over every sub-collection. */
  ghost predicate AllWellFormed(attendees: map<EventId, Table>, clock: int) {
    forall id :: id in attendees ==> WellFormed(attendees[id], clock)
  }

  /** Replacing one sub-collection by a table well formed at the next tick, and advancing the
      clock, keeps the store invariant. */
  lemma ReplaceTableKeepsWellFormed(attendees: map<EventId, Table>, clock: int, eventId: EventId, t: Table, later: int)
    requires AllWellFormed(attendees, clock) && clock <= later && WellFormed(t, later)
    ensures AllWellFormed(attendees[eventId := t], later)
  {
  }

  /** A successful leave keeps the store invariant at the next tick and, since it never raises a
      `going` count, the capacity bound. */
  lemma LeaveKeepsStore(events: map<EventId, Event>, attendees: map<EventId, Table>, clock: int,
                        eventId: EventId, uid: Uid)
    requires AllWellFormed(attendees, clock) && uid in TableOf(attendees, eventId)
    ensures eventId in attendees && Leave(attendees[eventId], uid, clock).Ok?
    ensures var left := Leave(attendees[eventId], uid, clock).value;
      && AllWellFormed(attendees[eventId := left], clock + 1)
      && (CapacityRespected(events, attendees) ==> CapacityRespected(events, attendees[eventId := left]))
  {
    var table := attendees[eventId];
    var left := Leave(table, uid, clock).value;
    LeaveKeepsWellFormed(table, uid, clock);
    ReplaceTableKeepsWellFormed(attendees, clock, eventId, left, clock + 1);
    LeaveNeverAddsGoing(table, uid, clock);
    if CapacityRespected(events, attendees) {
      ReplaceTableKeepsCapacity(events, attendees, eventId, left);
    }
  }

  /** Deleting one record keeps the store invariant. */
  lemma DeleteKeepsWellFormed(attendees: map<EventId, Table>, clock: int, eventId: EventId, uid: Uid)
    requires AllWellFormed(attendees, clock) && eventId in attendees
    ensures AllWellFormed(attendees[eventId := attendees[eventId] - {uid}], clock)
  {
    assert WellFormed(attendees[eventId] - {uid}, clock);
  }

  class EventService {
    /** `events/{eventId}` documents. */
    var events: map<EventId, Event>
    /** `events/{eventId}/attendees/{uid}` documents; a missing entry is an empty sub-collection. */
    var attendees: map<EventId, Table>
    /** The logical clock that stamps `joinedAt` and `promotedAt`; it only moves forward. */
    var clock: int

    ghost predicate Valid()
      reads this
    {
      && (forall id :: id in events ==> events[id].id == id)
      && attendees.Keys <= events.Keys
      && AllWellFormed(attendees, clock)
    }

    function AttendeesOf(eventId: EventId): Table
      reads this
    {
      TableOf(attendees, eventId)
    }

    function EventOf(eventId: EventId): Option<Event>
      reads this
    {
      if eventId in events then Some(events[eventId]) else None
    }

    function CapacityOf(eventId: EventId): Option<int>
      reads this
    {
      if eventId in events then Some(events[eventId].capacity) else None
    }

    /** The capacity bound: no capped event has more `going` records than seats. */
    ghost predicate WithinCapacity()
      reads this
    {
      CapacityRespected(events, attendees)
    }

    predicate IsGoing(eventId: EventId, uid: Uid)
      reads this
    {
      uid in AttendeesOf(eventId) && AttendeesOf(eventId)[uid].status == Going
    }

    constructor ()
      ensures Valid() && WithinCapacity()
      ensures events == map[] && attendees == map[] && clock == 0
    {
      events, attendees, clock := map[], map[], 0;
    }

    /** `createEvent`: store a new active document under a fresh id (a `ulid()` in the service,
        a parameter here) with `createdAt` and `updatedAt` both set to `now`. */
    method CreateEvent(eventId: EventId, title: string, description: string, category: string,
                       address: string, capacity: int, startTime: int, endTime: int,
                       organizer: Uid, now: int) returns (ev: Event)
      requires Valid() && eventId !in events
      modifies this
      ensures Valid() && attendees == old(attendees) && clock == old(clock)
      ensures ev == Event(eventId, title, description, category, address, capacity, startTime, endTime,
                          organizer, now, now, Active, None, None)
      ensures events == old(events)[eventId := ev]
      ensures AttendeesOf(eventId) == map[]
      ensures old(WithinCapacity()) ==> WithinCapacity()
    {
      ev := Event(eventId, title, description, category, address, capacity, startTime, endTime,
                  organizer, now, now, Active, None, None);
      assert eventId !in attendees;
      ghost var before := events;
      events := events[eventId := ev];
      assert CapacityRespected(before, attendees) ==> CapacityRespected(events, attendees) by {
        if CapacityRespected(before, attendees) {
          forall id | id in events && events[id].capacity > 0
            ensures GoingCount(TableOf(attendees, id)) <= events[id].capacity
          {
            if id == eventId {
              assert GoingSet(map[]) == {};
            }
          }
        }
      }
    }

    /** `joinEvent`: refuse a duplicate, then a missing event, then write one record whose status
        depends on the current `going` count. */
    method JoinEvent(eventId: EventId, uid: Uid) returns (o: Outcome)
      requires Valid()
      modifies this
      ensures Valid() && events == old(events)
      ensures match Join(old(AttendeesOf(eventId)), old(CapacityOf(eventId)), uid, old(clock))
        case Err(e) => o == Failed(e) && attendees == old(attendees) && clock == old(clock)
        case Ok(t) => o == Done && attendees == old(attendees)[eventId := t] && clock == old(clock) + 1
      ensures old(WithinCapacity()) ==> WithinCapacity()
    {
      var table := AttendeesOf(eventId);
      if uid in table {
        return Failed(AlreadyJoined);
      }
      if eventId !in events {
        return Failed(EventNotFound);
      }
      var status := StatusOnJoin(events[eventId].capacity, GoingCount(table));
      var joined := table[uid := Attendee(uid, status, clock, None)];
      assert Join(table, Some(events[eventId].capacity), uid, clock) == Ok(joined);
      JoinKeepsWellFormed(table, Some(events[eventId].capacity), uid, clock);
      ReplaceTableKeepsWellFormed(attendees, clock, eventId, joined, clock + 1);
      if WithinCapacity() {
        if events[eventId].capacity > 0 {
          JoinKeepsCapacity(table, events[eventId].capacity, uid, clock);
        }
        ReplaceTableKeepsCapacity(events, attendees, eventId, joined);
      }
      attendees := attendees[eventId := joined];
      clock := clock + 1;
      o := Done;
    }

    /** `promoteFromWaitlist`: the waitlisted record with the earliest join time, if any, becomes
        `going` and is stamped with the current clock. */
    method PromoteFromWaitlist(eventId: EventId)
      requires Valid()
      modifies this
      ensures Valid() && events == old(events) && clock == old(clock)
      ensures attendees == if eventId in old(attendees)
                           then old(attendees)[eventId := Promote(old(attendees)[eventId], clock)]
                           else old(attendees)
    {
      var table := AttendeesOf(eventId);
      EarliestWaitlistedExists(table);
      if WaitlistSet(table) != {} {
        var w :| w in table && IsEarliestWaitlisted(table, w);
        EarliestWaitlistedUnique(table, w, EarliestWaitlisted(table).value);
        PromoteKeepsWellFormed(table, clock, clock);
        attendees := attendees[eventId := table[w := table[w].(status := Going, promotedAt := Some(clock))]];
      }
    }

    /** `attendeesRef.doc(uid).delete()`: remove one record of an existing sub-collection. */
    method DeleteRecord(eventId: EventId, uid: Uid)
      requires Valid() && eventId in attendees
      modifies this
      ensures Valid() && events == old(events) && clock == old(clock)
      ensures attendees == old(attendees)[eventId := old(attendees)[eventId] - {uid}]
    {
      DeleteKeepsWellFormed(attendees, clock, eventId, uid);
      attendees := attendees[eventId := attendees[eventId] - {uid}];
    }

    /** `leaveEvent`: refuse a user without a record, delete the record, and promote from the
        waitlist if the record was `going`. */
    method LeaveEvent(eventId: EventId, uid: Uid) returns (o: Outcome)
      requires Valid()
      modifies this
      ensures Valid() && events == old(events)
      ensures match Leave(old(AttendeesOf(eventId)), uid, old(clock))
        case Err(e) => o == Failed(e) && attendees == old(attendees) && clock == old(clock)
        case Ok(t) => o == Done && attendees == old(attendees)[eventId := t] && clock == old(clock) + 1
      ensures old(WithinCapacity()) ==> WithinCapacity()
    {
      var table := AttendeesOf(eventId);
      if uid !in table {
        return Failed(NotAttending);
      }
      ghost var left := Leave(table, uid, clock).value;
      ghost var before := attendees;
      LeaveKeepsStore(events, attendees, clock, eventId, uid);
      var record := table[uid];
      DeleteRecord(eventId, uid);
      if record.status == Going {
        ghost var deleted := attendees;
        ghost var promoted := Promote(table - {uid}, clock);
        assert eventId in deleted && deleted[eventId] == table - {uid};
        PromoteFromWaitlist(eventId);
        assert attendees == deleted[eventId := promoted];
        assert deleted[eventId := promoted] == before[eventId := promoted];
      }
      assert attendees == before[eventId := left];
      clock := clock + 1;
      o := Done;
    }

    /** `getEventAttendees`: the records of the event's sub-collection in join order. */
    method GetEventAttendees(eventId: EventId) returns (r: seq<Attendee>)
      requires Valid()
      ensures |r| == |AttendeesOf(eventId)|
      ensures forall i :: 0 <= i < |r| ==> r[i].uid in AttendeesOf(eventId) && AttendeesOf(eventId)[r[i].uid] == r[i]
      ensures forall u :: u in AttendeesOf(eventId) ==> AttendeesOf(eventId)[u] in r
      ensures forall i, j :: 0 <= i < j < |r| ==> r[i].joinedAt < r[j].joinedAt
    {
      r := ListByJoinTime(AttendeesOf(eventId));
    }

    /** `updateEvent`: refuse a missing event, a caller other than the organizer, and (unless it
        cancels) an edit later than one hour before the start; otherwise overwrite the given
        fields and `updatedAt`. */
    method UpdateEvent(eventId: EventId, u: EventUpdate, caller: Uid, now: int) returns (r: Result<Event>)
      requires Valid()
      modifies this
      ensures Valid() && attendees == old(attendees) && clock == old(clock)
      ensures r == EditEvent(old(EventOf(eventId)), u, caller, now)
      ensures r.Ok? ==> events == old(events)[eventId := r.value]
      ensures r.Err? ==> events == old(events)
      ensures old(WithinCapacity()) && u.capacity.None? ==> WithinCapacity()
    {
      if eventId !in events {
        return Err(EventNotFound);
      }
      var ev := events[eventId];
      if ev.organizerUid != caller {
        return Err(NotOrganizer);
      }
      if now > ev.startTime - OneHourMs && u.status != Some(Cancelled) {
        return Err(EditWindowClosed);
      }
      var updated := ApplyUpdate(ev, u, now);
      ghost var before := events;
      events := events[eventId := updated];
      assert CapacityRespected(before, attendees) && u.capacity.None? ==> CapacityRespected(events, attendees) by {
        if CapacityRespected(before, attendees) && u.capacity.None? {
          assert forall id :: id in events ==> events[id].capacity == before[id].capacity;
        }
      }
      r := Ok(updated);
    }

    /** `deleteEvent`: an organizer-only soft cancel; no document is removed. */
    method DeleteEvent(eventId: EventId, caller: Uid, now: int) returns (o: Outcome)
      requires Valid()
      modifies this
      ensures Valid() && attendees == old(attendees) && clock == old(clock)
      ensures events.Keys == old(events).Keys
      ensures match CancelEvent(old(EventOf(eventId)), caller, now)
        case Err(e) => o == Failed(e) && events == old(events)
        case Ok(ev) => o == Done && events == old(events)[eventId := ev]
      ensures old(WithinCapacity()) ==> WithinCapacity()
    {
      if eventId !in events {
        return Failed(EventNotFound);
      }
      if events[eventId].organizerUid != caller {
        return Failed(NotOrganizer);
      }
      events := events[eventId := events[eventId].(status := Cancelled, updatedAt := now)];
      o := Done;
    }

    /** `adminDeleteEvent`: a soft cancel by an admin, with the removal fields. */
    method AdminDeleteEvent(eventId: EventId, admin: Uid, reason: Option<string>, now: int) returns (o: Outcome)
      requires Valid()
      modifies this
      ensures Valid() && attendees == old(attendees) && clock == old(clock)
      ensures events.Keys == old(events).Keys
      ensures match AdminCancelEvent(old(EventOf(eventId)), admin, reason, now)
        case Err(e) => o == Failed(e) && events == old(events)
        case Ok(ev) => o == Done && events == old(events)[eventId := ev]
      ensures old(WithinCapacity()) ==> WithinCapacity()
    {
      if eventId !in events {
        return Failed(EventNotFound);
      }
      events := events[eventId := events[eventId].(status := Cancelled, removedBy := Some(admin),
                                                   removalReason := Some(RemovalReason(reason)),
                                                   updatedAt := now)];
      o := Done;
    }

    /** The events in which `uid` holds a `going` record, each once, in no particular order. */
    method CollectAttending(uid: Uid) returns (found: seq<Event>)
      requires Valid()
      ensures forall e :: e in found ==> e.id in events && events[e.id] == e && IsGoing(e.id, uid)
      ensures forall id :: id in events && IsGoing(id, uid) ==> events[id] in found
      ensures forall e :: multiset(found)[e] <= 1
    {
      found := [];
      var todo := events.Keys;
      while todo != {}
        invariant todo <= events.Keys
        invariant forall e :: e in found ==> e.id in events && e.id !in todo && events[e.id] == e && IsGoing(e.id, uid)
        invariant forall id :: id in events && id !in todo && IsGoing(id, uid) ==> events[id] in found
        invariant forall e :: multiset(found)[e] <= 1
        decreases |todo|
      {
        var id :| id in todo;
        if IsGoing(id, uid) {
          assert events[id] !in found;
          found := found + [events[id]];
        }
        todo := todo - {id};
      }
    }

    /** `getUserEvents(uid, 'attending')`: scan every event, keep those where the user's record is
        `going` (cancelled events included), and sort them by start time. */
    method GetAttendingEvents(uid: Uid) returns (r: seq<Event>)
      requires Valid()
      ensures forall e :: e in r ==> e.id in events && events[e.id] == e && IsGoing(e.id, uid)
      ensures forall id :: id in events && IsGoing(id, uid) ==> events[id] in r
      ensures forall e :: multiset(r)[e] <= 1
      ensures forall i, j :: 0 <= i < j < |r| ==> r[i].startTime <= r[j].startTime
    {
      var found := CollectAttending(uid);
      r := Sorting.SortBy(found, StartKey);
      assert Sorting.SortedBy(r, StartKey) by {
        Sorting.SortBySorted(found, StartKey);
      }
      forall e | e in r ensures e in found {
        assert e in multiset(r);
      }
      forall e | e in found ensures e in r {
        assert e in multiset(found);
      }
    }
  }
}
