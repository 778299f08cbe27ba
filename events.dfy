/** Event documents and the lifecycle decisions of the event service: the organizer-only edit
    with its one-hour edit window, the soft-cancel of `deleteEvent` and `adminDeleteEvent`, and
    the free-text search step of `getEvents`. */
module Events {
  import opened Common

  datatype EventStatus = Active | Cancelled

  /** An `events/{eventId}` document. Times are milliseconds, as JavaScript `Date` arithmetic
      uses them. A capacity of 0 means unlimited. */
  datatype Event = Event(
    id: EventId,
    title: string,
    description: string,
    category: string,
    address: string,
    capacity: int,
    startTime: int,
    endTime: int,
    organizerUid: Uid,
    createdAt: int,
    updatedAt: int,
    status: EventStatus,
    removedBy: Option<Uid>,
    removalReason: Option<string>)

  /** An `UpdateEventRequest`: every field optional, a present field overwrites the stored one. */
  datatype EventUpdate = EventUpdate(
    title: Option<string>,
    description: Option<string>,
    category: Option<string>,
    address: Option<string>,
    capacity: Option<int>,
    startTime: Option<int>,
    endTime: Option<int>,
    status: Option<EventStatus>)

  const OneHourMs: int := 60 * 60 * 1000

  /** The reason `adminDeleteEvent` records when none (or an empty one) is given. */
  const DefaultRemovalReason: string := "Removed by admin"

  function Overwrite<T>(field: Option<T>, current: T): T {
    if field.Some? then field.value else current
  }

  /** The fields written by `eventRef.update({...updates, updatedAt})`. */
  function ApplyUpdate(ev: Event, u: EventUpdate, now: int): Event {
    ev.(title := Overwrite(u.title, ev.title),
        description := Overwrite(u.description, ev.description),
        category := Overwrite(u.category, ev.category),
        address := Overwrite(u.address, ev.address),
        capacity := Overwrite(u.capacity, ev.capacity),
        startTime := Overwrite(u.startTime, ev.startTime),
        endTime := Overwrite(u.endTime, ev.endTime),
        status := Overwrite(u.status, ev.status),
        updatedAt := now)
  }

  /** `updateEvent` on the stored document `ev` (`None` when it does not exist), requested by
      `caller` at time `now`. */
  function EditEvent(ev: Option<Event>, u: EventUpdate, caller: Uid, now: int): (r: Result<Event>)
    ensures ev.None? ==> r == Err(EventNotFound)
    ensures ev.Some? && ev.value.organizerUid != caller ==> r == Err(NotOrganizer)
    ensures ev.Some? && ev.value.organizerUid == caller ==>
      (r.Err? <==> now > ev.value.startTime - OneHourMs && u.status != Some(Cancelled))
    ensures r.Ok? ==> ev.Some? && ev.value.organizerUid == caller
    ensures r.Ok? ==> r.value.id == ev.value.id && r.value.organizerUid == caller
                      && r.value.createdAt == ev.value.createdAt && r.value.updatedAt == now
    ensures r.Ok? ==> r.value.status == (if u.status.Some? then u.status.value else ev.value.status)
    ensures r.Ok? ==> r.value.capacity == (if u.capacity.Some? then u.capacity.value else ev.value.capacity)
    ensures r.Ok? ==> r.value.title == (if u.title.Some? then u.title.value else ev.value.title)
    ensures r.Ok? ==> r.value.description ==
                      (if u.description.Some? then u.description.value else ev.value.description)
    ensures r.Ok? ==> r.value.category == (if u.category.Some? then u.category.value else ev.value.category)
    ensures r.Ok? ==> r.value.address == (if u.address.Some? then u.address.value else ev.value.address)
    ensures r.Ok? ==> r.value.startTime == (if u.startTime.Some? then u.startTime.value else ev.value.startTime)
    ensures r.Ok? ==> r.value.endTime == (if u.endTime.Some? then u.endTime.value else ev.value.endTime)
    ensures r.Ok? ==> r.value.removedBy == ev.value.removedBy && r.value.removalReason == ev.value.removalReason
  {
    if ev.None? then Err(EventNotFound)
    else if ev.value.organizerUid != caller then Err(NotOrganizer)
    else if now > ev.value.startTime - OneHourMs && u.status != Some(Cancelled) then Err(EditWindowClosed)
    else Ok(ApplyUpdate(ev.value, u, now))
  }

  /** `deleteEvent`: an organizer-only soft cancel that writes `status` and `updatedAt` only. */
  function CancelEvent(ev: Option<Event>, caller: Uid, now: int): (r: Result<Event>)
    ensures ev.None? ==> r == Err(EventNotFound)
    ensures ev.Some? && ev.value.organizerUid != caller ==> r == Err(NotOrganizer)
    ensures ev.Some? && ev.value.organizerUid == caller ==>
      r == Ok(ev.value.(status := Cancelled, updatedAt := now))
  {
    if ev.None? then Err(EventNotFound)
    else if ev.value.organizerUid != caller then Err(NotOrganizer)
    else Ok(ev.value.(status := Cancelled, updatedAt := now))
  }

  /** `reason || 'Removed by admin'`: a missing or empty reason is replaced by the default. */
  function RemovalReason(reason: Option<string>): (r: string)
    ensures r != ""
    ensures reason.Some? && reason.value != "" ==> r == reason.value
  {
    if reason.Some? && reason.value != "" then reason.value else DefaultRemovalReason
  }

  /** `adminDeleteEvent`: a soft cancel by any admin, recording who removed the event and why. */
  function AdminCancelEvent(ev: Option<Event>, admin: Uid, reason: Option<string>, now: int): (r: Result<Event>)
    ensures ev.None? <==> r == Err(EventNotFound)
    ensures r.Ok? ==> r.value == ev.value.(status := Cancelled, removedBy := Some(admin),
                                           removalReason := Some(RemovalReason(reason)), updatedAt := now)
  {
    if ev.None? then Err(EventNotFound)
    else Ok(ev.value.(status := Cancelled, removedBy := Some(admin),
                      removalReason := Some(RemovalReason(reason)), updatedAt := now))
  }

  // ---------------------------------------------------------------------------------------
  // Lemmas about the lifecycle rules

  /** An update asking only to cancel. */
  const CancelOnly: EventUpdate := EventUpdate(None, None, None, None, None, None, None, Some(Cancelled))

  /** The organizer may cancel through `updateEvent` at any time, even inside the edit window or
      after the start. */
  lemma CancellationAlwaysAllowed(ev: Event, u: EventUpdate, now: int)
    requires u.status == Some(Cancelled)
    ensures EditEvent(Some(ev), u, ev.organizerUid, now).Ok?
    ensures EditEvent(Some(ev), u, ev.organizerUid, now).value.status == Cancelled
  {
  }

  /** Up to one hour before the start the organizer's edits are accepted. */
  lemma EditAllowedBeforeWindow(ev: Event, u: EventUpdate, now: int)
    requires now <= ev.startTime - OneHourMs
    ensures EditEvent(Some(ev), u, ev.organizerUid, now).Ok?
  {
  }

  /** Nobody but the organizer may edit, even to cancel. */
  lemma OnlyOrganizerEdits(ev: Option<Event>, u: EventUpdate, caller: Uid, now: int)
    ensures EditEvent(ev, u, caller, now).Ok? ==> ev.Some? && caller == ev.value.organizerUid
    ensures CancelEvent(ev, caller, now).Ok? ==> ev.Some? && caller == ev.value.organizerUid
  {
  }

  /** Thirty minutes before the start a plain edit is refused and a cancellation accepted. */
  lemma ThirtyMinutesBeforeStart(ev: Event, u: EventUpdate)
    requires u.status != Some(Cancelled)
    ensures var now := ev.startTime - 30 * 60 * 1000;
      && EditEvent(Some(ev), u, ev.organizerUid, now) == Err(EditWindowClosed)
      && EditEvent(Some(ev), CancelOnly, ev.organizerUid, now).Ok?
  {
  }

  /** `deleteEvent` makes the same document write, with the same errors, as an `updateEvent`
      that only cancels; neither is held back by the edit window. */
  lemma CancelIsCancellingUpdate(ev: Option<Event>, caller: Uid, now: int)
    ensures CancelEvent(ev, caller, now) == EditEvent(ev, CancelOnly, caller, now)
  {
  }

  /** `adminDeleteEvent` writes what `deleteEvent` writes plus the removal fields, for any admin. */
  lemma AdminCancelExtendsCancel(ev: Event, admin: Uid, reason: Option<string>, now: int)
    ensures var a := AdminCancelEvent(Some(ev), admin, reason, now);
      var c := CancelEvent(Some(ev), ev.organizerUid, now);
      a.Ok? && c.Ok? &&
      a.value.(removedBy := ev.removedBy, removalReason := ev.removalReason) == c.value
  {
  }

  /** A soft cancel is final for the cancel operations: cancelling twice leaves the status
      cancelled and changes only the timestamp. */
  lemma CancelTwice(ev: Event, now1: int, now2: int)
    ensures var once := CancelEvent(Some(ev), ev.organizerUid, now1).value;
      CancelEvent(Some(once), ev.organizerUid, now2) == Ok(ev.(status := Cancelled, updatedAt := now2))
  {
  }

  /** `updateEvent` does not make cancellation terminal: the organizer can set a cancelled event
      back to active while the edit window is open. */
  lemma UpdateCanReactivate(ev: Event, now: int)
    requires ev.status == Cancelled && now <= ev.startTime - OneHourMs
    ensures var u := CancelOnly.(status := Some(Active));
      EditEvent(Some(ev), u, ev.organizerUid, now).Ok?
      && EditEvent(Some(ev), u, ev.organizerUid, now).value.status == Active
  {
  }

  // ---------------------------------------------------------------------------------------
  // The text-search step of getEvents

  /** `toLowerCase` on the ASCII letters. */
  function LowerChar(c: char): char {
    if 'A' <= c <= 'Z' then (c as int - 'A' as int + 'a' as int) as char else c
  }

  function Lower(s: string): (r: string)
    ensures |r| == |s|
  {
    if s == [] then [] else [LowerChar(s[0])] + Lower(s[1..])
  }

  lemma {:induction false} LowerAt(s: string, i: int)
    requires 0 <= i < |s|
    ensures Lower(s)[i] == LowerChar(s[i])
    decreases |s|
  {
    if i > 0 {
      LowerAt(s[1..], i - 1);
    }
  }

  /** Lower-casing twice is lower-casing once. */
  lemma {:induction false} LowerIdempotent(s: string)
    ensures Lower(Lower(s)) == Lower(s)
    decreases |s|
  {
    if s != [] {
      LowerIdempotent(s[1..]);
      assert Lower(s) == [LowerChar(s[0])] + Lower(s[1..]);
      assert Lower(s)[1..] == Lower(s[1..]);
    }
  }

  /** `sub` occurs in `s` at position `i`. */
  predicate OccursAt(s: string, sub: string, i: int) {
    0 <= i && i + |sub| <= |s| && s[i..i + |sub|] == sub
  }

  /** JavaScript's `s.includes(sub)`. */
  function Contains(s: string, sub: string): bool
    decreases |s|
  {
    if |sub| > |s| then false
    else if s[..|sub|] == sub then true
    else Contains(s[1..], sub)
  }

  /** `Contains` finds exactly the substrings of `s`. */
  lemma {:induction false} ContainsIffOccurs(s: string, sub: string)
    ensures Contains(s, sub) <==> exists i :: OccursAt(s, sub, i)
    decreases |s|
  {
    if |sub| > |s| {
    } else if s[..|sub|] == sub {
      assert OccursAt(s, sub, 0);
    } else {
      ContainsIffOccurs(s[1..], sub);
      if Contains(s[1..], sub) {
        var i :| OccursAt(s[1..], sub, i);
        assert s[1..][i..i + |sub|] == s[i + 1..i + 1 + |sub|];
        assert OccursAt(s, sub, i + 1);
      }
      if i :| OccursAt(s, sub, i) {
        assert i != 0;
        assert s[1..][i - 1..i - 1 + |sub|] == s[i..i + |sub|];
        assert OccursAt(s[1..], sub, i - 1);
      }
    }
  }

  /** The predicate of `events.filter`: the lower-cased needle occurs in the lower-cased title
      or description. */
  predicate Matches(ev: Event, needle: string) {
    Contains(Lower(ev.title), needle) || Contains(Lower(ev.description), needle)
  }

  function KeepMatching(events: seq<Event>, needle: string): (r: seq<Event>)
    ensures |r| <= |events|
    ensures forall e :: e in r <==> e in events && Matches(e, needle)
  {
    if events == [] then []
    else
      var rest := KeepMatching(events[1..], needle);
      assert events == [events[0]] + events[1..];
      if Matches(events[0], needle) then [events[0]] + rest else rest
  }

  /** The search step of `getEvents`: with a non-empty search term, keep the events whose title
      or description contains it, ignoring case; otherwise keep everything. */
  function SearchFilter(events: seq<Event>, search: Option<string>): (r: seq<Event>)
    ensures search.None? || search.value == "" ==> r == events
    ensures search.Some? && search.value != "" ==>
      forall e :: e in r <==> e in events && Matches(e, Lower(search.value))
  {
    if search.None? || search.value == "" then events
    else KeepMatching(events, Lower(search.value))
  }

  /** The filter keeps the input order: filtering a concatenation concatenates the results. */
  lemma {:induction false} KeepMatchingAppend(a: seq<Event>, b: seq<Event>, needle: string)
    ensures KeepMatching(a + b, needle) == KeepMatching(a, needle) + KeepMatching(b, needle)
    decreases |a|
  {
    if a == [] {
      assert a + b == b;
    } else {
      var ab := a + b;
      assert ab[0] == a[0] && ab[1..] == a[1..] + b;
      KeepMatchingAppend(a[1..], b, needle);
      var head := if Matches(a[0], needle) then [a[0]] else [];
      calc {
        KeepMatching(ab, needle);
        head + KeepMatching(a[1..] + b, needle);
        head + (KeepMatching(a[1..], needle) + KeepMatching(b, needle));
        (head + KeepMatching(a[1..], needle)) + KeepMatching(b, needle);
      }
    }
  }

  /** With a non-empty term, the search is `events.filter`: one event is kept exactly when it
      matches, and a list is filtered piece by piece, in order. */
  lemma SearchFilterIsOrderedFilter(a: seq<Event>, b: seq<Event>, q: string, e: Event)
    requires q != ""
    ensures SearchFilter([e], Some(q)) == if Matches(e, Lower(q)) then [e] else []
    ensures SearchFilter(a + b, Some(q)) == SearchFilter(a, Some(q)) + SearchFilter(b, Some(q))
  {
    assert [e][1..] == [];
    KeepMatchingAppend(a, b, Lower(q));
  }

  /** The search is case-insensitive: a term and its lower-cased form select the same events. */
  lemma SearchIgnoresCase(events: seq<Event>, q: string)
    ensures SearchFilter(events, Some(q)) == SearchFilter(events, Some(Lower(q)))
  {
    LowerIdempotent(q);
  }

  /** A kept event has the lower-cased term at some position of its lower-cased title or
      description. */
  lemma SearchHitHasOccurrence(events: seq<Event>, q: string, e: Event)
    requires q != "" && e in SearchFilter(events, Some(q))
    ensures (exists i :: OccursAt(Lower(e.title), Lower(q), i))
         || (exists i :: OccursAt(Lower(e.description), Lower(q), i))
  {
    assert Matches(e, Lower(q));
    if Contains(Lower(e.title), Lower(q)) {
      ContainsIffOccurs(Lower(e.title), Lower(q));
      assert exists j :: OccursAt(Lower(e.title), Lower(q), j);
    } else {
      ContainsIffOccurs(Lower(e.description), Lower(q));
      assert exists j :: OccursAt(Lower(e.description), Lower(q), j);
    }
  }
}
