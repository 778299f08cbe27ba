# tolosa-meet event service in Dafny

This project models the server-side core of tolosa-meet, a meet-up application. Organizers
publish events with a capacity, where 0 means unlimited. Users join them, and a user who joins a
full event is waitlisted. When a `going` user leaves, the earliest waitlisted user is promoted.
Organizers may edit an event up to one hour before its start. They may cancel it at any time, and
an admin may remove it. Both removals are soft cancels: no document is deleted. The model also
covers the request-body validators of the HTTP layer.

The project is split into six modules:

- `Common` (common.dfy): user and event ids, `Option`, `Result`, and the service's error
  conditions.
- `Sorting` (sorting.dfy): an insertion sort on an integer key. It stands for Firestore's
  `orderBy(..., 'asc')` and for the JavaScript `sort` by start time. Lemmas prove that the result
  is a sorted permutation, strictly sorted when keys are distinct, and stable: elements with equal
  keys keep their input order, as JavaScript's `sort` does.
- `Attendance` (attendance.dfy): the attendee sub-collection of one event, as a map from user id
  to record.
  - The decisions of `joinEvent`, `leaveEvent` and `promoteFromWaitlist` are pure functions on
    that map.
  - Lemmas cover the join status rule, the capacity bound, first-in-first-out promotion, and the
    store invariant.
  - The bound and the invariant are also proved over any sequence of join and leave requests.
- `Events` (events.dfy): the event document and the `updateEvent`, `deleteEvent` and
  `adminDeleteEvent` decisions. It also holds the case-insensitive substring search of
  `getEvents`.
- `Validation` (validation.dfy): the Joi schemas of `validateSignUp`, `validateSignIn`,
  `validateCreateEvent` and `validateUpdateProfile`, as predicates.
- `Service` (service.dfy): the class `EventService`. It holds the `events` collection, the
  `attendees` sub-collections and a logical clock. Its methods change that state in place, and
  each method's postcondition ties the new state to the functions above.

Time has two forms:

- The join and promotion stamps come from a logical clock that advances by one per successful
  join or leave. Distinct stamps make the first-in-first-out order well defined.
- Wall-clock "now", used by the edit window, the validators and `updatedAt`, is a parameter in
  milliseconds.

Some behaviours of the code that a reader might not expect:

- `updateEvent` accepts any `status`, so an organizer can set a cancelled event back to `active`
  while the edit window is open (`Events.UpdateCanReactivate`). A cancelled event can therefore
  become active again.
- `updateEvent` also accepts a new capacity without checking it. A capacity lowered below the
  current `going` count leaves the event over capacity. For this reason the capacity bound is
  not a class invariant. `JoinEvent`, `LeaveEvent`, `CreateEvent`, `DeleteEvent`,
  `AdminDeleteEvent`, and an `UpdateEvent` that leaves capacity alone each keep the bound when it
  held before.
- Joins and leaves keep the waitlist first in line: while anyone waits, the `going` count stays at
  the capacity, so a newcomer is waitlisted behind them (`Attendance.NoOvertaking`,
  `Attendance.RunKeepsNoOvertaking`). Raising the capacity through `updateEvent` promotes nobody,
  so afterwards a newcomer can join as `going` while earlier users still wait
  (`Attendance.RaisedCapacityOvertakes`).
- `joinEvent` checks for a duplicate record before it checks that the event exists.
- `leaveEvent` never reads the event document. A cancelled event can be left, and it promotes
  from its waitlist like an active one.
- `getUserEvents` in attending mode includes cancelled events.
- Joi's `string()` refuses the empty string, so an empty description, category or address is
  rejected even though only the title has an explicit minimum.

## Model

| member | source | states |
|---|---|---|
| Attendance.Join | server/src/services/eventService.ts:159-188 | An existing record gives `AlreadyJoined` (checked first). A missing event gives `EventNotFound`. Otherwise exactly one record is added for the user, with the given join time and no promotion stamp, and every other record is unchanged. The new record is waitlisted if and only if the capacity is positive and the `going` count has reached it; otherwise it is `going`. |
| Attendance.JoinGoingCount | server/src/services/eventService.ts:177-187 | Joining an existing event succeeds for a new user. The `going` count grows by one, except when the event is capped and full, in which case it is unchanged. |
| Attendance.UnlimitedJoinIsGoing | server/src/services/eventService.ts:183 | With capacity 0, every join is `going` and the count grows by one. |
| Attendance.JoinKeepsCapacity | server/src/services/eventService.ts:177-187 | A join never takes a capped event's `going` count above its capacity. |
| Attendance.GoingCountAfterInsert | server/src/services/eventService.ts:178-187 | Adding a record raises the `going` count by one exactly when the record is `going`. |
| Attendance.GoingCountAfterRemove | server/src/services/eventService.ts:199 | Deleting a record lowers the `going` count by one exactly when the record was `going`. |
| Attendance.MinimumJoinExists | server/src/services/eventService.ts:225-229 | Every non-empty set of waitlisted users has one with the smallest join time. |
| Attendance.EarliestWaitlistedExists | server/src/services/eventService.ts:225-231 | The waitlist query returns a record if and only if the waitlist is non-empty. |
| Attendance.EarliestWaitlistedUnique | server/src/services/eventService.ts:225-229 | With distinct join times, the record the query returns is unique. |
| Attendance.EarliestWaitlisted | server/src/services/eventService.ts:225-232 | The result is none exactly when nobody is waitlisted. Otherwise it is a waitlisted user whose join time is not later than any other waitlisted user's. |
| Attendance.Promote | server/src/services/eventService.ts:221-238 | Promotion changes no key, no user id and no join time, and leaves a table without waitlisted users as it is. Which record it promotes is stated by `Attendance.PromotesEarliest`. |
| Attendance.PromotesEarliest | server/src/services/eventService.ts:225-236 | With distinct join times, promotion sets exactly the earliest-joined waitlisted record to `going`, stamped with the promotion time, and changes nothing else. |
| Attendance.WaitlistAfterPromote | server/src/services/eventService.ts:225-236 | A promotion removes exactly the earliest waitlisted user from the waitlist, and does nothing when nobody waits. |
| Attendance.GoingCount | server/src/services/eventService.ts:178-179 | No contract of its own: `Attendance.GoingCountAfterInsert` and `Attendance.GoingCountAfterRemove` state how the count of `going` records moves. |
| Attendance.StatusOnJoin | server/src/services/eventService.ts:183 | No contract of its own: the status rule is stated by `Attendance.Join` (waitlisted if and only if capped and full) and `Attendance.UnlimitedJoinIsGoing`. |
| Attendance.GoingCountAfterPromote | server/src/services/eventService.ts:231-236 | A promotion adds one `going` record exactly when the waitlist is non-empty. |
| Attendance.PromoteKeepsWellFormed | server/src/services/eventService.ts:233-236 | A promotion keeps records keyed by user id, with distinct join times earlier than the clock. |
| Attendance.Leave | server/src/services/eventService.ts:190-206 | A user without a record gets `NotAttending`, and only such a user does. A user with a record always leaves successfully: the user's record is gone and no other key is added or removed. |
| Attendance.LeaveFromWaitlistPromotesNobody | server/src/services/eventService.ts:199-205 | A user who was not `going` leaves: only that record is deleted, and the `going` count is unchanged. |
| Attendance.LeaveWhileGoingPromotesEarliest | server/src/services/eventService.ts:199-236 | A `going` user leaves: the record is deleted and the earliest waitlisted record becomes `going`, stamped with the leave time. Nothing else changes and the `going` count is unchanged. |
| Attendance.LeaveWhileGoingEmptyWaitlist | server/src/services/eventService.ts:199-205 | A `going` user leaves with an empty waitlist: only the record is deleted, and the count falls by one. |
| Attendance.LeaveNeverAddsGoing | server/src/services/eventService.ts:190-238 | A leave never raises the `going` count. |
| Attendance.NoOvertaking | server/src/services/eventService.ts:177-187 | No contract of its own: while anyone waits, the `going` count is at least the capacity; `Attendance.RunKeepsNoOvertaking` states that joins and leaves keep it and `Attendance.RaisedCapacityOvertakes` that a capacity raise breaks it. |
| Attendance.NewcomerQueues | server/src/services/eventService.ts:177-187 | On a capped event where someone waits and the `going` count is at the capacity, a newcomer's join succeeds and is waitlisted. |
| Attendance.JoinKeepsNoOvertaking | server/src/services/eventService.ts:177-187 | On a capped event, a join keeps "while anyone waits, the `going` count is at least the capacity". |
| Attendance.LeaveKeepsNoOvertaking | server/src/services/eventService.ts:190-238 | A leave, with its promotion, keeps "while anyone waits, the `going` count is at least the capacity". |
| Attendance.RunKeepsNoOvertaking | server/src/services/eventService.ts:159-238 | Any sequence of joins and leaves on a capped event keeps that property, so no newcomer is seated ahead of a waiting user. |
| Attendance.RaisedCapacityOvertakes | server/src/services/eventService.ts:95-188 | With one seat taken and one user waiting, raising the capacity from 1 to 2 breaks the property, and a newcomer's join is then `going` while the earlier user still waits. |
| Attendance.LeaveIsFifo | server/src/services/eventService.ts:221-238 | While an earlier-joined waitlisted user remains, a later-joined waitlisted user is not promoted by anyone else leaving. |
| Attendance.JoinKeepsWellFormed | server/src/services/eventService.ts:181-187 | A successful join keeps the store invariant at the next clock tick. |
| Attendance.LeaveKeepsWellFormed | server/src/services/eventService.ts:190-206 | A successful leave keeps the store invariant at the next clock tick. |
| Attendance.RunKeepsCapacity | server/src/services/eventService.ts:159-238 | For a capped event within its capacity, any sequence of joins and leaves leaves it within its capacity. |
| Attendance.RunKeepsWellFormed | server/src/services/eventService.ts:159-238 | Any sequence of joins and leaves keeps the store invariant, with the clock advanced by the number of requests. |
| Attendance.TwoSeatJoins | server/src/services/eventService.ts:159-188 | With capacity 2, users A and B join as `going`, and C joins as waitlisted. |
| Attendance.TwoSeatLeave | server/src/services/eventService.ts:190-238 | Then A leaves: C is promoted with a stamp, and two users are `going` again. |
| Attendance.CollectRecords | server/src/services/eventService.ts:208-213 | Reads every record of the sub-collection exactly once. The result has distinct join times. |
| Attendance.ListByJoinTime | server/src/services/eventService.ts:208-219 | Returns every record of the table, each once, in strictly increasing join time. |
| Sorting.InsertBy | server/src/services/eventService.ts:276 | Inserting an element yields one more element and the same multiset plus that element. |
| Sorting.SortBy | server/src/services/eventService.ts:276 | Sorting yields a permutation of its input. |
| Sorting.InsertBySorted | server/src/services/eventService.ts:276 | Inserting into a sorted sequence keeps it sorted. |
| Sorting.InsertByStrictlySorted | server/src/services/eventService.ts:212 | Inserting a new key into a strictly sorted sequence keeps it strictly sorted. |
| Sorting.InsertByStable | server/src/services/eventService.ts:276 | Inserting into a sorted sequence places the new element after every element with the same key; for each key, the elements with that key are those of the input followed by the new one. |
| Sorting.WithKeySnoc | server/src/services/eventService.ts:276 | Selecting the elements with one key from a non-empty sequence selects from all but the last element and then the last one. |
| Sorting.SortByStable | server/src/services/eventService.ts:276 | The sort is stable: for every key, the elements with that key appear in the result in their input order. |
| Sorting.SortBySorted | server/src/services/eventService.ts:212-276 | The sort's result is sorted by key, and strictly sorted when the input keys are distinct. |
| Events.EditEvent | server/src/services/eventService.ts:95-138 | A missing event gives `EventNotFound`. A caller other than the organizer gives `NotOrganizer`. For the organizer, the edit is refused exactly when now is later than one hour before the start and the update does not cancel. An accepted edit keeps the id, organizer and creation time, sets `updatedAt` to now, and keeps `removedBy` and `removalReason`. Each of title, description, category, address, capacity, start, end and status is taken from the update when it gives one, and is otherwise the stored value. |
| Events.ApplyUpdate | server/src/services/eventService.ts:118-130 | No contract of its own: each field the update gives overwrites the stored one and `updatedAt` becomes now, as stated by `Events.EditEvent`. |
| Events.CancelEvent | server/src/services/eventService.ts:140-157 | A missing event gives `EventNotFound` and a non-organizer gives `NotOrganizer`. Otherwise the document is unchanged except for status `cancelled` and `updatedAt`. |
| Events.RemovalReason | server/src/services/eventService.ts:292 | The recorded reason is never empty, and a non-empty given reason is kept. |
| Events.AdminCancelEvent | server/src/services/eventService.ts:281-295 | A missing event gives `EventNotFound`, and only a missing event fails. Otherwise the result is the document cancelled, with `removedBy`, the removal reason and `updatedAt` set. |
| Events.CancellationAlwaysAllowed | server/src/services/eventService.ts:112-116 | The organizer's cancelling update is accepted at any time, and the result is cancelled. |
| Events.EditAllowedBeforeWindow | server/src/services/eventService.ts:112-116 | Up to one hour before the start, any update by the organizer is accepted. |
| Events.OnlyOrganizerEdits | server/src/services/eventService.ts:107-110 | An accepted update or delete comes from the event's organizer. |
| Events.ThirtyMinutesBeforeStart | server/src/services/eventService.ts:112-116 | Thirty minutes before the start, a non-cancelling edit gives `EditWindowClosed`, and a cancel-only edit is accepted. |
| Events.CancelIsCancellingUpdate | server/src/services/eventService.ts:140-157 | `deleteEvent` makes the same document write, and fails under the same conditions, as an `updateEvent` carrying only `status: cancelled`. `NotOrganizer` stands for both "only the organizer can update" and "only the organizer can delete" messages; the return values (nothing for `deleteEvent`, the re-read event for `updateEvent`) are not modelled. |
| Events.AdminCancelExtendsCancel | server/src/services/eventService.ts:281-295 | An admin removal writes what an organizer delete writes, plus the two removal fields. |
| Events.CancelTwice | server/src/services/eventService.ts:153-156 | Cancelling a cancelled event keeps it cancelled and changes only `updatedAt`. |
| Events.UpdateCanReactivate | server/src/services/eventService.ts:114-121 | Before the edit window closes, the organizer can set a cancelled event back to `active`. |
| Events.Lower | server/src/services/eventService.ts:63 | Lower-casing keeps the length. |
| Events.LowerAt | server/src/services/eventService.ts:63 | Lower-casing works character by character. |
| Events.LowerIdempotent | server/src/services/eventService.ts:63-66 | Lower-casing twice is the same as lower-casing once. |
| Events.Contains | server/src/services/eventService.ts:65-66 | No contract of its own: `Events.ContainsIffOccurs` states that it holds exactly when the needle occurs at some position. |
| Events.Matches | server/src/services/eventService.ts:64-66 | No contract of its own: `Events.SearchHitHasOccurrence` and `Events.SearchIgnoresCase` state what a match means. |
| Events.ContainsIffOccurs | server/src/services/eventService.ts:65-66 | `includes` holds exactly when the needle occurs at some position. |
| Events.KeepMatching | server/src/services/eventService.ts:64-67 | The filter keeps exactly the matching events and never lengthens the list. |
| Events.SearchFilter | server/src/services/eventService.ts:61-68 | An absent or empty search keeps the list as it is. Otherwise the result holds exactly the events whose lower-cased title or description contains the lower-cased term. |
| Events.KeepMatchingAppend | server/src/services/eventService.ts:64-67 | Filtering a concatenation gives the concatenation of the filtered parts, so the filter keeps the input order. |
| Events.SearchFilterIsOrderedFilter | server/src/services/eventService.ts:61-68 | With a non-empty term, one event is kept exactly when it matches, and a list is filtered piece by piece in its own order: the search is `events.filter` with that predicate. |
| Events.SearchIgnoresCase | server/src/services/eventService.ts:62-67 | A term and its lower-cased form select the same events. |
| Events.SearchHitHasOccurrence | server/src/services/eventService.ts:64-67 | A kept event has the lower-cased term at some position of its lower-cased title or description. |
| Validation.JoiString | server/src/middleware/validation.ts:33-35 | No contract of its own: a required Joi string with optional `min`/`max`, empty only when allowed; `Validation.SignUpLengths` and `Validation.AcceptedEventBody` state the bounds it enforces. |
| Validation.IsInteger | server/src/middleware/validation.ts:43 | No contract of its own: `Validation.CapacityOutOfRangeRejected` shows a fractional capacity is refused. |
| Validation.CreateEventSchema | server/src/middleware/validation.ts:32-46 | No contract of its own: `Validation.AcceptedEventBody` and `Validation.CreateEventBodyAccepted` state the bounds it accepts, in both directions. |
| Validation.ValidateCreateEvent | server/src/middleware/validation.ts:31-67 | The body is accepted exactly when the schema holds and now < start < end. It is rejected for end-not-after-start exactly when the schema holds and end <= start. It is rejected as being in the past exactly when the schema holds, start < end, and start <= now. |
| Validation.AcceptedEventBody | server/src/middleware/validation.ts:31-67 | An accepted body has a title of 1..80 characters, a description of 1..4000, a non-empty category and address, an integral capacity in 0..500, and now < start < end. |
| Validation.CreateEventBodyAccepted | server/src/middleware/validation.ts:31-67 | Conversely, every body meeting those bounds is accepted. |
| Validation.CapacityOutOfRangeRejected | server/src/middleware/validation.ts:43 | A capacity of 2.5 or 501 is a schema violation. |
| Validation.ValidateSignUp | server/src/middleware/validation.ts:4-16 | No contract of its own: `Validation.SignUpLengths` states exactly which bodies it accepts. |
| Validation.SignUpLengths | server/src/middleware/validation.ts:4-16 | With a valid email, sign-up accepts exactly a password of at least 6 characters and a display name of 2..50. |
| Validation.ValidateSignIn | server/src/middleware/validation.ts:18-29 | No contract of its own: `Validation.SignInNeedsPassword` states exactly which bodies it accepts. |
| Validation.SignInNeedsPassword | server/src/middleware/validation.ts:18-29 | With a valid email, sign-in accepts exactly a non-empty password. |
| Validation.ValidateUpdateProfile | server/src/middleware/validation.ts:69-80 | No contract of its own: `Validation.UpdateProfileLengths` states exactly which bodies it accepts. |
| Validation.UpdateProfileLengths | server/src/middleware/validation.ts:69-80 | A profile update is accepted exactly when any display name has 2..50 characters and any bio has at most 500, the empty bio included. |
| Validation.SignUpNameFitsProfile | server/src/middleware/validation.ts:69-80 | Every display name accepted at sign-up is accepted by a later profile update. |
| Service.EventService.constructor | server/src/services/eventService.ts:5-6 | The store starts empty, valid and within capacity. |
| Service.EventService.CreateEvent | server/src/services/eventService.ts:8-29 | Stores an active document under the fresh id, with `createdAt` = `updatedAt` = now and no attendees. Nothing else changes, and the capacity bound is kept. |
| Service.EventService.JoinEvent | server/src/services/eventService.ts:159-188 | Fails with `Join`'s error and no change, or replaces this event's sub-collection by `Join`'s table and advances the clock. Keeps the store invariant and the capacity bound. |
| Service.EventService.PromoteFromWaitlist | server/src/services/eventService.ts:221-238 | Replaces the event's sub-collection by `Promote` of it at the current clock; nothing else changes. |
| Service.EventService.DeleteRecord | server/src/services/eventService.ts:199 | Removes exactly the user's record from an existing sub-collection; nothing else changes and the store invariant is kept. |
| Service.EventService.LeaveEvent | server/src/services/eventService.ts:190-206 | Fails with `NotAttending` and no change, or replaces the sub-collection by `Leave`'s table and advances the clock. Keeps the store invariant and the capacity bound. |
| Service.EventService.GetEventAttendees | server/src/services/eventService.ts:208-219 | Returns every record of the event once, in strictly increasing join time. |
| Service.EventService.UpdateEvent | server/src/services/eventService.ts:95-138 | Returns `EditEvent`'s result. On success it stores the edited document; on failure nothing changes. An update that leaves capacity alone keeps the capacity bound. |
| Service.EventService.DeleteEvent | server/src/services/eventService.ts:140-157 | Stores `CancelEvent`'s document or fails with its error. No document is removed, and the capacity bound is kept. |
| Service.EventService.AdminDeleteEvent | server/src/services/eventService.ts:281-295 | Stores `AdminCancelEvent`'s document or fails with `EventNotFound`. No document is removed, and the capacity bound is kept. |
| Service.EventService.CollectAttending | server/src/services/eventService.ts:259-274 | Collects, each once, exactly the stored events in which the user's record is `going`. |
| Service.EventService.GetAttendingEvents | server/src/services/eventService.ts:257-277 | Returns exactly the events where the user is `going`, each once, ordered by start time. |

## Left out

- Firestore plumbing is not modelled: collection references, `get`/`set`/`update` calls,
  `toDate()` conversions and `ulid()`. The store is a map, and a new event's id is a parameter
  that must be fresh.
- The query part of `getEvents` is not modelled: `status == 'active'`, `startTime > now`, the
  category filter, the ordering, and `limit`/`offset`. Only the text-search step is.
- Further operations are not modelled: `getUserEvents` in organized mode (a plain query),
  `getEventById`, `getAllEventsForModeration`, `flagEvent`, and the rest of the service file
  after line 295.
- Concurrency is not modelled. The model treats each operation as one atomic step, so the
  count-then-write race in `joinEvent` and the delete-then-promote race in `leaveEvent` are not
  captured.
- Joi's `email()` and `isoDate()` format checks are a boolean parameter, or dates given as
  milliseconds. Joi's latitude/longitude ranges are floating point and are not modelled.
- Joi's rejection of unknown keys is not modelled.
- Events.EditEvent: the model assumes the update body has the `UpdateEventRequest` shape, a
  partial create request plus `status` (server/src/types/index.ts:51-69). Its `location` is an
  object `{geoPoint, address}` replaced as a whole; the model keeps only `location.address`, as
  `address`, and has no `geoPoint`. The PUT route has no validator, and `updateEvent` spreads the
  raw body into the document write. A body carrying `organizerUid`, `id`, `createdAt`,
  `removedBy` or `removalReason` overwrites those fields too; an organizer could, for example, hand the event to another user.
  The model cannot express this, so its promise that the id, organizer, creation time and removal
  fields survive an edit holds only for bodies of that shape. For the same reason a new capacity
  is an integer here, while the unvalidated body can store any JavaScript number: after a stored
  capacity of 2.5, the `currentAttendees >= event.capacity` test first waitlists at a count of 3,
  so three users are `going`, above the capacity. The model does not capture fractional
  capacities written through an edit.
- Validation.JoiString: lengths are counted in Unicode scalar values (`|s|`), while Joi's `min`
  and `max` count UTF-16 code units (`value.length`). A character outside the Basic Multilingual
  Plane, such as an emoji, counts once here and twice in the source. Every length bound (title
  80, description 4000, password 6, display name 2..50, bio 500) is therefore checked on
  code points, not code units.
- `toLowerCase` is modelled on ASCII letters only, with no Unicode case mapping.
- Service.EventService.GetAttendingEvents: events with equal start times come back in no stated
  order. The sort is stable, but the scan that feeds it picks events in an arbitrary order,
  whereas the source scans the collection in document-id order.
- The millisecond `joinedAt` and `promotedAt` are replaced by a logical clock. Two joins in the
  same millisecond are ordered by document id in Firestore, and the model assumes distinct stamps
  instead.
- Service.EventService.UpdateEvent: does not promise the capacity bound when the update changes
  capacity, because the source does not check a new capacity against the `going` count.
- HTTP controllers, routes, authentication, the user and category services, and the client
  application are not part of this model.
