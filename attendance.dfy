/** The attendee sub-collection of one event (`events/{eventId}/attendees/{uid}`) and the
    decisions `joinEvent`, `leaveEvent` and `promoteFromWaitlist` take on it, as functions of
    the table. The class in module Service performs them in place. */
module Attendance {
  import opened Common
  import Sorting

  datatype Status = Going | Waitlist | Declined

  /** One attendee document. `joinedAt` and `promotedAt` are logical timestamps. */
  datatype Attendee = Attendee(uid: Uid, status: Status, joinedAt: int, promotedAt: Option<int>)

  /** The sub-collection, keyed by user id: at most one record per user by construction. */
  type Table = map<Uid, Attendee>

  /** Every record is filed under its own uid. */
  ghost predicate KeyedByUid(t: Table) {
    forall u :: u in t ==> t[u].uid == u
  }

  /** No two records share a join time. */
  ghost predicate DistinctJoins(t: Table) {
    forall u, v :: u in t && v in t && u != v ==> t[u].joinedAt != t[v].joinedAt
  }

  /** The store invariant: records keyed by uid, join times distinct and earlier than `clock`. */
  ghost predicate WellFormed(t: Table, clock: int) {
    && KeyedByUid(t)
    && DistinctJoins(t)
    && forall u :: u in t ==> t[u].joinedAt < clock
  }

  /** The users whose record says `going`: what `where('status', '==', 'going')` selects. */
  function GoingSet(t: Table): set<Uid> {
    set u | u in t.Keys && t[u].status == Going
  }

  /** The `.size` of that query. */
  function GoingCount(t: Table): nat {
    |GoingSet(t)|
  }

  predicate IsWaitlisted(t: Table, u: Uid) {
    u in t && t[u].status == Waitlist
  }

  function WaitlistSet(t: Table): set<Uid> {
    set u | u in t.Keys && t[u].status == Waitlist
  }

  /** `u` is what `where('status', '==', 'waitlist').orderBy('joinedAt', 'asc').limit(1)` returns. */
  predicate IsEarliestWaitlisted(t: Table, u: Uid) {
    && IsWaitlisted(t, u)
    && forall v :: v in t && t[v].status == Waitlist ==> t[u].joinedAt <= t[v].joinedAt
  }

  /** The status a new record gets: waitlisted exactly when the event is capped and full. */
  function StatusOnJoin(capacity: int, going: nat): Status {
    if capacity > 0 && going >= capacity then Waitlist else Going
  }

  /** `joinEvent` on this table. `capacity` is that of the event document, `None` when the
      event does not exist; `at` is the join time. The duplicate check comes first. */
  function Join(t: Table, capacity: Option<int>, uid: Uid, at: int): (r: Result<Table>)
    ensures uid in t ==> r == Err(AlreadyJoined)
    ensures uid !in t && capacity.None? ==> r == Err(EventNotFound)
    ensures r.Ok? <==> uid !in t && capacity.Some?
    ensures r.Ok? ==> r.value.Keys == t.Keys + {uid}
    ensures r.Ok? ==> forall v :: v in t ==> r.value[v] == t[v]
    ensures r.Ok? ==> r.value[uid].uid == uid && r.value[uid].joinedAt == at && r.value[uid].promotedAt == None
    ensures r.Ok? ==> (r.value[uid].status == Waitlist <==> capacity.value > 0 && GoingCount(t) >= capacity.value)
    ensures r.Ok? ==> r.value[uid].status != Declined
  {
    if uid in t then Err(AlreadyJoined)
    else if capacity.None? then Err(EventNotFound)
    else Ok(t[uid := Attendee(uid, StatusOnJoin(capacity.value, GoingCount(t)), at, None)])
  }

  /** Some waitlisted record has the smallest join time among those in `s`. */
  lemma {:induction false} MinimumJoinExists(t: Table, s: set<Uid>)
    requires s <= WaitlistSet(t) && s != {}
    ensures exists u :: u in s && forall v :: v in s ==> t[u].joinedAt <= t[v].joinedAt
    decreases |s|
  {
    var x :| x in s;
    if s != {x} {
      MinimumJoinExists(t, s - {x});
      var u :| u in s - {x} && forall v :: v in s - {x} ==> t[u].joinedAt <= t[v].joinedAt;
      if t[x].joinedAt < t[u].joinedAt {
        assert forall v :: v in s ==> t[x].joinedAt <= t[v].joinedAt;
      } else {
        assert forall v :: v in s ==> t[u].joinedAt <= t[v].joinedAt;
      }
    }
  }

  /** A non-empty waitlist has an earliest entry. */
  lemma EarliestWaitlistedExists(t: Table)
    ensures WaitlistSet(t) != {} <==> exists u :: u in t && IsEarliestWaitlisted(t, u)
  {
    if WaitlistSet(t) != {} {
      MinimumJoinExists(t, WaitlistSet(t));
      var u :| u in WaitlistSet(t) && forall v :: v in WaitlistSet(t) ==> t[u].joinedAt <= t[v].joinedAt;
      assert forall v :: v in t && t[v].status == Waitlist ==> v in WaitlistSet(t);
      assert IsEarliestWaitlisted(t, u);
    } else {
      forall u | u in t ensures !IsEarliestWaitlisted(t, u) {
        assert u !in WaitlistSet(t);
      }
    }
  }

  /** With distinct join times the earliest waitlisted entry is unique: FIFO is well defined. */
  lemma EarliestWaitlistedUnique(t: Table, u: Uid, w: Uid)
    requires DistinctJoins(t)
    requires IsEarliestWaitlisted(t, u) && IsEarliestWaitlisted(t, w)
    ensures u == w
  {
  }

  /** The record the waitlist query returns, if any. */
  ghost function EarliestWaitlisted(t: Table): (r: Option<Uid>)
    ensures r.None? <==> WaitlistSet(t) == {}
    ensures r.Some? ==> IsEarliestWaitlisted(t, r.value)
  {
    EarliestWaitlistedExists(t);
    if WaitlistSet(t) == {} then None
    else
      var u :| u in t && IsEarliestWaitlisted(t, u);
      Some(u)
  }

  /** `promoteFromWaitlist`: the earliest waitlisted record becomes `going`, stamped with `at`. */
  ghost function Promote(t: Table, at: int): (r: Table)
    ensures r.Keys == t.Keys
    ensures forall u :: u in t ==> r[u].uid == t[u].uid && r[u].joinedAt == t[u].joinedAt
    ensures WaitlistSet(t) == {} ==> r == t
  {
    match EarliestWaitlisted(t)
    case None => t
    case Some(w) => t[w := t[w].(status := Going, promotedAt := Some(at))]
  }

  /** `leaveEvent` on this table: the record is deleted and, if it was `going`, the earliest
      waitlisted record is promoted at time `at`. The event document is not consulted. */
  ghost function Leave(t: Table, uid: Uid, at: int): (r: Result<Table>)
    ensures uid !in t <==> r == Err(NotAttending)
    ensures r.Err? <==> uid !in t
    ensures r.Err? ==> r.error == NotAttending
    ensures r.Ok? ==> uid !in r.value && r.value.Keys == t.Keys - {uid}
  {
    if uid !in t then Err(NotAttending)
    else
      var rest := t - {uid};
      Ok(if t[uid].status == Going then Promote(rest, at) else rest)
  }

  // ---------------------------------------------------------------------------------------
  // Counting `going` records

  lemma GoingCountAfterInsert(t: Table, u: Uid, a: Attendee)
    requires u !in t
    ensures GoingCount(t[u := a]) == GoingCount(t) + (if a.status == Going then 1 else 0)
  {
    if a.status == Going {
      assert GoingSet(t[u := a]) == GoingSet(t) + {u};
    } else {
      assert GoingSet(t[u := a]) == GoingSet(t);
    }
  }

  lemma GoingCountAfterRemove(t: Table, u: Uid)
    requires u in t
    ensures GoingCount(t - {u}) == GoingCount(t) - (if t[u].status == Going then 1 else 0)
  {
    if t[u].status == Going {
      assert GoingSet(t - {u}) == GoingSet(t) - {u};
    } else {
      assert GoingSet(t - {u}) == GoingSet(t);
    }
  }

  /** A promotion flips exactly the earliest waitlisted record to `going`, stamped with `at`. */
  lemma PromotesEarliest(t: Table, w: Uid, at: int)
    requires DistinctJoins(t) && IsEarliestWaitlisted(t, w)
    ensures Promote(t, at) == t[w := t[w].(status := Going, promotedAt := Some(at))]
  {
    var e := EarliestWaitlisted(t);
    assert w in WaitlistSet(t);
    EarliestWaitlistedUnique(t, e.value, w);
  }

  /** A promotion removes its record, and only that one, from the waitlist. */
  lemma WaitlistAfterPromote(t: Table, at: int)
    ensures EarliestWaitlisted(t).Some? ==>
      WaitlistSet(Promote(t, at)) == WaitlistSet(t) - {EarliestWaitlisted(t).value}
    ensures EarliestWaitlisted(t).None? ==> Promote(t, at) == t
  {
  }

  /** A promotion adds one `going` record exactly when the waitlist is non-empty. */
  lemma GoingCountAfterPromote(t: Table, at: int)
    ensures GoingCount(Promote(t, at)) == GoingCount(t) + (if WaitlistSet(t) != {} then 1 else 0)
  {
    match EarliestWaitlisted(t)
    case None =>
    case Some(w) =>
      assert GoingSet(Promote(t, at)) == GoingSet(t) + {w};
  }

  /** Join status rule and count: the new record is `going` unless the event is capped and
      full, in which case the `going` count is unchanged. */
  lemma JoinGoingCount(t: Table, capacity: int, uid: Uid, at: int)
    requires uid !in t
    ensures Join(t, Some(capacity), uid, at).Ok?
    ensures var r := Join(t, Some(capacity), uid, at).value;
      GoingCount(r) == if capacity > 0 && GoingCount(t) >= capacity then GoingCount(t) else GoingCount(t) + 1
  {
    var a := Attendee(uid, StatusOnJoin(capacity, GoingCount(t)), at, None);
    GoingCountAfterInsert(t, uid, a);
  }

  /** A capacity of 0 means unlimited: every join is `going`. */
  lemma UnlimitedJoinIsGoing(t: Table, uid: Uid, at: int)
    requires uid !in t
    ensures var r := Join(t, Some(0), uid, at);
      r.Ok? && r.value[uid].status == Going && GoingCount(r.value) == GoingCount(t) + 1
  {
    JoinGoingCount(t, 0, uid, at);
  }

  /** A join never takes a capped event above its capacity. */
  lemma JoinKeepsCapacity(t: Table, capacity: int, uid: Uid, at: int)
    requires capacity > 0 && GoingCount(t) <= capacity
    ensures match Join(t, Some(capacity), uid, at)
      case Ok(r) => GoingCount(r) <= capacity
      case Err(_) => true
  {
    if uid !in t {
      JoinGoingCount(t, capacity, uid, at);
    }
  }

  /** Leaving while on the waitlist (or `declined`) never promotes anyone: only the record goes. */
  lemma LeaveFromWaitlistPromotesNobody(t: Table, uid: Uid, at: int)
    requires uid in t && t[uid].status != Going
    ensures Leave(t, uid, at) == Ok(t - {uid})
    ensures GoingCount(Leave(t, uid, at).value) == GoingCount(t)
  {
    GoingCountAfterRemove(t, uid);
  }

  /** Leaving while `going`: exactly the earliest waitlisted record of the others becomes
      `going`, and nothing else changes. */
  lemma LeaveWhileGoingPromotesEarliest(t: Table, uid: Uid, w: Uid, at: int)
    requires DistinctJoins(t)
    requires uid in t && t[uid].status == Going
    requires IsEarliestWaitlisted(t, w)
    ensures Leave(t, uid, at) == Ok((t - {uid})[w := t[w].(status := Going, promotedAt := Some(at))])
    ensures GoingCount(Leave(t, uid, at).value) == GoingCount(t)
  {
    var rest := t - {uid};
    assert IsEarliestWaitlisted(rest, w);
    PromotesEarliest(rest, w, at);
    GoingCountAfterRemove(t, uid);
    GoingCountAfterPromote(rest, at);
  }

  /** Leaving while `going` with an empty waitlist frees one seat and changes nothing else. */
  lemma LeaveWhileGoingEmptyWaitlist(t: Table, uid: Uid, at: int)
    requires uid in t && t[uid].status == Going
    requires WaitlistSet(t) == {}
    ensures Leave(t, uid, at) == Ok(t - {uid})
    ensures GoingCount(Leave(t, uid, at).value) == GoingCount(t) - 1
  {
    var rest := t - {uid};
    assert WaitlistSet(rest) == {} by {
      assert WaitlistSet(rest) <= WaitlistSet(t);
    }
    GoingCountAfterRemove(t, uid);
  }

  /** A leave never raises the `going` count, so it keeps any capacity bound. */
  lemma LeaveNeverAddsGoing(t: Table, uid: Uid, at: int)
    ensures match Leave(t, uid, at)
      case Ok(r) => GoingCount(r) <= GoingCount(t)
      case Err(_) => true
  {
    if uid in t {
      var rest := t - {uid};
      GoingCountAfterRemove(t, uid);
      if t[uid].status == Going {
        GoingCountAfterPromote(rest, at);
      }
    }
  }

  /** The waitlist is first in, first out: while an earlier waitlisted user `u` stays, a later
      one `v` is not promoted by anyone leaving. */
  lemma LeaveIsFifo(t: Table, x: Uid, u: Uid, v: Uid, at: int)
    requires IsWaitlisted(t, u) && IsWaitlisted(t, v)
    requires t[u].joinedAt < t[v].joinedAt
    requires x in t && x != u && x != v
    ensures Leave(t, x, at).Ok?
    ensures Leave(t, x, at).value[v] == t[v]
  {
    var rest := t - {x};
    if t[x].status == Going {
      match EarliestWaitlisted(rest)
      case None =>
      case Some(w) =>
        assert IsWaitlisted(rest, u);
        assert w != v;
    }
  }

  // ---------------------------------------------------------------------------------------
  // Nobody overtakes the waitlist

  /** At capacity `c`, users wait only while every seat is taken: a non-empty waitlist means at
      least `c` records are `going`. */
  ghost predicate NoOvertaking(t: Table, c: int) {
    WaitlistSet(t) != {} ==> GoingCount(t) >= c
  }

  /** A newcomer to a capped event with people waiting is waitlisted behind them. */
  lemma NewcomerQueues(t: Table, c: int, uid: Uid, at: int)
    requires c > 0 && NoOvertaking(t, c) && WaitlistSet(t) != {} && uid !in t
    ensures Join(t, Some(c), uid, at).Ok? && Join(t, Some(c), uid, at).value[uid].status == Waitlist
  {
  }

  lemma JoinKeepsNoOvertaking(t: Table, c: int, uid: Uid, at: int)
    requires c > 0 && NoOvertaking(t, c)
    ensures match Join(t, Some(c), uid, at)
      case Ok(r) => NoOvertaking(r, c)
      case Err(_) => true
  {
    if uid !in t {
      var r := Join(t, Some(c), uid, at).value;
      JoinGoingCount(t, c, uid, at);
      if r[uid].status == Going {
        assert WaitlistSet(r) == WaitlistSet(t);
      }
    }
  }

  lemma LeaveKeepsNoOvertaking(t: Table, c: int, uid: Uid, at: int)
    requires NoOvertaking(t, c)
    ensures match Leave(t, uid, at)
      case Ok(r) => NoOvertaking(r, c)
      case Err(_) => true
  {
    if uid in t {
      var rest := t - {uid};
      GoingCountAfterRemove(t, uid);
      assert WaitlistSet(rest) <= WaitlistSet(t);
      if t[uid].status == Going {
        WaitlistAfterPromote(rest, at);
        GoingCountAfterPromote(rest, at);
      }
    }
  }

  /** For a capped event, no sequence of joins and leaves lets a user be `going` while a seat is
      free and someone waits. */
  lemma {:induction false} RunKeepsNoOvertaking(t: Table, c: int, reqs: seq<Request>, clock: int)
    requires c > 0 && NoOvertaking(t, c)
    ensures NoOvertaking(Run(t, c, reqs, clock), c)
    decreases |reqs|
  {
    if reqs != [] {
      match reqs[0] {
        case JoinRequest(u) => JoinKeepsNoOvertaking(t, c, u, clock);
        case LeaveRequest(u) => LeaveKeepsNoOvertaking(t, c, u, clock);
      }
      RunKeepsNoOvertaking(Step(t, c, reqs[0], clock), c, reqs[1..], clock + 1);
    }
  }

  /** Raising the capacity promotes nobody, so the queue can be overtaken: at capacity 1 with `a`
      going and `b` waiting, once the capacity becomes 2 a newcomer `n` joins as `going` while `b`
      still waits. */
  lemma RaisedCapacityOvertakes(a: Uid, b: Uid, n: Uid)
    requires a != b && b != n && a != n
    ensures var t := map[a := Attendee(a, Going, 0, None), b := Attendee(b, Waitlist, 1, None)];
      && NoOvertaking(t, 1)
      && !NoOvertaking(t, 2)
      && Join(t, Some(2), n, 2) == Ok(t[n := Attendee(n, Going, 2, None)])
  {
    var t := map[a := Attendee(a, Going, 0, None), b := Attendee(b, Waitlist, 1, None)];
    assert GoingSet(t) == {a};
    assert b in WaitlistSet(t);
  }

  // ---------------------------------------------------------------------------------------
  // The store invariant

  lemma JoinKeepsWellFormed(t: Table, capacity: Option<int>, uid: Uid, clock: int)
    requires WellFormed(t, clock)
    ensures match Join(t, capacity, uid, clock)
      case Ok(r) => WellFormed(r, clock + 1)
      case Err(_) => true
  {
  }

  /** A promotion changes a status and a promotion stamp, never a join time. */
  lemma PromoteKeepsWellFormed(t: Table, clock: int, at: int)
    requires WellFormed(t, clock)
    ensures WellFormed(Promote(t, at), clock)
  {
    match EarliestWaitlisted(t)
    case None =>
    case Some(w) =>
      assert forall u :: u in Promote(t, at) ==> Promote(t, at)[u].joinedAt == t[u].joinedAt;
  }

  lemma LeaveKeepsWellFormed(t: Table, uid: Uid, clock: int)
    requires WellFormed(t, clock)
    ensures match Leave(t, uid, clock)
      case Ok(r) => WellFormed(r, clock + 1)
      case Err(_) => true
  {
    if uid in t && t[uid].status == Going {
      PromoteKeepsWellFormed(t - {uid}, clock, clock);
    }
  }

  // ---------------------------------------------------------------------------------------
  // Sequential runs of join and leave requests on one event

  datatype Request = JoinRequest(uid: Uid) | LeaveRequest(uid: Uid)

  /** One request against an existing event; a failed request leaves the table as it was. */
  ghost function Step(t: Table, capacity: int, req: Request, at: int): Table {
    var r := match req
      case JoinRequest(u) => Join(t, Some(capacity), u, at)
      case LeaveRequest(u) => Leave(t, u, at);
    if r.Ok? then r.value else t
  }

  /** The requests served one after the other, the clock advancing by one per request. */
  ghost function Run(t: Table, capacity: int, reqs: seq<Request>, clock: int): Table
    decreases |reqs|
  {
    if reqs == [] then t else Run(Step(t, capacity, reqs[0], clock), capacity, reqs[1..], clock + 1)
  }

  /** Capacity bound: for a capped event, no sequence of joins and leaves takes the number of
      `going` records above the capacity. */
  lemma {:induction false} RunKeepsCapacity(t: Table, capacity: int, reqs: seq<Request>, clock: int)
    requires capacity > 0 && GoingCount(t) <= capacity
    ensures GoingCount(Run(t, capacity, reqs, clock)) <= capacity
    decreases |reqs|
  {
    if reqs != [] {
      match reqs[0] {
        case JoinRequest(u) => JoinKeepsCapacity(t, capacity, u, clock);
        case LeaveRequest(u) => LeaveNeverAddsGoing(t, u, clock);
      }
      RunKeepsCapacity(Step(t, capacity, reqs[0], clock), capacity, reqs[1..], clock + 1);
    }
  }

  /** The store invariant holds after any sequence of joins and leaves. */
  lemma {:induction false} RunKeepsWellFormed(t: Table, capacity: int, reqs: seq<Request>, clock: int)
    requires WellFormed(t, clock)
    ensures WellFormed(Run(t, capacity, reqs, clock), clock + |reqs|)
    decreases |reqs|
  {
    if reqs != [] {
      match reqs[0] {
        case JoinRequest(u) => JoinKeepsWellFormed(t, Some(capacity), u, clock);
        case LeaveRequest(u) => LeaveKeepsWellFormed(t, u, clock);
      }
      var next := Step(t, capacity, reqs[0], clock);
      assert WellFormed(next, clock + 1);
      RunKeepsWellFormed(next, capacity, reqs[1..], clock + 1);
    }
  }

  /** Capacity 2: users `a` and `b` join and are going, `c` joins and is waitlisted. */
  lemma TwoSeatJoins(a: Uid, b: Uid, c: Uid)
    requires a != b && b != c && a != c
    ensures var t1 := map[a := Attendee(a, Going, 0, None)];
      var t2 := t1[b := Attendee(b, Going, 1, None)];
      && Join(map[], Some(2), a, 0) == Ok(t1)
      && Join(t1, Some(2), b, 1) == Ok(t2)
      && Join(t2, Some(2), c, 2) == Ok(t2[c := Attendee(c, Waitlist, 2, None)])
  {
    var t0: Table := map[];
    var t1 := map[a := Attendee(a, Going, 0, None)];
    var t2 := t1[b := Attendee(b, Going, 1, None)];
    assert GoingSet(t0) == {};
    assert GoingSet(t1) == {a};
    assert GoingSet(t2) == {a, b};
  }

  /** ... then `a` leaves: `c` is promoted and two users are going again. */
  lemma TwoSeatLeave(a: Uid, b: Uid, c: Uid)
    requires a != b && b != c && a != c
    ensures var t3 := map[a := Attendee(a, Going, 0, None), b := Attendee(b, Going, 1, None),
                          c := Attendee(c, Waitlist, 2, None)];
      var t4 := map[b := Attendee(b, Going, 1, None), c := Attendee(c, Going, 2, Some(3))];
      Leave(t3, a, 3) == Ok(t4) && GoingCount(t4) == 2
  {
    var t3 := map[a := Attendee(a, Going, 0, None), b := Attendee(b, Going, 1, None),
                  c := Attendee(c, Waitlist, 2, None)];
    var t4 := map[b := Attendee(b, Going, 1, None), c := Attendee(c, Going, 2, Some(3))];
    assert Leave(t3, a, 3) == Ok(t4) by {
      assert DistinctJoins(t3) && IsEarliestWaitlisted(t3, c) by {
        assert t3.Keys == {a, b, c};
      }
      LeaveWhileGoingPromotesEarliest(t3, a, c, 3);
      assert (t3 - {a})[c := t3[c].(status := Going, promotedAt := Some(3))] == t4;
    }
    assert GoingCount(t4) == 2 by {
      assert GoingSet(t4) == {b, c};
    }
  }

  // ---------------------------------------------------------------------------------------
  // Listing

  function JoinKey(a: Attendee): int { a.joinedAt }

  /** The documents of the sub-collection, each record once, with distinct join times. */
  method CollectRecords(t: Table) returns (docs: seq<Attendee>)
    requires KeyedByUid(t) && DistinctJoins(t)
    ensures |docs| == |t|
    ensures forall a :: a in docs <==> a.uid in t && t[a.uid] == a
    ensures Sorting.DistinctKeys(docs, JoinKey)
  {
    docs := [];
    var todo := t.Keys;
    while todo != {}
      invariant todo <= t.Keys
      invariant |docs| + |todo| == |t|
      invariant forall a :: a in docs ==> a.uid in t && a.uid !in todo && t[a.uid] == a
      invariant forall u :: u in t && u !in todo ==> t[u] in docs
      invariant Sorting.DistinctKeys(docs, JoinKey)
      decreases |todo|
    {
      var u :| u in todo;
      assert forall i :: 0 <= i < |docs| ==> JoinKey(docs[i]) != JoinKey(t[u]) by {
        forall i | 0 <= i < |docs| ensures JoinKey(docs[i]) != JoinKey(t[u]) {
          assert docs[i] in docs;
        }
      }
      docs := docs + [t[u]];
      todo := todo - {u};
    }
  }

  /** `getEventAttendees`: every record of the table, once, in strictly increasing join order. */
  method ListByJoinTime(t: Table) returns (r: seq<Attendee>)
    requires KeyedByUid(t) && DistinctJoins(t)
    ensures |r| == |t|
    ensures forall i :: 0 <= i < |r| ==> r[i].uid in t && t[r[i].uid] == r[i]
    ensures forall u :: u in t ==> t[u] in r
    ensures forall i, j :: 0 <= i < j < |r| ==> r[i].joinedAt < r[j].joinedAt
  {
    var docs := CollectRecords(t);
    r := Sorting.SortBy(docs, JoinKey);
    assert Sorting.StrictlySortedBy(r, JoinKey) by {
      Sorting.SortBySorted(docs, JoinKey);
    }
    forall a | a in r ensures a in docs {
      assert a in multiset(r);
    }
    forall a | a in docs ensures a in r {
      assert a in multiset(docs);
    }
  }
}
