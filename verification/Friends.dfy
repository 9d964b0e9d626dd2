/**
  server/src/friends.rs: friend requests over one row per unordered pair of users. Each handler
  is one step; the last section says what happens when a request is not.
 */
module Friends {
  import opened Wrappers

  type UserId = nat

  type Pair = (UserId, UserId)

  datatype Status = Pending | Accepted

  datatype Row = Row(status: Status, requestedBy: UserId)

  type Rows = map<Pair, Row>

  datatype Reply = Sent | Done | SelfRequest | AlreadyFriends | AlreadySent | NotFound

  /** The storage form of a pair: the smaller id first. */
  function Ordered(a: UserId, b: UserId): Pair {
    if a <= b then (a, b) else (b, a)
  }

  /** A handler call by the first user about the second. */
  datatype Event = Request(me: UserId, other: UserId) | Accept(me: UserId, other: UserId) | Remove(me: UserId, other: UserId)

  function Applied(rows: Rows, e: Event): (Rows, Reply) {
    var p := Ordered(e.me, e.other);
    match e
    case Request(me, other) =>
      if other == me then (rows, SelfRequest)
      else if p !in rows then (rows[p := Row(Pending, me)], Sent)
      else if rows[p].status == Accepted then (rows, AlreadyFriends)
      else if rows[p].requestedBy == me then (rows, AlreadySent)
      else (rows[p := rows[p].(status := Accepted)], Done)
    case Accept(me, _) =>
      if p in rows && rows[p].status == Pending && rows[p].requestedBy != me
      then (rows[p := rows[p].(status := Accepted)], Done)
      else (rows, NotFound)
    case Remove(_, _) => (rows - {p}, Done)
  }

  class Friendships {
    var rows: Rows

    constructor ()
      ensures rows == map[]
    {
      rows := map[];
    }

    method SendRequest(me: UserId, target: UserId) returns (reply: Reply)
      modifies this
      ensures (rows, reply) == Applied(old(rows), Request(me, target))
    {
      if target == me {
        return SelfRequest;
      }
      var p := Ordered(me, target);
      if p in rows {
        var Row(status, requestedBy) := rows[p];
        if status == Accepted {
          return AlreadyFriends;
        }
        if requestedBy == me {
          return AlreadySent;
        }
        rows := rows[p := Row(Accepted, requestedBy)];
        return Done;
      }
      rows := rows[p := Row(Pending, me)];
      return Sent;
    }

    method AcceptRequest(me: UserId, other: UserId) returns (reply: Reply)
      modifies this
      ensures (rows, reply) == Applied(old(rows), Accept(me, other))
    {
      var p := Ordered(me, other);
      if p in rows && rows[p].status == Pending && rows[p].requestedBy != me {
        rows := rows[p := rows[p].(status := Accepted)];
        return Done;
      }
      return NotFound;
    }

    method RemoveFriend(me: UserId, other: UserId) returns (reply: Reply)
      modifies this
      ensures (rows, reply) == Applied(old(rows), Remove(me, other))
    {
      rows := rows - {Ordered(me, other)};
      return Done;
    }
  }

  // ---- Runs ------------------------------------------------------------------------------------------

  /** The rows after a history of handler calls that starts with an empty table. */
  function After(events: seq<Event>): Rows {
    if events == [] then map[]
    else Applied(After(events[..|events| - 1]), events[|events| - 1]).0
  }

  /** Rows are stored low id first, by one of the two users: at most one row per unordered pair. */
  ghost predicate Canonical(rows: Rows) {
    forall p :: p in rows ==> p.0 < p.1 && (rows[p].requestedBy == p.0 || rows[p].requestedBy == p.1)
  }

  lemma {:induction false} AlwaysCanonical(events: seq<Event>)
    ensures Canonical(After(events))
  {
    if events == [] {
    } else {
      AlwaysCanonical(events[..|events| - 1]);
    }
  }

  /** `x` has asked `y` since the pair was last removed. */
  predicate HasAsked(events: seq<Event>, x: UserId, y: UserId) {
    if events == [] then false
    else
      var e := events[|events| - 1];
      e == Request(x, y) || (!Removes(e, x, y) && HasAsked(events[..|events| - 1], x, y))
  }

  predicate Removes(e: Event, x: UserId, y: UserId) {
    e == Remove(x, y) || e == Remove(y, x)
  }

  /** Since the pair was last removed, `x` has asked `y`, and `y` then accepted or asked back. */
  predicate HasAgreed(events: seq<Event>, x: UserId, y: UserId) {
    if events == [] then false
    else
      var e, earlier := events[|events| - 1], events[..|events| - 1];
      (Consents(e, y, x) && HasAsked(earlier, x, y)) || (!Removes(e, x, y) && HasAgreed(earlier, x, y))
  }

  predicate Consents(e: Event, y: UserId, x: UserId) {
    e == Request(y, x) || e == Accept(y, x)
  }

  lemma OrderedSame(a: UserId, b: UserId, x: UserId, y: UserId)
    ensures Ordered(a, b) == Ordered(x, y) <==> (a == x && b == y) || (a == y && b == x)
  {
  }

  /** Handler calls about other pairs leave a row alone. */
  lemma OtherPair(rows: Rows, e: Event, x: UserId, y: UserId)
    requires Ordered(e.me, e.other) != Ordered(x, y)
    ensures var p := Ordered(x, y); var after := Applied(rows, e).0;
      (p in after <==> p in rows) && (p in rows ==> after[p] == rows[p])
  {
  }

  /** What a pair's row says about the history of the pair. */
  ghost predicate ExplainedBy(rows: Rows, events: seq<Event>, x: UserId, y: UserId) {
    var p := Ordered(x, y);
    if p !in rows then !HasAsked(events, x, y) && !HasAsked(events, y, x)
    else if rows[p].status == Accepted then HasAgreed(events, x, y) || HasAgreed(events, y, x)
    else if rows[p].requestedBy == x then HasAsked(events, x, y) && !HasAsked(events, y, x) && !HasAgreed(events, x, y)
    else rows[p].requestedBy == y && HasAsked(events, y, x) && !HasAsked(events, x, y) && !HasAgreed(events, y, x)
  }

  lemma {:induction false} AgreedAsked(events: seq<Event>, x: UserId, y: UserId)
    ensures HasAgreed(events, x, y) ==> HasAsked(events, x, y)
  {
    if events == [] {
    } else {
      AgreedAsked(events[..|events| - 1], x, y);
    }
  }

  lemma OneMoreEvent(events: seq<Event>, e: Event, x: UserId, y: UserId)
    ensures HasAsked(events + [e], x, y) <==> e == Request(x, y) || (!Removes(e, x, y) && HasAsked(events, x, y))
    ensures HasAgreed(events + [e], x, y) <==>
      (Consents(e, y, x) && HasAsked(events, x, y)) || (!Removes(e, x, y) && HasAgreed(events, x, y))
  {
    assert (events + [e])[..|events|] == events;
  }

  /** A handler call keeps the rows explained. */
  lemma EventExplains(rows: Rows, events: seq<Event>, e: Event, x: UserId, y: UserId)
    requires x != y && Canonical(rows) && ExplainedBy(rows, events, x, y)
    ensures ExplainedBy(Applied(rows, e).0, events + [e], x, y)
  {
    OneMoreEvent(events, e, x, y);
    OneMoreEvent(events, e, y, x);
    OrderedSame(e.me, e.other, x, y);
    if Ordered(e.me, e.other) != Ordered(x, y) {
      OtherPair(rows, e, x, y);
    } else {
      AgreedAsked(events, x, y);
      AgreedAsked(events, y, x);
    }
  }

  /** The history of a pair decides its row, completely. */
  lemma {:induction false} HistoryExplainsRow(events: seq<Event>, x: UserId, y: UserId)
    requires x != y
    ensures ExplainedBy(After(events), events, x, y)
  {
    if events == [] {
    } else {
      var earlier, e := events[..|events| - 1], events[|events| - 1];
      HistoryExplainsRow(earlier, x, y);
      AlwaysCanonical(earlier);
      EventExplains(After(earlier), earlier, e, x, y);
      assert events == earlier + [e];
    }
  }

  // ---- Friendship needs two consents -----------------------------------------------------------------

  /** No removal of the pair from position `i` on. */
  ghost predicate StandingSince(events: seq<Event>, i: nat, x: UserId, y: UserId) {
    forall r :: i <= r < |events| ==> !Removes(events[r], x, y)
  }

  /** `x` asked at `i`, `y` consented later at `j`, and neither has removed the other since `i`. */
  ghost predicate TwoConsents(events: seq<Event>, x: UserId, y: UserId, i: nat, j: nat) {
    i < j < |events| && events[i] == Request(x, y) && Consents(events[j], y, x) && StandingSince(events, i, x, y)
  }

  lemma {:induction false} AskedAt(events: seq<Event>, x: UserId, y: UserId)
    ensures HasAsked(events, x, y)
      <==> exists i: nat :: i < |events| && events[i] == Request(x, y) && StandingSince(events, i, x, y)
  {
    if events == [] {
    } else {
      var n := |events| - 1;
      var earlier := events[..n];
      AskedAt(earlier, x, y);
      assert forall k :: 0 <= k < n ==> earlier[k] == events[k];
      if events[n] == Request(x, y) {
        assert StandingSince(events, n, x, y);
      } else if HasAsked(events, x, y) {
        var i: nat :| i < n && earlier[i] == Request(x, y) && StandingSince(earlier, i, x, y);
        assert StandingSince(events, i, x, y);
      } else {
        forall i: nat | i < |events| && events[i] == Request(x, y) && StandingSince(events, i, x, y)
          ensures false
        {
          assert StandingSince(earlier, i, x, y);
        }
      }
    }
  }

  lemma {:induction false} AgreedAt(events: seq<Event>, x: UserId, y: UserId)
    requires x != y
    ensures HasAgreed(events, x, y) <==> exists i: nat, j: nat :: TwoConsents(events, x, y, i, j)
  {
    if events == [] {
    } else {
      var n := |events| - 1;
      var earlier := events[..n];
      AgreedAt(earlier, x, y);
      AskedAt(earlier, x, y);
      assert forall k :: 0 <= k < n ==> earlier[k] == events[k];
      if HasAgreed(events, x, y) {
        if Consents(events[n], y, x) && HasAsked(earlier, x, y) {
          var i: nat :| i < n && earlier[i] == Request(x, y) && StandingSince(earlier, i, x, y);
          assert TwoConsents(events, x, y, i, n);
        } else {
          var i: nat, j: nat :| TwoConsents(earlier, x, y, i, j);
          assert TwoConsents(events, x, y, i, j);
        }
      }
      if i: nat, j: nat :| TwoConsents(events, x, y, i, j) {
        assert StandingSince(earlier, i, x, y);
        if j < n {
          assert TwoConsents(earlier, x, y, i, j);
        }
      }
    }
  }

  ghost predicate AreFriends(rows: Rows, x: UserId, y: UserId) {
    Ordered(x, y) in rows && rows[Ordered(x, y)].status == Accepted
  }

  /**
    After any history, two users are friends if and only if one of them asked, the other then
    accepted or asked back, and neither has removed the other since that request.
   */
  lemma FriendshipNeedsTwoConsents(events: seq<Event>, x: UserId, y: UserId)
    requires x != y
    ensures AreFriends(After(events), x, y)
      <==> exists i: nat, j: nat :: TwoConsents(events, x, y, i, j) || TwoConsents(events, y, x, i, j)
  {
    AgreedAt(events, x, y);
    AgreedAt(events, y, x);
    FriendsIfAgreed(events, x, y);
    if i: nat, j: nat :| TwoConsents(events, x, y, i, j) || TwoConsents(events, y, x, i, j) {
      assert HasAgreed(events, x, y) || HasAgreed(events, y, x);
    }
  }

  lemma FriendsIfAgreed(events: seq<Event>, x: UserId, y: UserId)
    requires x != y
    ensures AreFriends(After(events), x, y) <==> HasAgreed(events, x, y) || HasAgreed(events, y, x)
  {
    HistoryExplainsRow(events, x, y);
    ExplainedFriends(After(events), events, x, y);
  }

  lemma ExplainedFriends(rows: Rows, events: seq<Event>, x: UserId, y: UserId)
    requires ExplainedBy(rows, events, x, y)
    ensures AreFriends(rows, x, y) <==> HasAgreed(events, x, y) || HasAgreed(events, y, x)
  {
    AgreedAsked(events, x, y);
    AgreedAsked(events, y, x);
  }

  // ---- The lists ---------------------------------------------------------------------------------------

  /** The other side of a pair. */
  function OtherSide(p: Pair, me: UserId): UserId {
    if p.0 == me then p.1 else p.0
  }

  predicate Involves(p: Pair, me: UserId) {
    p.0 == me || p.1 == me
  }

  function FriendsOf(rows: Rows, me: UserId): set<UserId> {
    set p | p in rows && rows[p].status == Accepted && Involves(p, me) :: OtherSide(p, me)
  }

  function Incoming(rows: Rows, me: UserId): set<UserId> {
    set p | p in rows && rows[p].status == Pending && Involves(p, me) && rows[p].requestedBy != me :: rows[p].requestedBy
  }

  function Outgoing(rows: Rows, me: UserId): set<UserId> {
    set p | p in rows && rows[p].status == Pending && Involves(p, me) && rows[p].requestedBy == me :: OtherSide(p, me)
  }

  /** Each list in terms of the one row of the pair. */
  lemma ListsFromRow(rows: Rows, x: UserId, y: UserId)
    requires Canonical(rows)
    ensures y in FriendsOf(rows, x) <==> x != y && AreFriends(rows, x, y)
    ensures y in Incoming(rows, x) <==> x != y && Ordered(x, y) in rows && rows[Ordered(x, y)] == Row(Pending, y)
    ensures y in Outgoing(rows, x) <==> x != y && Ordered(x, y) in rows && rows[Ordered(x, y)] == Row(Pending, x)
  {
    var q := Ordered(x, y);
    assert q in rows ==> q.0 < q.1;
    assert forall p :: p in rows && Involves(p, x) ==> p == Ordered(x, OtherSide(p, x));
  }

  /**
    After any history: friendship is seen from both sides, a request sent by one user is exactly
    a request received by the other, and a user stands in at most one list, never in their own.
   */
  lemma ListsAgree(events: seq<Event>, x: UserId, y: UserId)
    ensures var rows := After(events); y in FriendsOf(rows, x) <==> x in FriendsOf(rows, y)
    ensures var rows := After(events); y in Outgoing(rows, x) <==> x in Incoming(rows, y)
    ensures var rows := After(events); FriendsOf(rows, x) !! Incoming(rows, x) !! Outgoing(rows, x)
    ensures var rows := After(events); x !in FriendsOf(rows, x) + Incoming(rows, x) + Outgoing(rows, x)
  {
    var rows := After(events);
    AlwaysCanonical(events);
    OrderedSame(x, y, y, x);
    ListsFromRow(rows, x, y);
    ListsFromRow(rows, y, x);
    ListsFromRow(rows, x, x);
    forall z
      ensures !(z in FriendsOf(rows, x) && z in Incoming(rows, x))
      ensures !(z in FriendsOf(rows, x) && z in Outgoing(rows, x))
      ensures !(z in Incoming(rows, x) && z in Outgoing(rows, x))
    {
      ListsFromRow(rows, x, z);
    }
  }

  /** The friends list shows exactly the users with whom consent was given both ways. */
  lemma FriendsListIsConsent(events: seq<Event>, x: UserId, y: UserId)
    requires x != y
    ensures y in FriendsOf(After(events), x)
      <==> exists i: nat, j: nat :: TwoConsents(events, x, y, i, j) || TwoConsents(events, y, x, i, j)
  {
    AlwaysCanonical(events);
    ListsFromRow(After(events), x, y);
    FriendshipNeedsTwoConsents(events, x, y);
  }

  /** The two agree: one has asked the other, who accepted or asked back, with no removal since. */
  predicate Agree(events: seq<Event>, x: UserId, y: UserId) {
    HasAgreed(events, x, y) || HasAgreed(events, y, x)
  }

  /** What is listed as received is what the other user asked for and nobody has agreed to or removed. */
  lemma RequestsAreOpenAsks(events: seq<Event>, x: UserId, y: UserId)
    requires x != y
    ensures y in Incoming(After(events), x) <==> HasAsked(events, y, x) && !Agree(events, x, y)
    ensures y in Outgoing(After(events), x) <==> HasAsked(events, x, y) && !Agree(events, x, y)
  {
    AlwaysCanonical(events);
    HistoryExplainsRow(events, x, y);
    ListsFromRow(After(events), x, y);
    AgreedAsked(events, x, y);
    AgreedAsked(events, y, x);
  }

  /** The reply to a request says what the history of the two users is. */
  lemma RequestAnswers(events: seq<Event>, x: UserId, y: UserId, reply: Reply)
    requires reply == Applied(After(events), Request(x, y)).1
    ensures reply == SelfRequest <==> x == y
    ensures reply == AlreadyFriends <==> x != y && Agree(events, x, y)
    ensures reply == AlreadySent <==> x != y && HasAsked(events, x, y) && !Agree(events, x, y)
    ensures reply == Done <==> x != y && HasAsked(events, y, x) && !Agree(events, x, y)
    ensures reply == Sent <==> x != y && !HasAsked(events, x, y) && !HasAsked(events, y, x)
  {
    if x != y {
      AlwaysCanonical(events);
      HistoryExplainsRow(events, x, y);
      AgreedAsked(events, x, y);
      AgreedAsked(events, y, x);
    }
  }

  /** Accepting succeeds exactly on an open request of the other user. */
  lemma AcceptAnswers(events: seq<Event>, x: UserId, y: UserId, reply: Reply)
    requires reply == Applied(After(events), Accept(x, y)).1
    ensures reply == Done <==> x != y && HasAsked(events, y, x) && !Agree(events, x, y)
    ensures reply != Done ==> reply == NotFound
  {
    AlwaysCanonical(events);
    if x != y {
      HistoryExplainsRow(events, x, y);
      AgreedAsked(events, x, y);
      AgreedAsked(events, y, x);
    }
  }

  // ---- A request that is not one step ------------------------------------------------------------------

  /**
    The handler reads the row and writes in two separate statements. This is the write of a
    handler that read `seen`, made against the rows as they are by then.
   */
  function LateWrite(rows: Rows, me: UserId, other: UserId, seen: Option<Row>): Rows {
    var p := Ordered(me, other);
    match seen
    case None => if p in rows then rows else rows[p := Row(Pending, me)]
    case Some(row) =>
      if row.status == Accepted || row.requestedBy == me || p !in rows then rows
      else rows[p := rows[p].(status := Accepted)]
  }

  /** What the row must be by the time of the write for the handler to act as one step. */
  predicate StillGood(rows: Rows, me: UserId, other: UserId, seen: Option<Row>) {
    var p := Ordered(me, other);
    match seen
    case None => p !in rows || rows[p].status == Accepted || rows[p].requestedBy == me
    case Some(row) =>
      if row.status == Accepted || row.requestedBy == me
      then p in rows && (rows[p].status == Accepted || rows[p].requestedBy == me)
      else p in rows && !(rows[p].status == Pending && rows[p].requestedBy == me)
  }

  /** The late write is what one atomic request would have done, exactly under that condition. */
  lemma LateWriteIsAtomicExactlyWhen(rows: Rows, me: UserId, other: UserId, seen: Option<Row>)
    requires me != other
    ensures LateWrite(rows, me, other, seen) == Applied(rows, Request(me, other)).0
      <==> StillGood(rows, me, other, seen)
  {
    var p := Ordered(me, other);
    assert p in rows && rows[p].status == Accepted ==> rows[p := rows[p].(status := Accepted)] == rows;
  }

  /** The handler read a request of the other user, and by now the row is a request of its own caller. */
  predicate MeetsOwnRequest(rows: Rows, me: UserId, other: UserId, seen: Option<Row>) {
    && seen.Some? && seen.value.status == Pending && seen.value.requestedBy != me
    && Ordered(me, other) in rows && rows[Ordered(me, other)] == Row(Pending, me)
  }

  ghost predicate Agreed(events: seq<Event>, x: UserId, y: UserId) {
    HasAgreed(events, x, y) || HasAgreed(events, y, x)
  }

  /** After any history, a late write makes a friendship without two consents in exactly that case. */
  lemma LateWriteKeepsConsentExactlyWhen(events: seq<Event>, me: UserId, other: UserId, seen: Option<Row>)
    requires me != other
    ensures (AreFriends(LateWrite(After(events), me, other, seen), me, other) ==> Agreed(events + [Request(me, other)], me, other))
      <==> !MeetsOwnRequest(After(events), me, other, seen)
  {
    HistoryExplainsRow(events, me, other);
    OneMoreEvent(events, Request(me, other), me, other);
    OneMoreEvent(events, Request(me, other), other, me);
    AgreedAsked(events, other, me);
  }

  // ---- Interleaved requests ----------------------------------------------------------------------------

  /** A request between its two statements. */
  datatype Flight = Flight(me: UserId, other: UserId, seen: Option<Row>)

  /** The rows, the requests under way, and the handler calls that have taken effect, in that order. */
  datatype World = World(rows: Rows, flights: map<nat, Flight>, history: seq<Event>)

  /** The two statements of a request with a number of its own, or a handler call in one statement. */
  datatype Step = Read(id: nat, me: UserId, other: UserId) | Write(id: nat) | Whole(event: Event)

  function RowFor(rows: Rows, x: UserId, y: UserId): Option<Row> {
    if Ordered(x, y) in rows then Some(rows[Ordered(x, y)]) else None
  }

  /** The write inserts a row or updates one; otherwise the request is refused or finds nothing. */
  predicate TakesEffect(rows: Rows, f: Flight) {
    match f.seen
    case None => Ordered(f.me, f.other) !in rows
    case Some(row) => row.status == Pending && row.requestedBy != f.me && Ordered(f.me, f.other) in rows
  }

  function Next(w: World, step: Step): World {
    match step
    case Read(id, me, other) =>
      if me == other || id in w.flights then w
      else w.(flights := w.flights[id := Flight(me, other, RowFor(w.rows, me, other))])
    case Write(id) =>
      if id !in w.flights then w
      else
        var f := w.flights[id];
        World(LateWrite(w.rows, f.me, f.other, f.seen), w.flights - {id},
              if TakesEffect(w.rows, f) then w.history + [Request(f.me, f.other)] else w.history)
    case Whole(e) => World(Applied(w.rows, e).0, w.flights, w.history + [e])
  }

  function RunSteps(steps: seq<Step>): World {
    if steps == [] then World(map[], map[], []) else Next(RunSteps(steps[..|steps| - 1]), steps[|steps| - 1])
  }

  predicate Offends(w: World, step: Step) {
    && step.Write? && step.id in w.flights
    && var f := w.flights[step.id];
       MeetsOwnRequest(w.rows, f.me, f.other, f.seen)
  }

  ghost predicate Guarded(steps: seq<Step>) {
    forall i :: 0 <= i < |steps| ==> !Offends(RunSteps(steps[..i]), steps[i])
  }

  ghost predicate Sound(w: World) {
    && Canonical(w.rows)
    && (forall id :: id in w.flights ==> w.flights[id].me != w.flights[id].other)
    && (forall x, y :: x != y ==> ExplainedBy(w.rows, w.history, x, y))
  }

  /** A request whose two statements follow each other at once is the atomic one. */
  lemma TogetherIsAtomic(rows: Rows, me: UserId, other: UserId)
    requires me != other
    ensures LateWrite(rows, me, other, RowFor(rows, me, other)) == Applied(rows, Request(me, other)).0
  {
    LateWriteIsAtomicExactlyWhen(rows, me, other, RowFor(rows, me, other));
  }

  lemma WriteExplains(rows: Rows, events: seq<Event>, f: Flight, x: UserId, y: UserId)
    requires x != y && f.me != f.other && Canonical(rows) && ExplainedBy(rows, events, x, y)
    requires !MeetsOwnRequest(rows, f.me, f.other, f.seen)
    ensures var next := if TakesEffect(rows, f) then events + [Request(f.me, f.other)] else events;
      ExplainedBy(LateWrite(rows, f.me, f.other, f.seen), next, x, y)
  {
    var e := Request(f.me, f.other);
    OrderedSame(f.me, f.other, x, y);
    if TakesEffect(rows, f) {
      LateWriteIsAtomicExactlyWhen(rows, f.me, f.other, f.seen);
      EventExplains(rows, events, e, x, y);
    }
  }

  lemma StepStaysSound(w: World, step: Step)
    requires Sound(w) && !Offends(w, step)
    ensures Sound(Next(w, step))
  {
    forall x, y | x != y
      ensures ExplainedBy(Next(w, step).rows, Next(w, step).history, x, y)
    {
      match step
      case Read(_, _, _) =>
      case Write(id) =>
        if id in w.flights {
          WriteExplains(w.rows, w.history, w.flights[id], x, y);
        }
      case Whole(e) => EventExplains(w.rows, w.history, e, x, y);
    }
  }

  /** Friendship is what the effective history says, for every pair. */
  ghost predicate Consented(w: World) {
    forall x, y :: x != y ==> (AreFriends(w.rows, x, y) <==> Agreed(w.history, x, y))
  }

  lemma SoundIsConsented(w: World)
    requires Sound(w)
    ensures Consented(w)
  {
    forall x, y | x != y ensures AreFriends(w.rows, x, y) <==> Agreed(w.history, x, y) {
      ExplainedFriends(w.rows, w.history, x, y);
    }
  }

  /** A step breaks the rule of two consents exactly when a write meets a request of its own caller. */
  lemma ConsentBrokenExactlyWhen(w: World, step: Step)
    requires Sound(w)
    ensures Consented(Next(w, step)) <==> !Offends(w, step)
  {
    if Offends(w, step) {
      var f := w.flights[step.id];
      var e := Request(f.me, f.other);
      assert ExplainedBy(w.rows, w.history, f.me, f.other);
      OneMoreEvent(w.history, e, f.me, f.other);
      OneMoreEvent(w.history, e, f.other, f.me);
      AgreedAsked(w.history, f.other, f.me);
      assert AreFriends(Next(w, step).rows, f.me, f.other);
      assert !Agreed(Next(w, step).history, f.me, f.other);
    } else {
      StepStaysSound(w, step);
      SoundIsConsented(Next(w, step));
    }
  }

  lemma {:induction false} GuardedStaysSound(steps: seq<Step>)
    requires Guarded(steps)
    ensures Sound(RunSteps(steps))
  {
    if steps == [] {
    } else {
      var n := |steps| - 1;
      forall i | 0 <= i < n
        ensures !Offends(RunSteps(steps[..n][..i]), steps[..n][i])
      {
        assert steps[..n][..i] == steps[..i];
      }
      GuardedStaysSound(steps[..n]);
      StepStaysSound(RunSteps(steps[..n]), steps[n]);
    }
  }

  /**
    Over every interleaving of handler calls and the two statements of any number of requests: as long as
    no write meets a request of its own caller, two users are friends if and only if one asked, the other
    then agreed, and neither has removed the other since.
   */
  lemma InterleavedConsent(steps: seq<Step>, x: UserId, y: UserId)
    requires x != y && Guarded(steps)
    ensures var w := RunSteps(steps);
      AreFriends(w.rows, x, y) <==>
      exists i: nat, j: nat :: TwoConsents(w.history, x, y, i, j) || TwoConsents(w.history, y, x, i, j)
  {
    var w := RunSteps(steps);
    GuardedStaysSound(steps);
    ExplainedFriends(w.rows, w.history, x, y);
    AgreedAt(w.history, x, y);
    AgreedAt(w.history, y, x);
    if i: nat, j: nat :| TwoConsents(w.history, x, y, i, j) || TwoConsents(w.history, y, x, i, j) {
      assert HasAgreed(w.history, x, y) || HasAgreed(w.history, y, x);
    }
  }

  /**
    When it is not met, consent can be bypassed: 2 answers a request of 1, 1 withdraws it, 2 asks
    anew, and the late write of the first answer makes them friends although 1 wants nothing.
   */
  lemma LateWriteCanBypassConsent()
    ensures var read := After([Request(1, 2)]);
      var events := [Request(1, 2), Remove(1, 2), Request(2, 1)];
      && (1, 2) in read
      && AreFriends(LateWrite(After(events), 2, 1, Some(read[(1, 2)])), 1, 2)
      && !HasAgreed(events + [Request(2, 1)], 1, 2) && !HasAgreed(events + [Request(2, 1)], 2, 1)
  {
    var events := [Request(1, 2), Remove(1, 2), Request(2, 1)];
    var e0, e1, e2 := events[..0], events[..1], events[..2];
    assert [Request(1, 2)][..0] == [] && e1 == [Request(1, 2)] && e2 == [Request(1, 2), Remove(1, 2)];
    assert e1[..0] == [] && e2[..1] == e1;
    assert After(e1) == map[(1, 2) := Row(Pending, 1)];
    assert After(e2) == map[];
    assert After(events) == map[(1, 2) := Row(Pending, 2)];
    var all := events + [Request(2, 1)];
    assert all[..3] == events;
    assert !HasAsked(e2, 1, 2) && !HasAsked(events, 1, 2);
  }

  /** The same run with its statements interleaved: the case that breaks the rule can be reached. */
  lemma BypassIsReachable(x: UserId, y: UserId)
    requires x != y
    ensures var steps := [Whole(Request(x, y)), Read(0, y, x), Whole(Remove(x, y)), Whole(Request(y, x))];
      && Guarded(steps) && Offends(RunSteps(steps), Write(0))
      && !Consented(Next(RunSteps(steps), Write(0)))
  {
    var steps := [Whole(Request(x, y)), Read(0, y, x), Whole(Remove(x, y)), Whole(Request(y, x))];
    var p := Ordered(x, y);
    OrderedSame(x, y, y, x);
    var s1, s2, s3 := steps[..1], steps[..2], steps[..3];
    assert s1[..0] == [] && s2[..1] == s1 && s3[..2] == s2 && steps[..3] == s3;
    assert RunSteps(s1) == World(map[p := Row(Pending, x)], map[], [Request(x, y)]);
    assert RunSteps(s2).flights == map[0 := Flight(y, x, Some(Row(Pending, x)))];
    assert RunSteps(s3).rows == map[];
    assert RunSteps(steps).rows == map[p := Row(Pending, y)];
    GuardedStaysSound(steps);
    ConsentBrokenExactlyWhen(RunSteps(steps), Write(0));
  }
}
