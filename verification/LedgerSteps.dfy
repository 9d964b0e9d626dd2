/**
  The same operations as transactions that interleave statement by statement, and may be cut off at any
  point. A transaction keeps the rows and unique keys it has locked until it ends; what it has written
  reaches the database, and other transactions, when it commits.
 */
module LedgerSteps {
  import opened Arithmetic
  import opened Ledger
  import opened Money
  import opened Wrappers

  /** How far a transaction has come, with the values it has computed. */
  datatype Pc =
    | Begun
    // A Stripe credit: the event row is inserted.
    | Guarded
    // A money operation: the balance is locked and read, then updated, then the ledger row is inserted,
    // then the usage session is updated.
    | Locked(read: int)
    | Written(balance: int)
    | RowInserted(balance: int)
    | SessionCharged(balance: int, charge: Option<Session>)
    // A sign-in: the account is found and refreshed, or not found, inserted and welcomed.
    | Found(user: UserId)
    | Refreshed(user: UserId)
    | NotFound
    | Inserted
    | Welcomed
    | Finished(outcome: Outcome)

  datatype Lock =
    | UserLock(user: UserId)
    | EventLock(event: EventId)
    | GoogleLock(googleId: GoogleId)
    | KeyLock(key: UserId)
    | SessionLock(session: SessionId)

  /** The committed rows, every transaction, and those that ended of themselves, in the order they did. */
  datatype System = System(db: Db, pcs: seq<Pc>, log: seq<nat>)

  /** The next statement of one transaction, or the connection breaks. */
  datatype Move = Advance(i: nat) | Crash(i: nat)

  /** Between locking the balance and the end. */
  predicate HasBalance(pc: Pc) {
    pc.Locked? || pc.Written? || pc.RowInserted? || pc.SessionCharged?
  }

  predicate HasInserted(pc: Pc) {
    pc.Inserted? || pc.Welcomed?
  }

  predicate Holds(op: Op, pc: Pc, l: Lock) {
    match l
    case UserLock(u) => (!op.SignIn? && op.user == u && HasBalance(pc)) || (op.SignIn? && pc == Refreshed(u))
    case EventLock(e) => op.StripeCredit? && op.stripeId == e && (pc.Guarded? || HasBalance(pc))
    case GoogleLock(g) => op.SignIn? && op.googleId == g && HasInserted(pc)
    case KeyLock(u) => op.SignIn? && op.newId == u && HasInserted(pc)
    case SessionLock(s) => op.DeductUsage? && op.session == Some(s) && pc.SessionCharged? && pc.charge.Some?
  }

  /** The locks the next statement takes. */
  predicate Wants(db: Db, op: Op, pc: Pc, l: Lock) {
    match l
    case UserLock(u) =>
      (!op.SignIn? && op.user == u && u in db.balances && (pc.Guarded? || (pc.Begun? && !op.StripeCredit?)))
      || (op.SignIn? && pc == Found(u))
    case EventLock(e) => op.StripeCredit? && op.stripeId == e && pc.Begun?
    case GoogleLock(g) => op.SignIn? && op.googleId == g && pc.NotFound?
    case KeyLock(u) => op.SignIn? && op.newId == u && pc.NotFound?
    case SessionLock(s) => op.DeductUsage? && op.session == Some(s) && s in db.sessions && pc.RowInserted?
  }

  ghost predicate Blocks(db: Db, op: Op, pc: Pc, op': Op, pc': Pc) {
    exists l :: Wants(db, op, pc, l) && Holds(op', pc', l)
  }

  ghost predicate Blocked(ops: seq<Op>, s: System, i: nat)
    requires |s.pcs| == |ops| && i < |ops|
  {
    exists j :: 0 <= j < |ops| && j != i && Blocks(s.db, ops[i], s.pcs[i], ops[j], s.pcs[j])
  }

  // ---- Statements --------------------------------------------------------------------------------------

  /** What a money transaction makes visible when it commits. */
  function Published(db: Db, op: Op, balance: int, charge: Option<Session>): Db
    requires !op.SignIn?
  {
    Db(db.accounts, db.balances[op.user := balance], db.ledger + [RowOf(op, balance)],
       if op.StripeCredit? then db.events + {op.stripeId} else db.events,
       if op.DeductUsage? && op.session.Some? && charge.Some? then db.sessions[op.session.value := charge.value]
       else db.sessions)
  }

  /** `UPDATE usage_sessions`, which touches no row when there is no such session. */
  function Charge(db: Db, op: Op): Option<Session>
    requires op.DeductUsage? && op.session.Some?
  {
    if op.session.value in db.sessions then
      var s := db.sessions[op.session.value];
      Some(Session(s.seconds + op.seconds, RoundHalfAway(s.cost as real + op.amount)))
    else None
  }

  /** `SELECT balance … FOR UPDATE` */
  function LockedRow(db: Db, op: Op): Pc
    requires !op.SignIn?
  {
    if op.user in db.balances then Locked(db.balances[op.user]) else Finished(NoUser)
  }

  function AdvancedMoney(db: Db, op: Op, pc: Pc): (Db, Pc)
    requires !op.SignIn?
  {
    match pc
    case Begun =>
      if !op.StripeCredit? then (db, LockedRow(db, op))
      else if op.stripeId in db.events then (db, Finished(Duplicate))
      else (db, Guarded)
    case Guarded => (db, LockedRow(db, op))
    case Locked(b) =>
      if IsDeduction(op) && b as real < op.amount then (db, Finished(InsufficientFunds))
      else (db, Written(NewBalance(b, op)))
    case Written(n) => (db, RowInserted(n))
    case RowInserted(n) =>
      if op.DeductUsage? && op.session.Some? then (db, SessionCharged(n, Charge(db, op)))
      else (Published(db, op, n, None), Finished(Committed(n)))
    case SessionCharged(n, charge) => (Published(db, op, n, charge), Finished(Committed(n)))
    case _ => (db, pc)
  }

  function AdvancedSignIn(db: Db, op: Op, pc: Pc): (Db, Pc)
    requires op.SignIn?
  {
    match pc
    case Begun => (db, if op.googleId in db.accounts then Found(db.accounts[op.googleId]) else NotFound)
    case Found(u) => (db, Refreshed(u))
    case Refreshed(u) => (db, Finished(SignedIn(u, false)))
    case NotFound =>
      if op.googleId in db.accounts || op.newId in db.balances then (db, Finished(Aborted)) else (db, Inserted)
    case Inserted => (db, Welcomed)
    case Welcomed => (Enrolled(db, op.googleId, op.newId, op.freeCredits), Finished(SignedIn(op.newId, true)))
    case _ => (db, pc)
  }

  function Advanced(db: Db, op: Op, pc: Pc): (Db, Pc) {
    if op.SignIn? then AdvancedSignIn(db, op, pc) else AdvancedMoney(db, op, pc)
  }

  ghost function Moved(ops: seq<Op>, s: System, m: Move): (r: System)
    requires |s.pcs| == |ops|
    ensures |r.pcs| == |ops|
  {
    if m.i >= |ops| || s.pcs[m.i].Finished? then s
    else if m.Crash? then s.(pcs := s.pcs[m.i := Finished(Aborted)])
    else if Blocked(ops, s, m.i) then s
    else
      var (db, pc) := Advanced(s.db, ops[m.i], s.pcs[m.i]);
      System(db, s.pcs[m.i := pc], if pc.Finished? && pc.outcome != Aborted then s.log + [m.i] else s.log)
  }

  /** All transactions at their beginning. */
  function Initial(db: Db, ops: seq<Op>): System {
    System(db, seq(|ops|, _ => Begun), [])
  }

  /** The transactions after any schedule of statements and crashes. */
  ghost function Run(db: Db, ops: seq<Op>, moves: seq<Move>): (s: System)
    ensures |s.pcs| == |ops|
  {
    if moves == [] then Initial(db, ops) else Moved(ops, Run(db, ops, moves[..|moves| - 1]), moves[|moves| - 1])
  }

  // ---- What a transaction relies on --------------------------------------------------------------------

  /** The row a money transaction will change, and the event it will record, are as it needs them. */
  predicate RowReady(db: Db, op: Op) {
    !op.SignIn? && op.user in db.balances && (op.StripeCredit? ==> op.stripeId !in db.events)
  }

  predicate BalanceReady(db: Db, op: Op, balance: int) {
    && RowReady(db, op)
    && (IsDeduction(op) ==> op.amount <= db.balances[op.user] as real)
    && balance == NewBalance(db.balances[op.user], op)
  }

  /** What the locks of a transaction keep true of the committed rows while it runs. */
  predicate Relies(db: Db, op: Op, pc: Pc) {
    match pc
    case Begun => true
    case Guarded => op.StripeCredit? && op.stripeId !in db.events
    case Locked(b) => RowReady(db, op) && b == db.balances[op.user]
    case Written(n) => BalanceReady(db, op, n)
    case RowInserted(n) => BalanceReady(db, op, n)
    case SessionCharged(n, charge) =>
      BalanceReady(db, op, n) && op.DeductUsage? && op.session.Some? && charge == Charge(db, op)
    case Found(u) => op.SignIn? && op.googleId in db.accounts && db.accounts[op.googleId] == u
    case Refreshed(u) => op.SignIn? && op.googleId in db.accounts && db.accounts[op.googleId] == u
    case NotFound => op.SignIn?
    case Inserted => op.SignIn? && op.googleId !in db.accounts && op.newId !in db.balances
    case Welcomed => op.SignIn? && op.googleId !in db.accounts && op.newId !in db.balances
    case Finished(_) => true
  }

  /** A transaction's own statement keeps what it relies on. */
  lemma OwnStep(db: Db, op: Op, pc: Pc)
    requires Relies(db, op, pc) && !pc.Finished?
    ensures Relies(Advanced(db, op, pc).0, op, Advanced(db, op, pc).1)
  {
  }

  /** Until the last statement nothing is visible; a transaction that ends of itself has done its operation at once. */
  lemma StepIsAtomic(db: Db, op: Op, pc: Pc)
    requires Relies(db, op, pc) && !pc.Finished?
    ensures var (next, pc') := Advanced(db, op, pc);
      if pc'.Finished? && pc'.outcome != Aborted then Applied(db, op) == (next, pc'.outcome) else next == db
  {
  }

  /** No two transactions hold the same lock. */
  ghost predicate Apart(op: Op, pc: Pc, op': Op, pc': Pc) {
    forall l :: !(Holds(op, pc, l) && Holds(op', pc', l))
  }

  /** A statement of one transaction leaves alone what another relies on. */
  lemma OthersKeep(db: Db, op: Op, pc: Pc, op': Op, pc': Pc)
    requires Relies(db, op, pc) && Relies(db, op', pc') && Apart(op, pc, op', pc')
    ensures Relies(Advanced(db, op, pc).0, op', pc')
  {
    if Advanced(db, op, pc).0 != db && !pc'.Finished? {
      if op.SignIn? {
        assert Holds(op, pc, GoogleLock(op.googleId)) && Holds(op, pc, KeyLock(op.newId));
        if op'.SignIn? {
          assert !Holds(op', pc', GoogleLock(op.googleId)) && !Holds(op', pc', KeyLock(op.newId));
        }
      } else {
        assert Holds(op, pc, UserLock(op.user));
        assert !Holds(op', pc', UserLock(op.user));
        if op.StripeCredit? {
          assert Holds(op, pc, EventLock(op.stripeId));
          assert !Holds(op', pc', EventLock(op.stripeId));
        }
        if op.DeductUsage? && op.session.Some? {
          assert pc.SessionCharged? && pc.charge.Some? ==> Holds(op, pc, SessionLock(op.session.value));
          assert pc.SessionCharged? && pc.charge.Some? ==> !Holds(op', pc', SessionLock(op.session.value));
        }
      }
    }
  }

  /** A statement takes only the locks it wants, and ends by dropping all. */
  lemma LocksTaken(db: Db, op: Op, pc: Pc, l: Lock)
    requires Relies(db, op, pc)
    ensures Holds(op, Advanced(db, op, pc).1, l) ==> Holds(op, pc, l) || Wants(db, op, pc, l)
  {
  }

  ghost predicate Consistent(ops: seq<Op>, s: System) {
    && |s.pcs| == |ops|
    && (forall i :: 0 <= i < |ops| ==> Relies(s.db, ops[i], s.pcs[i]))
    && (forall i, j :: 0 <= i < |ops| && 0 <= j < |ops| && i != j ==> Apart(ops[i], s.pcs[i], ops[j], s.pcs[j]))
  }

  /** A statement that is not blocked takes no lock another transaction holds. */
  lemma StaysApart(db: Db, op: Op, pc: Pc, op': Op, pc': Pc)
    requires Relies(db, op, pc) && Apart(op, pc, op', pc') && !Blocks(db, op, pc, op', pc')
    ensures Apart(op, Advanced(db, op, pc).1, op', pc')
  {
    forall l ensures !(Holds(op, Advanced(db, op, pc).1, l) && Holds(op', pc', l)) {
      LocksTaken(db, op, pc, l);
    }
  }

  lemma ApartBothWays(op: Op, pc: Pc, op': Op, pc': Pc)
    requires Apart(op, pc, op', pc')
    ensures Apart(op', pc', op, pc)
  {
  }

  lemma AdvanceKeeps(ops: seq<Op>, s: System, i: nat)
    requires Consistent(ops, s) && i < |ops| && !s.pcs[i].Finished? && !Blocked(ops, s, i)
    ensures Consistent(ops, Moved(ops, s, Advance(i)))
  {
    var (db, pc) := Advanced(s.db, ops[i], s.pcs[i]);
    OwnStep(s.db, ops[i], s.pcs[i]);
    forall j | 0 <= j < |ops| && j != i
      ensures Relies(db, ops[j], s.pcs[j]) && Apart(ops[i], pc, ops[j], s.pcs[j]) && Apart(ops[j], s.pcs[j], ops[i], pc)
    {
      OthersKeep(s.db, ops[i], s.pcs[i], ops[j], s.pcs[j]);
      StaysApart(s.db, ops[i], s.pcs[i], ops[j], s.pcs[j]);
      ApartBothWays(ops[i], pc, ops[j], s.pcs[j]);
    }
  }

  lemma MoveKeeps(ops: seq<Op>, s: System, m: Move)
    requires Consistent(ops, s)
    ensures Consistent(ops, Moved(ops, s, m))
  {
    if m.Advance? && m.i < |ops| && !s.pcs[m.i].Finished? && !Blocked(ops, s, m.i) {
      AdvanceKeeps(ops, s, m.i);
    }
  }

  // ---- Every schedule is serial ------------------------------------------------------------------------

  predicate InRange(ops: seq<Op>, log: seq<nat>) {
    forall k :: 0 <= k < |log| ==> log[k] < |ops|
  }

  /** The operations in the order their transactions ended. */
  function InOrder(ops: seq<Op>, log: seq<nat>): (r: seq<Op>)
    requires InRange(ops, log)
    ensures |r| == |log|
  {
    seq(|log|, k requires 0 <= k < |log| && InRange(ops, log) => ops[log[k]])
  }

  /** Transaction `log[k]` reported what its operation does right after those before it. */
  predicate Explained(db0: Db, ops: seq<Op>, s: System, k: nat)
    requires |s.pcs| == |ops| && InRange(ops, s.log) && k < |s.log|
  {
    s.pcs[s.log[k]] == Finished(Applied(Serial(db0, InOrder(ops, s.log)[..k]), ops[s.log[k]]).1)
  }

  ghost predicate Logged(log: seq<nat>, i: nat) {
    exists k :: 0 <= k < |log| && log[k] == i
  }

  /** The log lists each transaction that ended of itself once, and carrying it out serially explains everything. */
  ghost predicate IsHistory(db0: Db, ops: seq<Op>, s: System)
    requires |s.pcs| == |ops|
  {
    && InRange(ops, s.log)
    && s.db == Serial(db0, InOrder(ops, s.log))
    && (forall k :: 0 <= k < |s.log| ==> Explained(db0, ops, s, k))
    && (forall j, k :: 0 <= j < k < |s.log| ==> s.log[j] != s.log[k])
    && (forall i :: 0 <= i < |ops| ==> (Logged(s.log, i) <==> s.pcs[i].Finished? && s.pcs[i].outcome != Aborted))
  }

  lemma OneMoreInOrder(ops: seq<Op>, log: seq<nat>, i: nat)
    requires InRange(ops, log) && i < |ops|
    ensures InRange(ops, log + [i]) && InOrder(ops, log + [i]) == InOrder(ops, log) + [ops[i]]
  {
  }

  lemma OneMoreSerial(db0: Db, done: seq<Op>, op: Op)
    ensures Serial(db0, done + [op]) == Applied(Serial(db0, done), op).0
  {
    assert (done + [op])[..|done|] == done;
  }

  /** Changing a transaction that has not ended leaves the history as it is. */
  lemma PendingMoves(db0: Db, ops: seq<Op>, s: System, i: nat, pc: Pc)
    requires |s.pcs| == |ops| && IsHistory(db0, ops, s) && i < |ops| && !s.pcs[i].Finished?
    requires pc.Finished? ==> pc.outcome == Aborted
    ensures IsHistory(db0, ops, s.(pcs := s.pcs[i := pc]))
  {
    var t := s.(pcs := s.pcs[i := pc]);
    forall k | 0 <= k < |s.log| ensures Explained(db0, ops, t, k) {
      assert Explained(db0, ops, s, k) && s.log[k] != i;
    }
  }

  /** A transaction that ends of itself becomes the last of the history. */
  lemma EndingMoves(db0: Db, ops: seq<Op>, s: System, i: nat, db: Db, outcome: Outcome)
    requires |s.pcs| == |ops| && IsHistory(db0, ops, s) && i < |ops| && !s.pcs[i].Finished?
    requires Applied(s.db, ops[i]) == (db, outcome) && outcome != Aborted
    ensures IsHistory(db0, ops, System(db, s.pcs[i := Finished(outcome)], s.log + [i]))
  {
    var t := System(db, s.pcs[i := Finished(outcome)], s.log + [i]);
    OneMoreInOrder(ops, s.log, i);
    OneMoreSerial(db0, InOrder(ops, s.log), ops[i]);
    forall k | 0 <= k < |t.log| ensures Explained(db0, ops, t, k) {
      PrefixOfMore(InOrder(ops, s.log), ops[i], k);
      if k < |s.log| {
        assert Explained(db0, ops, s, k) && s.log[k] != i;
      }
    }
    forall j | 0 <= j < |ops| ensures Logged(t.log, j) <==> j == i || Logged(s.log, j) {
      LoggedMore(s.log, i, j);
    }
  }

  lemma PrefixOfMore(done: seq<Op>, op: Op, k: nat)
    requires k <= |done|
    ensures (done + [op])[..k] == done[..k]
    ensures k == |done| ==> (done + [op])[..k] == done
  {
  }

  lemma LoggedMore(log: seq<nat>, i: nat, j: nat)
    ensures Logged(log + [i], j) <==> j == i || Logged(log, j)
  {
    if Logged(log, j) {
      var k :| 0 <= k < |log| && log[k] == j;
      assert (log + [i])[k] == j;
    }
    assert (log + [i])[|log|] == i;
  }

  lemma MoveExtendsHistory(db0: Db, ops: seq<Op>, s: System, m: Move)
    requires Consistent(ops, s) && IsHistory(db0, ops, s)
    ensures IsHistory(db0, ops, Moved(ops, s, m))
  {
    if m.i < |ops| && !s.pcs[m.i].Finished? {
      if m.Crash? {
        PendingMoves(db0, ops, s, m.i, Finished(Aborted));
      } else if !Blocked(ops, s, m.i) {
        var (db, pc) := Advanced(s.db, ops[m.i], s.pcs[m.i]);
        StepIsAtomic(s.db, ops[m.i], s.pcs[m.i]);
        if pc.Finished? && pc.outcome != Aborted {
          EndingMoves(db0, ops, s, m.i, db, pc.outcome);
        } else {
          PendingMoves(db0, ops, s, m.i, pc);
        }
      }
    }
  }

  /**
    Every schedule of every set of transactions is equivalent to a serial one: the committed rows are
    those of the operations carried out one at a time in the order their transactions ended, and every
    transaction reports what it would there. Transactions cut off have no effect.
   */
  lemma {:induction false} Serializable(db0: Db, ops: seq<Op>, moves: seq<Move>)
    ensures var s := Run(db0, ops, moves);
      Consistent(ops, s) && IsHistory(db0, ops, s)
    decreases |moves|
  {
    if moves == [] {
      assert InOrder(ops, []) == [];
    } else {
      var s := Run(db0, ops, moves[..|moves| - 1]);
      Serializable(db0, ops, moves[..|moves| - 1]);
      MoveKeeps(ops, s, moves[|moves| - 1]);
      MoveExtendsHistory(db0, ops, s, moves[|moves| - 1]);
    }
  }

  // ---- What follows for every schedule -----------------------------------------------------------------

  /** The books balance at every moment: each balance is the sum of its rows, and each row the sum up to it. */
  lemma BooksBalanceConcurrently(db0: Db, ops: seq<Op>, moves: seq<Move>)
    requires Balanced(db0) && NoTies(ops)
    ensures Balanced(Run(db0, ops, moves).db)
  {
    Serializable(db0, ops, moves);
    BooksStayBalanced(db0, InOrder(ops, Run(db0, ops, moves).log));
  }

  /** No schedule overspends a balance. */
  lemma NobodyOverspendsConcurrently(db0: Db, ops: seq<Op>, moves: seq<Move>)
    requires NoDebt(db0) && forall k :: 0 <= k < |ops| ==> Gives(ops[k])
    ensures NoDebt(Run(db0, ops, moves).db)
  {
    Serializable(db0, ops, moves);
    NobodyOverspends(db0, InOrder(ops, Run(db0, ops, moves).log));
  }

  /** However often an event is delivered or a user signs in, and whatever is cut off in between. */
  lemma OnceConcurrently(db0: Db, ops: seq<Op>, moves: seq<Move>)
    requires CreditedOnce(db0) && WelcomedOnce(db0) && forall k :: 0 <= k < |ops| ==> IsManual(ops[k])
    ensures CreditedOnce(Run(db0, ops, moves).db) && WelcomedOnce(Run(db0, ops, moves).db)
  {
    Serializable(db0, ops, moves);
    OnceStaysOnce(db0, InOrder(ops, Run(db0, ops, moves).log));
  }

  /** Rows, events and accounts on record stay on record. */
  ghost predicate Grown(before: Db, after: Db) {
    && before.ledger <= after.ledger
    && before.events <= after.events
    && (forall g :: g in before.accounts ==> g in after.accounts && after.accounts[g] == before.accounts[g])
  }

  lemma AppliedGrows(db: Db, op: Op)
    ensures Grown(db, Applied(db, op).0)
  {
  }

  lemma GrownTwice(a: Db, b: Db, c: Db)
    requires Grown(a, b) && Grown(b, c)
    ensures Grown(a, c)
  {
  }

  /** Nothing recorded is ever lost. */
  lemma {:induction false} SerialGrows(db0: Db, done: seq<Op>, k: nat, l: nat)
    requires k <= l <= |done|
    ensures Grown(Serial(db0, done[..k]), Serial(db0, done[..l]))
    decreases l
  {
    if k < l {
      SerialGrows(db0, done, k, l - 1);
      OneMoreAt(db0, done, l - 1);
      AppliedGrows(Serial(db0, done[..l - 1]), done[l - 1]);
      GrownTwice(Serial(db0, done[..k]), Serial(db0, done[..l - 1]), Serial(db0, done[..l]));
    }
  }

  lemma OneMoreAt(db0: Db, done: seq<Op>, k: nat)
    requires k < |done|
    ensures Serial(db0, done[..k + 1]) == Applied(Serial(db0, done[..k]), done[k]).0
  {
    assert done[..k + 1] == done[..k] + [done[k]];
    OneMoreSerial(db0, done[..k], done[k]);
  }

  /** Serially, what an operation at place `k` reports. */
  function ReportAt(db0: Db, done: seq<Op>, k: nat): Outcome
    requires k < |done|
  {
    Applied(Serial(db0, done[..k]), done[k]).1
  }

  /** A later delivery of a credited event does not credit it again. */
  lemma LaterIsDuplicate(db0: Db, done: seq<Op>, k: nat, l: nat)
    requires k < l < |done| && done[k].StripeCredit? && done[l].StripeCredit? && done[k].stripeId == done[l].stripeId
    requires ReportAt(db0, done, k).Committed?
    ensures ReportAt(db0, done, l) == Duplicate
  {
    OneMoreAt(db0, done, k);
    SerialGrows(db0, done, k + 1, l);
  }

  /** A later sign-in finds the account an earlier one got. */
  lemma LaterFindsAccount(db0: Db, done: seq<Op>, k: nat, l: nat)
    requires k < l < |done| && done[k].SignIn? && done[l].SignIn? && done[k].googleId == done[l].googleId
    requires ReportAt(db0, done, k).SignedIn?
    ensures ReportAt(db0, done, l) == SignedIn(ReportAt(db0, done, k).user, false)
  {
    OneMoreAt(db0, done, k);
    SerialGrows(db0, done, k + 1, l);
  }

  /** The place of an ended transaction in the history, where it reports what it reported. */
  lemma PlaceOf(db0: Db, ops: seq<Op>, s: System, i: nat) returns (k: nat)
    requires |s.pcs| == |ops| && IsHistory(db0, ops, s) && i < |ops|
    requires s.pcs[i].Finished? && s.pcs[i].outcome != Aborted
    ensures k < |s.log| && s.log[k] == i && InOrder(ops, s.log)[k] == ops[i]
    ensures ReportAt(db0, InOrder(ops, s.log), k) == s.pcs[i].outcome
  {
    assert Logged(s.log, i);
    k :| 0 <= k < |s.log| && s.log[k] == i;
    assert Explained(db0, ops, s, k);
  }

  /** A transaction that reports success has its row in the ledger, and a deduction leaves nobody in debt. */
  lemma CommittedIsRecorded(db0: Db, ops: seq<Op>, moves: seq<Move>, i: nat)
    requires i < |ops| && !ops[i].SignIn? && HasCommitted(Run(db0, ops, moves), i)
    ensures var s := Run(db0, ops, moves);
      && RowOf(ops[i], s.pcs[i].outcome.balance) in s.db.ledger
      && (IsDeduction(ops[i]) ==> s.pcs[i].outcome.balance >= 0)
  {
    var s := Run(db0, ops, moves);
    Serializable(db0, ops, moves);
    var k := PlaceOf(db0, ops, s, i);
    RecordedAt(db0, InOrder(ops, s.log), k);
  }

  lemma RecordedAt(db0: Db, done: seq<Op>, k: nat)
    requires k < |done| && !done[k].SignIn? && ReportAt(db0, done, k).Committed?
    ensures RowOf(done[k], ReportAt(db0, done, k).balance) in Serial(db0, done).ledger
    ensures IsDeduction(done[k]) ==> ReportAt(db0, done, k).balance >= 0
  {
    var before := Serial(db0, done[..k]);
    OneMoreAt(db0, done, k);
    SerialGrows(db0, done, k + 1, |done|);
    assert done[..|done|] == done;
    assert Serial(db0, done).ledger[|before.ledger|] == RowOf(done[k], ReportAt(db0, done, k).balance);
    if IsDeduction(done[k]) {
      DeductionsAreCovered(before, done[k]);
    }
  }

  /** Of all deliveries of one event, at most one credits; the event is on record once one has. */
  lemma OneDeliveryCredits(db0: Db, ops: seq<Op>, moves: seq<Move>, i: nat, j: nat)
    requires i < |ops| && j < |ops| && ops[i].StripeCredit? && ops[j].StripeCredit? && ops[i].stripeId == ops[j].stripeId
    requires HasCommitted(Run(db0, ops, moves), i) && HasCommitted(Run(db0, ops, moves), j)
    ensures i == j && ops[i].stripeId !in db0.events && ops[i].stripeId in Run(db0, ops, moves).db.events
  {
    var s := Run(db0, ops, moves);
    Serializable(db0, ops, moves);
    var done := InOrder(ops, s.log);
    var k := PlaceOf(db0, ops, s, i);
    var l := PlaceOf(db0, ops, s, j);
    if k < l {
      LaterIsDuplicate(db0, done, k, l);
    } else if l < k {
      LaterIsDuplicate(db0, done, l, k);
    }
    NewlyRecorded(db0, done, k);
  }

  lemma NewlyRecorded(db0: Db, done: seq<Op>, k: nat)
    requires k < |done| && done[k].StripeCredit? && ReportAt(db0, done, k).Committed?
    ensures done[k].stripeId !in db0.events && done[k].stripeId in Serial(db0, done).events
  {
    SerialGrows(db0, done, 0, k);
    OneMoreAt(db0, done, k);
    SerialGrows(db0, done, k + 1, |done|);
    assert done[..|done|] == done && done[..0] == [];
  }

  ghost predicate HasCommitted(s: System, i: nat) {
    i < |s.pcs| && s.pcs[i].Finished? && s.pcs[i].outcome.Committed?
  }

  /** An event on record was there before, or one of the deliveries has credited it. */
  lemma RecordedMeansCredited(db0: Db, ops: seq<Op>, moves: seq<Move>, e: EventId)
    requires e in Run(db0, ops, moves).db.events && e !in db0.events
    ensures exists i :: 0 <= i < |ops| && ops[i].StripeCredit? && ops[i].stripeId == e && HasCommitted(Run(db0, ops, moves), i)
  {
    var s := Run(db0, ops, moves);
    Serializable(db0, ops, moves);
    var k := WhoRecorded(db0, InOrder(ops, s.log), e);
    assert Explained(db0, ops, s, k);
    assert HasCommitted(s, s.log[k]);
  }

  lemma {:induction false} WhoRecorded(db0: Db, done: seq<Op>, e: EventId) returns (k: nat)
    requires e in Serial(db0, done).events && e !in db0.events
    ensures k < |done| && done[k].StripeCredit? && done[k].stripeId == e
    ensures Applied(Serial(db0, done[..k]), done[k]).1.Committed?
    decreases |done|
  {
    k := |done| - 1;
    if e in Serial(db0, done[..k]).events {
      var n := k;
      k := WhoRecorded(db0, done[..n], e);
      assert done[..n][..k] == done[..k];
    }
  }

  /** Sign-ins with one Google account all get the same user, and at most one of them creates it. */
  lemma OneSignInCreates(db0: Db, ops: seq<Op>, moves: seq<Move>, i: nat, j: nat)
    requires i < |ops| && j < |ops| && i != j && ops[i].SignIn? && ops[j].SignIn? && ops[i].googleId == ops[j].googleId
    requires HasSignedIn(Run(db0, ops, moves), i) && HasSignedIn(Run(db0, ops, moves), j)
    ensures var s := Run(db0, ops, moves);
      && s.pcs[i].outcome.user == s.pcs[j].outcome.user
      && !(s.pcs[i].outcome.isNew && s.pcs[j].outcome.isNew)
  {
    var s := Run(db0, ops, moves);
    Serializable(db0, ops, moves);
    var done := InOrder(ops, s.log);
    var k := PlaceOf(db0, ops, s, i);
    var l := PlaceOf(db0, ops, s, j);
    if k < l {
      LaterFindsAccount(db0, done, k, l);
    } else {
      LaterFindsAccount(db0, done, l, k);
    }
  }

  ghost predicate HasSignedIn(s: System, i: nat) {
    i < |s.pcs| && s.pcs[i].Finished? && s.pcs[i].outcome.SignedIn?
  }

  // ---- What is paid arrives in every schedule ----------------------------------------------------------

  /** What transaction `i` is worth to a user, by what it has reported so far. */
  function WorthAt(ops: seq<Op>, s: System, u: UserId, i: nat): real {
    if i < |ops| && i < |s.pcs| && s.pcs[i].Finished? then Worth(ops[i], s.pcs[i].outcome, u) else 0.0
  }

  function Worths(ops: seq<Op>, s: System, u: UserId): nat -> real {
    (i: nat) => WorthAt(ops, s, u, i)
  }

  function SumTo(f: nat -> real, n: nat): real {
    if n == 0 then 0.0 else SumTo(f, n - 1) + f(n - 1)
  }

  function SumOf(f: nat -> real, log: seq<nat>): real {
    if log == [] then 0.0 else SumOf(f, log[..|log| - 1]) + f(log[|log| - 1])
  }

  lemma {:induction false} SumToChanged(f: nat -> real, g: nat -> real, i: nat, n: nat)
    requires g(i) == 0.0 && forall j: nat :: j != i ==> g(j) == f(j)
    ensures SumTo(f, n) == SumTo(g, n) + if i < n then f(i) else 0.0
  {
    if n == 0 {
    } else {
      SumToChanged(f, g, i, n - 1);
    }
  }

  lemma {:induction false} SumOfUnchanged(f: nat -> real, g: nat -> real, log: seq<nat>)
    requires forall k :: 0 <= k < |log| ==> g(log[k]) == f(log[k])
    ensures SumOf(f, log) == SumOf(g, log)
  {
    if log == [] {
    } else {
      SumOfUnchanged(f, g, log[..|log| - 1]);
    }
  }

  /** A sum over distinct numbers that leaves out only zeros is the sum over all. */
  lemma {:induction false} SumOfDistinct(f: nat -> real, log: seq<nat>, n: nat)
    requires Distinct(log) && forall k :: 0 <= k < |log| ==> log[k] < n
    requires forall i: nat :: i < n && i !in log ==> f(i) == 0.0
    ensures SumOf(f, log) == SumTo(f, n)
    decreases |log|
  {
    if log == [] {
      SumOfZeros(f, n);
    } else {
      var first, i := log[..|log| - 1], log[|log| - 1];
      var g := (j: nat) => if j == i then 0.0 else f(j);
      SumToChanged(f, g, i, n);
      SumOfUnchanged(f, g, first);
      assert log == first + [i];
      SumOfDistinct(g, first, n);
    }
  }

  lemma {:induction false} SumOfZeros(f: nat -> real, n: nat)
    requires forall i: nat :: i < n ==> f(i) == 0.0
    ensures SumTo(f, n) == 0.0
  {
    if n == 0 {
    } else {
      SumOfZeros(f, n - 1);
    }
  }

  lemma {:induction false} WorthOfHistory(db0: Db, ops: seq<Op>, s: System, u: UserId, k: nat)
    requires |s.pcs| == |ops| && IsHistory(db0, ops, s) && k <= |s.log|
    ensures NetWorth(db0, InOrder(ops, s.log)[..k], u) == SumOf(Worths(ops, s, u), s.log[..k])
    decreases k
  {
    var done := InOrder(ops, s.log);
    if k == 0 {
    } else {
      WorthOfHistory(db0, ops, s, u, k - 1);
      assert Explained(db0, ops, s, k - 1);
      assert done[..k][..k - 1] == done[..k - 1] && s.log[..k][..k - 1] == s.log[..k - 1];
    }
  }

  /**
    In every schedule with whole amounts a balance is what it was, plus the grants, credits and payments
    and less the deductions that transactions have reported as committed.
   */
  lemma BalanceIsWhatIsReported(db0: Db, ops: seq<Op>, moves: seq<Move>, u: UserId)
    requires AllWhole(ops)
    ensures var s := Run(db0, ops, moves);
      BalanceOf(s.db, u) as real == BalanceOf(db0, u) as real + SumTo(Worths(ops, s, u), |ops|)
  {
    var s := Run(db0, ops, moves);
    Serializable(db0, ops, moves);
    var done := InOrder(ops, s.log);
    BalanceIsNetWorth(db0, done, u);
    ReportedIsNetWorth(db0, ops, s, u);
  }

  lemma ReportedIsNetWorth(db0: Db, ops: seq<Op>, s: System, u: UserId)
    requires |s.pcs| == |ops| && IsHistory(db0, ops, s)
    ensures NetWorth(db0, InOrder(ops, s.log), u) == SumTo(Worths(ops, s, u), |ops|)
  {
    var done := InOrder(ops, s.log);
    WorthOfHistory(db0, ops, s, u, |s.log|);
    assert done[..|s.log|] == done && s.log[..|s.log|] == s.log;
    forall i: nat | i < |ops| && i !in s.log ensures Worths(ops, s, u)(i) == 0.0 {
      assert !Logged(s.log, i);
    }
    SumOfDistinct(Worths(ops, s, u), s.log, |ops|);
  }

  // ---- Racing deductions -------------------------------------------------------------------------------

  /** The transactions that have committed. */
  ghost function Winners(s: System): set<nat> {
    set i | 0 <= i < |s.pcs| && HasCommitted(s, i)
  }

  function Least(a: nat, b: nat): nat {
    if a <= b then a else b
  }

  predicate Distinct(log: seq<nat>) {
    forall j, k :: 0 <= j < k < |log| ==> log[j] != log[k]
  }

  function Elements(log: seq<nat>): (r: set<nat>)
    ensures forall i :: i in r <==> i in log
  {
    if log == [] then {}
    else
      var n := |log| - 1;
      assert log == log[..n] + [log[n]];
      Elements(log[..n]) + {log[n]}
  }

  lemma {:induction false} SizeOf(log: seq<nat>)
    requires Distinct(log)
    ensures |Elements(log)| == |log|
  {
    if log == [] {
    } else {
      var n := |log| - 1;
      SizeOf(log[..n]);
      assert log[n] !in log[..n];
    }
  }

  function Upto(n: nat): (r: set<nat>)
    ensures forall i: nat :: i in r <==> i < n
    ensures |r| == n
  {
    if n == 0 then {}
    else
      var rest := Upto(n - 1);
      assert n - 1 !in rest;
      rest + {n - 1}
  }

  /** Serially, transaction `k` of the history commits exactly while the money lasts. */
  lemma RaceAt(db0: Db, ops: seq<Op>, s: System, u: UserId, a: nat, b: nat, k: nat)
    requires |s.pcs| == |ops| && IsHistory(db0, ops, s) && k < |s.log|
    requires a > 0 && u in db0.balances && db0.balances[u] == b && Same(ops, u, a)
    ensures s.log[k] < |ops|
    ensures HasCommitted(s, s.log[k]) <==> k < b / a
  {
    assert Explained(db0, ops, s, k);
    var done := InOrder(ops, s.log)[..k];
    EqualDeductions(db0, done, u, a, b);
    DeductStep(Serial(db0, done), ops[s.log[k]], a);
    LeftIs(a, b, k);
  }

  lemma WinnersCameFirst(db0: Db, ops: seq<Op>, s: System, u: UserId, a: nat, b: nat, n: nat)
    requires a > 0 && |s.pcs| == |ops| && IsHistory(db0, ops, s) && n == Least(|s.log|, b / a)
    requires u in db0.balances && db0.balances[u] == b && Same(ops, u, a)
    ensures Winners(s) == Elements(s.log[..n])
  {
    forall i ensures i in Winners(s) <==> i in s.log[..n] {
      if i in Winners(s) {
        var k := PlaceOf(db0, ops, s, i);
        RaceAt(db0, ops, s, u, a, b, k);
        assert s.log[..n][k] == i;
      }
      if i in s.log[..n] {
        var k :| 0 <= k < n && s.log[..n][k] == i;
        RaceAt(db0, ops, s, u, a, b, k);
      }
    }
  }

  /** Every transaction has ended and none was cut off. */
  predicate AllEnded(s: System) {
    forall i :: 0 <= i < |s.pcs| ==> s.pcs[i].Finished? && s.pcs[i].outcome != Aborted
  }

  /**
    Any number of equal deductions race for a balance. However they interleave, no more commit than the
    balance covers; and once all have ended with none cut off, exactly as many as it covers have.
   */
  lemma RaceIsExact(db0: Db, ops: seq<Op>, moves: seq<Move>, u: UserId, a: nat, b: nat)
    requires a > 0 && u in db0.balances && db0.balances[u] == b && Same(ops, u, a)
    ensures |Winners(Run(db0, ops, moves))| <= b / a
    ensures AllEnded(Run(db0, ops, moves)) ==> |Winners(Run(db0, ops, moves))| == Least(|ops|, b / a)
  {
    var s := Run(db0, ops, moves);
    Serializable(db0, ops, moves);
    var n := Least(|s.log|, b / a);
    WinnersCameFirst(db0, ops, s, u, a, b, n);
    SizeOf(s.log[..n]);
    if AllEnded(s) {
      EverybodyLogged(ops, s.log);
    }
  }

  lemma EverybodyLogged(ops: seq<Op>, log: seq<nat>)
    requires InRange(ops, log) && Distinct(log)
    requires forall i :: 0 <= i < |ops| ==> Logged(log, i)
    ensures |log| == |ops|
  {
    SizeOf(log);
    forall i: nat ensures i in Elements(log) <==> i in Upto(|ops|) {
      assert i < |ops| ==> Logged(log, i);
    }
    assert Elements(log) == Upto(|ops|);
  }

  // ---- Nobody waits for ever ---------------------------------------------------------------------------

  /** How far up the order in which locks are taken a transaction is waiting. */
  function WaitLevel(op: Op, pc: Pc): nat {
    match pc
    case Begun => if op.StripeCredit? then 3 else 2
    case Guarded => 2
    case Found(_) => 2
    case RowInserted(_) => 1
    case NotFound => 1
    case _ => 0
  }

  /** Whoever holds a lock that is waited for waits, if at all, further down. */
  lemma HoldersWaitBelow(db: Db, op: Op, pc: Pc, op': Op, pc': Pc)
    requires Blocks(db, op, pc, op', pc')
    ensures WaitLevel(op', pc') < WaitLevel(op, pc) && !pc'.Finished?
  {
  }

  /** There is no deadlock: while a transaction has not ended, one can make its next statement. */
  lemma {:induction false} NoDeadlock(ops: seq<Op>, s: System, i: nat) returns (j: nat)
    requires |s.pcs| == |ops| && i < |ops| && !s.pcs[i].Finished?
    ensures j < |ops| && !s.pcs[j].Finished? && !Blocked(ops, s, j)
    decreases WaitLevel(ops[i], s.pcs[i])
  {
    j := i;
    if Blocked(ops, s, i) {
      var k :| 0 <= k < |ops| && k != i && Blocks(s.db, ops[i], s.pcs[i], ops[k], s.pcs[k]);
      HoldersWaitBelow(s.db, ops[i], s.pcs[i], ops[k], s.pcs[k]);
      j := NoDeadlock(ops, s, k);
    }
  }

  function StepsLeft(pc: Pc): nat {
    match pc
    case Begun => 6
    case Guarded => 5
    case Locked(_) => 4
    case Written(_) => 3
    case RowInserted(_) => 2
    case SessionCharged(_, _) => 1
    case NotFound => 3
    case Inserted => 2
    case Welcomed => 1
    case Found(_) => 2
    case Refreshed(_) => 1
    case Finished(_) => 0
  }

  function AllStepsLeft(pcs: seq<Pc>): nat {
    if pcs == [] then 0 else AllStepsLeft(pcs[..|pcs| - 1]) + StepsLeft(pcs[|pcs| - 1])
  }

  lemma {:induction false} StepsLeftUpdate(pcs: seq<Pc>, i: nat, pc: Pc)
    requires i < |pcs|
    ensures AllStepsLeft(pcs[i := pc]) == AllStepsLeft(pcs) - StepsLeft(pcs[i]) + StepsLeft(pc)
  {
    var n := |pcs| - 1;
    if i < n {
      assert pcs[i := pc][..n] == pcs[..n][i := pc];
      StepsLeftUpdate(pcs[..n], i, pc);
    } else {
      assert pcs[i := pc][..n] == pcs[..n];
    }
  }

  /** Every statement and every crash brings the end of all transactions nearer. */
  lemma MovesEnd(ops: seq<Op>, s: System, m: Move)
    requires Consistent(ops, s) && m.i < |ops| && !s.pcs[m.i].Finished?
    requires m.Advance? ==> !Blocked(ops, s, m.i)
    ensures AllStepsLeft(Moved(ops, s, m).pcs) < AllStepsLeft(s.pcs)
  {
    StepsLeftUpdate(s.pcs, m.i, Moved(ops, s, m).pcs[m.i]);
  }

  lemma OneMoreMove(db0: Db, ops: seq<Op>, moves: seq<Move>, m: Move)
    ensures Run(db0, ops, moves + [m]) == Moved(ops, Run(db0, ops, moves), m)
  {
    assert (moves + [m])[..|moves|] == moves;
  }

  /** From any reachable state all transactions can run to their end. */
  lemma {:induction false} AllCanEnd(db0: Db, ops: seq<Op>, moves: seq<Move>) returns (more: seq<Move>)
    ensures forall i :: 0 <= i < |ops| ==> Run(db0, ops, moves + more).pcs[i].Finished?
    decreases AllStepsLeft(Run(db0, ops, moves).pcs)
  {
    var s := Run(db0, ops, moves);
    if i :| 0 <= i < |ops| && !s.pcs[i].Finished? {
      Serializable(db0, ops, moves);
      var j := NoDeadlock(ops, s, i);
      MovesEnd(ops, s, Advance(j));
      OneMoreMove(db0, ops, moves, Advance(j));
      var rest := AllCanEnd(db0, ops, moves + [Advance(j)]);
      more := [Advance(j)] + rest;
      assert moves + more == (moves + [Advance(j)]) + rest;
    } else {
      more := [];
      assert moves + more == moves;
    }
  }
}
