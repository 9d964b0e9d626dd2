/**
  server/src/billing.rs and the account creation in server/src/auth.rs, one operation at a time: each
  changes a balance and writes the ledger row that accounts for it.
 */
module Ledger {
  import opened Arithmetic
  import opened Money
  import opened Sequences
  import opened Wrappers

  type UserId = nat

  type GoogleId = string

  type EventId = string

  type SessionId = nat

  /** The `kind` column. */
  datatype Kind = FreeCredit | Purchase | Usage | Other(name: string)

  datatype LedgerRow = LedgerRow(user: UserId, amount: int, kind: Kind, balanceAfter: int, event: Option<EventId>)

  datatype Session = Session(seconds: int, cost: int)

  /** The rows the operations touch; `accounts` is the unique index on users.google_id. */
  datatype Db = Db(
    accounts: map<GoogleId, UserId>, balances: map<UserId, int>, ledger: seq<LedgerRow>,
    events: set<EventId>, sessions: map<SessionId, Session>)

  datatype Op =
    | AddCredits(user: UserId, amount: real, kind: Kind, event: Option<EventId>)
    | StripeCredit(stripeId: EventId, user: UserId, amount: real)
    | DeductUsage(user: UserId, session: Option<SessionId>, seconds: int, amount: real)
    | DeductFeature(user: UserId, feature: string, amount: real)
    | SignIn(googleId: GoogleId, newId: UserId, freeCredits: real)

  datatype Outcome =
    | Committed(balance: int)
    | InsufficientFunds
    | Duplicate
    | NoUser
    | SignedIn(user: UserId, isNew: bool)
    | Aborted

  predicate IsDeduction(op: Op) {
    op.DeductUsage? || op.DeductFeature?
  }

  /** The signed change a money operation asks for. */
  function Change(op: Op): real
    requires !op.SignIn?
  {
    if IsDeduction(op) then -op.amount else op.amount
  }

  function KindOf(op: Op): Kind
    requires !op.SignIn?
  {
    match op
    case AddCredits(_, _, kind, _) => kind
    case StripeCredit(_, _, _) => Purchase
    case DeductUsage(_, _, _, _) => Usage
    case DeductFeature(_, feature, _) => Other(feature)
  }

  function EventOf(op: Op): Option<EventId> {
    match op
    case AddCredits(_, _, _, event) => event
    case StripeCredit(e, _, _) => Some(e)
    case _ => None
  }

  function NewBalance(balance: int, op: Op): int
    requires !op.SignIn?
  {
    RoundHalfEven(balance as real + Change(op))
  }

  /** The ledger row of an operation that leads to a new balance; its columns round on their own. */
  function RowOf(op: Op, balance: int): LedgerRow
    requires !op.SignIn?
  {
    LedgerRow(op.user, RoundHalfAway(Change(op)), KindOf(op), balance, EventOf(op))
  }

  function WelcomeRow(user: UserId, freeCredits: real): LedgerRow {
    LedgerRow(user, RoundHalfAway(freeCredits), FreeCredit, RoundHalfAway(freeCredits), None)
  }

  /** Speaking time and cost accumulate on a usage session that exists. */
  function Accumulated(sessions: map<SessionId, Session>, op: Op): map<SessionId, Session> {
    if op.DeductUsage? && op.session.Some? && op.session.value in sessions then
      var s := sessions[op.session.value];
      sessions[op.session.value := Session(s.seconds + op.seconds, RoundHalfAway(s.cost as real + op.amount))]
    else sessions
  }

  /** Everything a money operation writes. */
  function Posted(db: Db, op: Op, balance: int): Db
    requires !op.SignIn?
  {
    Db(db.accounts, db.balances[op.user := balance], db.ledger + [RowOf(op, balance)],
       if op.StripeCredit? then db.events + {op.stripeId} else db.events, Accumulated(db.sessions, op))
  }

  function Enrolled(db: Db, g: GoogleId, user: UserId, freeCredits: real): Db {
    db.(accounts := db.accounts[g := user], balances := db.balances[user := RoundHalfAway(freeCredits)],
        ledger := db.ledger + [WelcomeRow(user, freeCredits)])
  }

  /** One operation from begin to commit or rollback, with nothing in between. */
  function Applied(db: Db, op: Op): (Db, Outcome) {
    if op.SignIn? then
      if op.googleId in db.accounts then (db, SignedIn(db.accounts[op.googleId], false))
      else if op.newId in db.balances then (db, Aborted)
      else (Enrolled(db, op.googleId, op.newId, op.freeCredits), SignedIn(op.newId, true))
    else if op.StripeCredit? && op.stripeId in db.events then (db, Duplicate)
    else if op.user !in db.balances then (db, NoUser)
    else if IsDeduction(op) && db.balances[op.user] as real < op.amount then (db, InsufficientFunds)
    else
      var n := NewBalance(db.balances[op.user], op);
      (Posted(db, op, n), Committed(n))
  }

  class Billing {
    var accounts: map<GoogleId, UserId>
    var balances: map<UserId, int>
    var ledger: seq<LedgerRow>
    var events: set<EventId>
    var sessions: map<SessionId, Session>

    constructor ()
      ensures Contents() == Empty()
    {
      accounts, balances, ledger, events, sessions := map[], map[], [], {}, map[];
    }

    ghost function Contents(): Db
      reads this
    {
      Db(accounts, balances, ledger, events, sessions)
    }

    method AddCredits(user: UserId, amount: real, kind: Kind, event: Option<EventId>) returns (r: Outcome)
      modifies this
      ensures (Contents(), r) == Applied(old(Contents()), Op.AddCredits(user, amount, kind, event))
    {
      if user !in balances {
        return NoUser;
      }
      var balance := balances[user];
      var newBalance := RoundHalfEven(balance as real + amount);
      balances := balances[user := newBalance];
      ledger := ledger + [LedgerRow(user, RoundHalfAway(amount), kind, newBalance, event)];
      return Committed(newBalance);
    }

    method CreditFromStripeEvent(event: EventId, user: UserId, amount: real) returns (r: Outcome)
      modifies this
      ensures (Contents(), r) == Applied(old(Contents()), StripeCredit(event, user, amount))
    {
      if event in events {
        return Duplicate;
      }
      if user !in balances {
        return NoUser;
      }
      events := events + {event};
      var balance := balances[user];
      var newBalance := RoundHalfEven(balance as real + amount);
      balances := balances[user := newBalance];
      ledger := ledger + [LedgerRow(user, RoundHalfAway(amount), Purchase, newBalance, Some(event))];
      return Committed(newBalance);
    }

    method DeductUsage(user: UserId, session: Option<SessionId>, seconds: int, amount: real) returns (r: Outcome)
      modifies this
      ensures (Contents(), r) == Applied(old(Contents()), Op.DeductUsage(user, session, seconds, amount))
    {
      if user !in balances {
        return NoUser;
      }
      var balance := balances[user];
      if balance as real < amount {
        return InsufficientFunds;
      }
      var newBalance := RoundHalfEven(balance as real - amount);
      balances := balances[user := newBalance];
      ledger := ledger + [LedgerRow(user, RoundHalfAway(-amount), Usage, newBalance, None)];
      if session.Some? && session.value in sessions {
        var s := sessions[session.value];
        sessions := sessions[session.value := Session(s.seconds + seconds, RoundHalfAway(s.cost as real + amount))];
      }
      return Committed(newBalance);
    }

    method DeductFeature(user: UserId, feature: string, amount: real) returns (r: Outcome)
      modifies this
      ensures (Contents(), r) == Applied(old(Contents()), Op.DeductFeature(user, feature, amount))
    {
      if user !in balances {
        return NoUser;
      }
      var balance := balances[user];
      if balance as real < amount {
        return InsufficientFunds;
      }
      var newBalance := RoundHalfEven(balance as real - amount);
      balances := balances[user := newBalance];
      ledger := ledger + [LedgerRow(user, RoundHalfAway(-amount), Other(feature), newBalance, None)];
      return Committed(newBalance);
    }

    /** `newId` is the id the database generates; one that is taken aborts the insert. */
    method UpsertGoogleUser(g: GoogleId, newId: UserId, freeCredits: real) returns (r: Outcome)
      modifies this
      ensures (Contents(), r) == Applied(old(Contents()), SignIn(g, newId, freeCredits))
    {
      if g in accounts {
        return SignedIn(accounts[g], false);
      }
      if newId in balances {
        return Aborted;
      }
      var granted := RoundHalfAway(freeCredits);
      accounts := accounts[g := newId];
      balances := balances[newId := granted];
      ledger := ledger + [LedgerRow(newId, granted, FreeCredit, granted, None)];
      return SignedIn(newId, true);
    }
  }

  function Empty(): Db {
    Db(map[], map[], [], {}, map[])
  }

  /** Operations carried out one after the other. */
  function Serial(db: Db, ops: seq<Op>): Db {
    if ops == [] then db else Applied(Serial(db, ops[..|ops| - 1]), ops[|ops| - 1]).0
  }

  // ---- The books balance -------------------------------------------------------------------------------

  /** The sum of a user's ledger rows. */
  function Total(ledger: seq<LedgerRow>, u: UserId): int {
    if ledger == [] then 0
    else
      var last := ledger[|ledger| - 1];
      Total(ledger[..|ledger| - 1], u) + if last.user == u then last.amount else 0
  }

  /** Every balance is the sum of its rows, every row says the sum up to it, and only users have rows. */
  ghost predicate Balanced(db: Db) {
    && (forall u :: u in db.balances ==> db.balances[u] == Total(db.ledger, u))
    && (forall k :: 0 <= k < |db.ledger| ==> RowBalances(db.ledger, k))
    && (forall k :: 0 <= k < |db.ledger| ==> db.ledger[k].user in db.balances)
  }

  predicate RowBalances(ledger: seq<LedgerRow>, k: nat)
    requires k < |ledger|
  {
    ledger[k].balanceAfter == Total(ledger[..k + 1], ledger[k].user)
  }

  lemma TotalAppend(ledger: seq<LedgerRow>, row: LedgerRow, u: UserId)
    ensures Total(ledger + [row], u) == Total(ledger, u) + if row.user == u then row.amount else 0
  {
    assert (ledger + [row])[..|ledger|] == ledger;
  }

  lemma {:induction false} TotalOfStranger(ledger: seq<LedgerRow>, u: UserId)
    requires forall k :: 0 <= k < |ledger| ==> ledger[k].user != u
    ensures Total(ledger, u) == 0
  {
    if ledger == [] {
    } else {
      TotalOfStranger(ledger[..|ledger| - 1], u);
    }
  }

  lemma RowsAppend(ledger: seq<LedgerRow>, row: LedgerRow)
    ensures (forall k :: 0 <= k < |ledger + [row]| ==> RowBalances(ledger + [row], k)) <==>
      (forall k :: 0 <= k < |ledger| ==> RowBalances(ledger, k)) && row.balanceAfter == Total(ledger, row.user) + row.amount
  {
    var all := ledger + [row];
    TotalAppend(ledger, row, row.user);
    assert all[..|ledger| + 1] == all;
    forall k | 0 <= k < |ledger|
      ensures RowBalances(all, k) <==> RowBalances(ledger, k)
    {
      assert all[..k + 1] == ledger[..k + 1];
    }
    assert RowBalances(all, |ledger|) <==> row.balanceAfter == Total(ledger, row.user) + row.amount;
  }

  /** A row appended for a user keeps the books exactly when its amount is the change of the balance. */
  lemma PostKeepsBooks(db: Db, row: LedgerRow, next: Db)
    requires Balanced(db) && next.ledger == db.ledger + [row]
    requires next.balances == db.balances[row.user := row.balanceAfter]
    ensures Balanced(next) <==> row.balanceAfter == Total(db.ledger, row.user) + row.amount
  {
    RowsAppend(db.ledger, row);
    forall u ensures Total(next.ledger, u) == Total(db.ledger, u) + if row.user == u then row.amount else 0 {
      TotalAppend(db.ledger, row, u);
    }
  }

  /** The ledger column gets the very change the balance undergoes. */
  predicate Reconciles(balance: int, op: Op)
    requires !op.SignIn?
  {
    var x := Change(op);
    IsTie(x) ==> (x > 0.0 <==> (balance + x.Floor) % 2 == 1)
  }

  /** A money operation keeps the books exactly when it commits nothing or its amount reconciles. */
  lemma BooksKeptExactlyWhen(db: Db, op: Op)
    requires Balanced(db) && !op.SignIn?
    ensures Balanced(Applied(db, op).0) <==> (Applied(db, op).1.Committed? ==> Reconciles(db.balances[op.user], op))
  {
    if Applied(db, op).1.Committed? {
      var b := db.balances[op.user];
      PostKeepsBooks(db, RowOf(op, NewBalance(b, op)), Applied(db, op).0);
      RoundingsAgreeExactlyWhen(b, Change(op));
    }
  }

  /** The guard is needed: half a millionth credited to an even balance puts the books out by one. */
  lemma HalfAMillionthIsLost(db: Db, u: UserId, kind: Kind)
    requires Balanced(db) && u in db.balances && db.balances[u] % 2 == 0
    ensures var next := Applied(db, AddCredits(u, 0.5, kind, None)).0;
      && next.balances[u] == db.balances[u] && Total(next.ledger, u) == db.balances[u] + 1
      && !Balanced(next)
  {
    var op, b := AddCredits(u, 0.5, kind, None), db.balances[u];
    FloorShift(b, 0.5);
    TotalAppend(db.ledger, RowOf(op, NewBalance(b, op)), u);
  }

  lemma SignInKeepsBooks(db: Db, op: Op)
    requires Balanced(db) && op.SignIn?
    ensures Balanced(Applied(db, op).0)
  {
    if Applied(db, op).0 != db {
      TotalOfStranger(db.ledger, op.newId);
      PostKeepsBooks(db, WelcomeRow(op.newId, op.freeCredits), Applied(db, op).0);
    }
  }

  /** Operation `k` of a run creates an account, commits nothing, or reconciles. */
  predicate ReconcilesAt(db: Db, ops: seq<Op>, k: nat)
    requires k < |ops|
  {
    var before := Serial(db, ops[..k]);
    !ops[k].SignIn? && Applied(before, ops[k]).1.Committed? ==> Reconciles(before.balances[ops[k].user], ops[k])
  }

  ghost predicate BalancedAt(db: Db, ops: seq<Op>, k: nat)
    requires k <= |ops|
  {
    Balanced(Serial(db, ops[..k]))
  }

  lemma NextBalancedAt(db: Db, ops: seq<Op>, k: nat)
    requires k < |ops| && BalancedAt(db, ops, k)
    ensures BalancedAt(db, ops, k + 1) <==> ReconcilesAt(db, ops, k)
  {
    var before := Serial(db, ops[..k]);
    assert ops[..k + 1][..k] == ops[..k] && ops[..k + 1][k] == ops[k];
    if ops[k].SignIn? {
      SignInKeepsBooks(before, ops[k]);
    } else {
      BooksKeptExactlyWhen(before, ops[k]);
    }
  }

  /** The books balance at every moment of a run exactly when every committed amount reconciles. */
  lemma BooksBalanceExactlyWhen(db: Db, ops: seq<Op>)
    requires Balanced(db)
    ensures (forall k :: 0 <= k <= |ops| ==> BalancedAt(db, ops, k)) <==>
      (forall k :: 0 <= k < |ops| ==> ReconcilesAt(db, ops, k))
  {
    if forall k :: 0 <= k < |ops| ==> ReconcilesAt(db, ops, k) {
      var n := 0;
      while n < |ops|
        invariant n <= |ops| && forall k :: 0 <= k <= n ==> BalancedAt(db, ops, k)
      {
        NextBalancedAt(db, ops, n);
        n := n + 1;
      }
    }
    if forall k :: 0 <= k <= |ops| ==> BalancedAt(db, ops, k) {
      forall k | 0 <= k < |ops| ensures ReconcilesAt(db, ops, k) {
        NextBalancedAt(db, ops, k);
      }
    }
  }

  /** No amount is half a millionth off; amounts with six decimals, which `usd` makes, never are. */
  ghost predicate NoTies(ops: seq<Op>) {
    forall k :: 0 <= k < |ops| && !ops[k].SignIn? ==> !IsTie(Change(ops[k]))
  }

  /** From balanced books, any number of operations in any order leaves balanced books. */
  lemma {:induction false} BooksStayBalanced(db: Db, ops: seq<Op>)
    requires Balanced(db) && NoTies(ops)
    ensures Balanced(Serial(db, ops))
    decreases |ops|
  {
    if ops == [] {
    } else {
      var k := |ops| - 1;
      BooksStayBalanced(db, ops[..k]);
      if ops[k].SignIn? {
        SignInKeepsBooks(Serial(db, ops[..k]), ops[k]);
      } else {
        BooksKeptExactlyWhen(Serial(db, ops[..k]), ops[k]);
      }
    }
  }

  // ---- Nobody overspends -------------------------------------------------------------------------------

  /** A deduction goes through exactly when it is covered, and never leaves less than nothing. */
  lemma DeductionsAreCovered(db: Db, op: Op)
    requires IsDeduction(op) && op.user in db.balances
    ensures Applied(db, op).1.Committed? <==> op.amount <= db.balances[op.user] as real
    ensures Applied(db, op).1.Committed? ==> Applied(db, op).0.balances[op.user] == Applied(db, op).1.balance >= 0
    ensures !Applied(db, op).1.Committed? ==> Applied(db, op) == (db, InsufficientFunds)
  {
    RoundingKeepsSign(db.balances[op.user] as real - op.amount);
  }

  ghost predicate NoDebt(db: Db) {
    forall u :: u in db.balances ==> db.balances[u] >= 0
  }

  /** Credits and welcome grants do not take money away; deductions may ask for anything. */
  predicate Gives(op: Op) {
    match op
    case AddCredits(_, amount, _, _) => amount >= 0.0
    case StripeCredit(_, _, amount) => amount >= 0.0
    case SignIn(_, _, freeCredits) => freeCredits >= 0.0
    case _ => true
  }

  lemma {:induction false} NobodyOverspends(db: Db, ops: seq<Op>)
    requires NoDebt(db) && forall k :: 0 <= k < |ops| ==> Gives(ops[k])
    ensures NoDebt(Serial(db, ops))
    decreases |ops|
  {
    if ops == [] {
    } else {
      var k := |ops| - 1;
      var before := Serial(db, ops[..k]);
      NobodyOverspends(db, ops[..k]);
      if ops[k].SignIn? {
        RoundingKeepsSign(ops[k].freeCredits);
      } else if ops[k].user in before.balances {
        RoundingKeepsSign(before.balances[ops[k].user] as real + Change(ops[k]));
      }
    }
  }

  // ---- Exactly once ------------------------------------------------------------------------------------

  /** How many rows carry a Stripe event. */
  function EventRows(ledger: seq<LedgerRow>, e: EventId): nat {
    if ledger == [] then 0
    else EventRows(ledger[..|ledger| - 1], e) + if ledger[|ledger| - 1].event == Some(e) then 1 else 0
  }

  /** How many welcome rows a user has. */
  function WelcomeRows(ledger: seq<LedgerRow>, u: UserId): nat {
    if ledger == [] then 0
    else
      var last := ledger[|ledger| - 1];
      WelcomeRows(ledger[..|ledger| - 1], u) + if last.kind == FreeCredit && last.user == u then 1 else 0
  }

  /** What every caller does: manual credits carry no Stripe event and are no welcome grants. */
  predicate IsManual(op: Op) {
    op.AddCredits? ==> op.event == None && op.kind != FreeCredit
  }

  /** An event is recorded exactly when one row credits it; no row does otherwise. */
  ghost predicate CreditedOnce(db: Db) {
    forall e :: EventRows(db.ledger, e) == if e in db.events then 1 else 0
  }

  /** Accounts and balances belong together one to one, and every user was welcomed exactly once. */
  ghost predicate WelcomedOnce(db: Db) {
    OneAccountEach(db) && forall u :: WelcomeRows(db.ledger, u) == if u in db.balances then 1 else 0
  }

  ghost predicate OneAccountEach(db: Db) {
    && (forall g :: g in db.accounts ==> db.accounts[g] in db.balances)
    && (forall g, h :: g in db.accounts && h in db.accounts && db.accounts[g] == db.accounts[h] ==> g == h)
    && (forall u :: u in db.balances ==> HasAccount(db, u))
  }

  ghost predicate HasAccount(db: Db, u: UserId) {
    exists g :: g in db.accounts && db.accounts[g] == u
  }

  lemma EventsAppend(ledger: seq<LedgerRow>, row: LedgerRow, e: EventId)
    ensures EventRows(ledger + [row], e) == EventRows(ledger, e) + if row.event == Some(e) then 1 else 0
  {
    assert (ledger + [row])[..|ledger|] == ledger;
  }

  lemma WelcomesAppend(ledger: seq<LedgerRow>, row: LedgerRow, u: UserId)
    ensures WelcomeRows(ledger + [row], u) ==
      WelcomeRows(ledger, u) + if row.kind == FreeCredit && row.user == u then 1 else 0
  {
    assert (ledger + [row])[..|ledger|] == ledger;
  }

  /** The row an operation appends, if any. */
  function Appended(db: Db, op: Op): Option<LedgerRow> {
    match Applied(db, op).1
    case Committed(n) => if op.SignIn? then None else Some(RowOf(op, n))
    case SignedIn(u, isNew) => if isNew && op.SignIn? then Some(WelcomeRow(u, op.freeCredits)) else None
    case _ => None
  }

  lemma AppliedAppends(db: Db, op: Op)
    ensures Applied(db, op).0.ledger ==
      if Appended(db, op).Some? then db.ledger + [Appended(db, op).value] else db.ledger
  {
  }

  lemma AppliedCreditsOnce(db: Db, op: Op)
    requires IsManual(op) && CreditedOnce(db)
    ensures CreditedOnce(Applied(db, op).0)
  {
    AppliedAppends(db, op);
    if Appended(db, op).Some? {
      var row := Appended(db, op).value;
      forall e ensures EventRows(db.ledger + [row], e) == if e in Applied(db, op).0.events then 1 else 0 {
        EventsAppend(db.ledger, row, e);
      }
    }
  }

  lemma AccountsStay(db: Db, op: Op, u: UserId)
    requires OneAccountEach(db) && u in Applied(db, op).0.balances
    ensures HasAccount(Applied(db, op).0, u)
  {
    var next := Applied(db, op).0;
    if u in db.balances {
      var g :| g in db.accounts && db.accounts[g] == u;
      assert g in next.accounts && next.accounts[g] == u;
    } else {
      assert op.SignIn? && next.accounts[op.googleId] == u;
    }
  }

  lemma AppliedKeepsAccounts(db: Db, op: Op)
    requires OneAccountEach(db)
    ensures OneAccountEach(Applied(db, op).0)
  {
    forall u | u in Applied(db, op).0.balances ensures HasAccount(Applied(db, op).0, u) {
      AccountsStay(db, op, u);
    }
  }

  lemma AppliedWelcomesOnce(db: Db, op: Op)
    requires IsManual(op) && WelcomedOnce(db)
    ensures WelcomedOnce(Applied(db, op).0)
  {
    AppliedKeepsAccounts(db, op);
    AppliedAppends(db, op);
    if Appended(db, op).Some? {
      var row := Appended(db, op).value;
      forall u ensures WelcomeRows(db.ledger + [row], u) == if u in Applied(db, op).0.balances then 1 else 0 {
        WelcomesAppend(db.ledger, row, u);
      }
    }
  }

  /** Over any operations, however often an event is delivered or a user signs in. */
  lemma {:induction false} OnceStaysOnce(db: Db, ops: seq<Op>)
    requires forall k :: 0 <= k < |ops| ==> IsManual(ops[k])
    ensures CreditedOnce(db) ==> CreditedOnce(Serial(db, ops))
    ensures WelcomedOnce(db) ==> WelcomedOnce(Serial(db, ops))
    decreases |ops|
  {
    if ops == [] {
    } else {
      var k := |ops| - 1;
      var before := Serial(db, ops[..k]);
      OnceStaysOnce(db, ops[..k]);
      if CreditedOnce(before) {
        AppliedCreditsOnce(before, ops[k]);
      }
      if WelcomedOnce(before) {
        AppliedWelcomesOnce(before, ops[k]);
      }
    }
  }

  // ---- Usage sessions ----------------------------------------------------------------------------------

  /** What one operation takes off a balance on account of a session, read off its ledger row. */
  function SpentBy(db: Db, op: Op, session: SessionId): int {
    if op.DeductUsage? && op.session == Some(session) && Applied(db, op).1.Committed?
    then -RowOf(op, 0).amount else 0
  }

  function SpentOn(db: Db, ops: seq<Op>, session: SessionId): int {
    if ops == [] then 0
    else SpentOn(db, ops[..|ops| - 1], session) + SpentBy(Serial(db, ops[..|ops| - 1]), ops[|ops| - 1], session)
  }

  /** The database's own rounding of a cost agrees with that of the ledger row. */
  predicate Accrues(cost: int, amount: real) {
    IsTie(amount) ==> (amount > 0.0 <==> cost as real + amount >= 0.0)
  }

  lemma AccruesExactlyWhen(cost: int, amount: real)
    ensures RoundHalfAway(cost as real + amount) == cost - RoundHalfAway(-amount) <==> Accrues(cost, amount)
  {
    FloorShift(cost, amount);
    FloorOfNegative(amount);
  }

  lemma FloorOfNegative(x: real)
    ensures (-x).Floor == if IsWhole(x) then -x.Floor else -x.Floor - 1
  {
  }

  /** One operation keeps a session's cost in line with the ledger exactly when its amount accrues. */
  lemma SessionStep(db: Db, op: Op, session: SessionId)
    requires session in db.sessions
    ensures session in Applied(db, op).0.sessions
    ensures Applied(db, op).0.sessions[session].cost == db.sessions[session].cost + SpentBy(db, op, session) <==>
      (op.DeductUsage? && op.session == Some(session) && Applied(db, op).1.Committed? ==>
       Accrues(db.sessions[session].cost, op.amount))
  {
    if op.DeductUsage? {
      AccruesExactlyWhen(db.sessions[session].cost, op.amount);
    }
  }

  /** Usage is charged, or at least never half a millionth off. */
  ghost predicate Charges(db: Db, ops: seq<Op>, session: SessionId)
    requires session in db.sessions
  {
    || (db.sessions[session].cost >= 0 && forall k :: 0 <= k < |ops| && ops[k].DeductUsage? ==> ops[k].amount >= 0.0)
    || (forall k :: 0 <= k < |ops| && ops[k].DeductUsage? ==> !IsTie(ops[k].amount))
  }

  /**
    A session's cost is what its usage took off balances, for all amounts that are not negative, and for
    all amounts without ties.
   */
  lemma {:induction false} SessionCostIsSpent(db: Db, ops: seq<Op>, session: SessionId)
    requires session in db.sessions && Charges(db, ops, session)
    ensures session in Serial(db, ops).sessions
    ensures Serial(db, ops).sessions[session].cost == db.sessions[session].cost + SpentOn(db, ops, session)
    ensures (forall k :: 0 <= k < |ops| && ops[k].DeductUsage? ==> ops[k].amount >= 0.0) ==> SpentOn(db, ops, session) >= 0
    decreases |ops|
  {
    if ops == [] {
    } else {
      var k := |ops| - 1;
      var before := Serial(db, ops[..k]);
      SessionCostIsSpent(db, ops[..k], session);
      SessionStep(before, ops[k], session);
      SpentIsNotNegative(before, ops[k], session);
    }
  }

  lemma {:induction false} SessionsStay(db: Db, ops: seq<Op>, session: SessionId)
    requires session in db.sessions
    ensures session in Serial(db, ops).sessions
  {
    if ops == [] {
    } else {
      SessionsStay(db, ops[..|ops| - 1], session);
      SessionStep(Serial(db, ops[..|ops| - 1]), ops[|ops| - 1], session);
    }
  }

  /** After `k` operations the session's cost is what its usage took off balances. */
  ghost predicate InLine(db: Db, ops: seq<Op>, session: SessionId, k: nat)
    requires session in db.sessions && k <= |ops|
  {
    SessionsStay(db, ops[..k], session);
    Serial(db, ops[..k]).sessions[session].cost == db.sessions[session].cost + SpentOn(db, ops[..k], session)
  }

  /** Operation `k` charges the session nothing, or an amount that accrues to its cost. */
  ghost predicate AccruesAt(db: Db, ops: seq<Op>, session: SessionId, k: nat)
    requires session in db.sessions && k < |ops|
  {
    var before := Serial(db, ops[..k]);
    SessionsStay(db, ops[..k], session);
    ops[k].DeductUsage? && ops[k].session == Some(session) && Applied(before, ops[k]).1.Committed? ==>
      Accrues(before.sessions[session].cost, ops[k].amount)
  }

  lemma NextInLine(db: Db, ops: seq<Op>, session: SessionId, k: nat)
    requires session in db.sessions && k < |ops| && InLine(db, ops, session, k)
    ensures InLine(db, ops, session, k + 1) <==> AccruesAt(db, ops, session, k)
  {
    var first := ops[..k + 1];
    assert first[..k] == ops[..k] && first[k] == ops[k];
    SessionsStay(db, ops[..k], session);
    SessionStep(Serial(db, ops[..k]), ops[k], session);
  }

  /** Cost and ledger agree at every moment of a run exactly when every charge accrues. */
  lemma SessionCostExactlyWhen(db: Db, ops: seq<Op>, session: SessionId)
    requires session in db.sessions
    ensures (forall k :: 0 <= k <= |ops| ==> InLine(db, ops, session, k)) <==>
      (forall k :: 0 <= k < |ops| ==> AccruesAt(db, ops, session, k))
  {
    if forall k :: 0 <= k < |ops| ==> AccruesAt(db, ops, session, k) {
      var n := 0;
      while n < |ops|
        invariant n <= |ops| && forall k :: 0 <= k <= n ==> InLine(db, ops, session, k)
      {
        NextInLine(db, ops, session, n);
        n := n + 1;
      }
    }
    if forall k :: 0 <= k <= |ops| ==> InLine(db, ops, session, k) {
      forall k | 0 <= k < |ops| ensures AccruesAt(db, ops, session, k) {
        NextInLine(db, ops, session, k);
      }
    }
  }

  lemma SpentIsNotNegative(db: Db, op: Op, session: SessionId)
    ensures op.DeductUsage? && op.amount >= 0.0 ==> SpentBy(db, op, session) >= 0
  {
    if op.DeductUsage? {
      FloorOfNegative(op.amount);
    }
  }

  // ---- Equal deductions --------------------------------------------------------------------------------

  lemma DeductStep(db: Db, op: Op, a: nat)
    requires IsDeduction(op) && op.user in db.balances && op.amount == a as real
    ensures op.user in Applied(db, op).0.balances
    ensures Applied(db, op).0.balances[op.user] == AfterDeduction(db.balances[op.user], a)
    ensures Applied(db, op).1.Committed? <==> a <= db.balances[op.user]
  {
    IntsSubtract(db.balances[op.user], a);
  }

  function AfterDeduction(balance: int, a: nat): int {
    if a <= balance then balance - a else balance
  }

  /** What `k` attempts to deduct `a` leave of `b`. */
  function Left(a: nat, b: nat, k: nat): int {
    if k == 0 then b else AfterDeduction(Left(a, b, k - 1), a)
  }

  lemma {:induction false} LeftWhileCovered(a: nat, b: nat, k: nat, q: nat)
    requires k <= q && a * q <= b
    ensures Left(a, b, k) == b - a * k
    decreases k
  {
    if k == 0 {
    } else {
      LeftWhileCovered(a, b, k - 1, q);
      MulSucc(a, k - 1);
      MulMono(a, k, q);
    }
  }

  lemma {:induction false} LeftWhenSpent(a: nat, b: nat, k: nat, q: nat)
    requires k >= q && a * q <= b < a * q + a
    ensures Left(a, b, k) == b - a * q
    decreases k
  {
    if k == q {
      LeftWhileCovered(a, b, k, q);
    } else {
      LeftWhenSpent(a, b, k - 1, q);
    }
  }

  /** Exactly the first `b / a` attempts are covered. */
  lemma LeftIs(a: nat, b: nat, k: nat)
    requires a > 0
    ensures Left(a, b, k) == if k <= b / a then b - a * k else b % a
    ensures a <= Left(a, b, k) <==> k < b / a
  {
    var q := b / a;
    assert b == a * q + b % a;
    if k < q {
      LeftWhileCovered(a, b, k, q);
      MulMono(a, k + 1, q);
      MulSucc(a, k);
    } else {
      LeftWhenSpent(a, b, k, q);
    }
  }

  /** After some deductions of `a` from `b`, as many were covered as fit, and those came first. */
  lemma {:induction false} EqualDeductions(db: Db, ops: seq<Op>, u: UserId, a: nat, b: nat)
    requires u in db.balances && db.balances[u] == b && Same(ops, u, a)
    ensures u in Serial(db, ops).balances && Serial(db, ops).balances[u] == Left(a, b, |ops|)
    decreases |ops|
  {
    if ops == [] {
    } else {
      var k := |ops| - 1;
      EqualDeductions(db, ops[..k], u, a, b);
      DeductStep(Serial(db, ops[..k]), ops[k], a);
    }
  }

  ghost predicate Same(ops: seq<Op>, u: UserId, a: nat) {
    forall k :: 0 <= k < |ops| ==> IsDeduction(ops[k]) && ops[k].user == u && ops[k].amount == a as real
  }

  // ---- What is paid arrives ----------------------------------------------------------------------------

  /** A credit of a whole amount commits exactly that amount, with a row of the caller's kind and event. */
  lemma CreditArrives(db: Db, u: UserId, a: int, kind: Kind, event: Option<EventId>)
    requires u in db.balances
    ensures var n := db.balances[u] + a;
      Applied(db, AddCredits(u, a as real, kind, event)) ==
      (Db(db.accounts, db.balances[u := n], db.ledger + [LedgerRow(u, a, kind, n, event)], db.events, db.sessions),
       Committed(n))
  {
    IntsAreWhole(db.balances[u], a);
  }

  /** A new Stripe event for a known user credits exactly its amount and is recorded with it. */
  lemma StripeArrives(db: Db, e: EventId, u: UserId, a: int)
    requires u in db.balances && e !in db.events
    ensures var n := db.balances[u] + a;
      Applied(db, StripeCredit(e, u, a as real)) ==
      (Db(db.accounts, db.balances[u := n], db.ledger + [LedgerRow(u, a, Purchase, n, Some(e))],
          db.events + {e}, db.sessions), Committed(n))
  {
    IntsAreWhole(db.balances[u], a);
  }

  /** Covered usage takes exactly its amount, and its session gains the time and the amount. */
  lemma UsageIsTaken(db: Db, u: UserId, s: SessionId, seconds: int, a: int)
    requires u in db.balances && a <= db.balances[u] && s in db.sessions
    ensures var n := db.balances[u] - a;
      Applied(db, DeductUsage(u, Some(s), seconds, a as real)) ==
      (Db(db.accounts, db.balances[u := n], db.ledger + [LedgerRow(u, -a, Usage, n, None)], db.events,
          db.sessions[s := Session(db.sessions[s].seconds + seconds, db.sessions[s].cost + a)]), Committed(n))
  {
    IntsSubtract(db.balances[u], a);
    IntsAreWhole(0, a);
    IntsAreWhole(db.sessions[s].cost, a);
  }

  /** The same without a session, or with one there is no row of. */
  lemma UsageWithoutSession(db: Db, u: UserId, session: Option<SessionId>, seconds: int, a: int)
    requires u in db.balances && a <= db.balances[u] && (session.Some? ==> session.value !in db.sessions)
    ensures var n := db.balances[u] - a;
      Applied(db, DeductUsage(u, session, seconds, a as real)) ==
      (Db(db.accounts, db.balances[u := n], db.ledger + [LedgerRow(u, -a, Usage, n, None)], db.events, db.sessions),
       Committed(n))
  {
    IntsSubtract(db.balances[u], a);
    IntsAreWhole(0, a);
  }

  /** A covered feature charge takes exactly its amount, with a row named after the feature. */
  lemma FeatureIsTaken(db: Db, u: UserId, feature: string, a: int)
    requires u in db.balances && a <= db.balances[u]
    ensures var n := db.balances[u] - a;
      Applied(db, DeductFeature(u, feature, a as real)) ==
      (Db(db.accounts, db.balances[u := n], db.ledger + [LedgerRow(u, -a, Other(feature), n, None)], db.events,
          db.sessions), Committed(n))
  {
    IntsSubtract(db.balances[u], a);
    IntsAreWhole(0, a);
  }

  /** A first sign-in creates the account with exactly the grant; a later one changes nothing. */
  lemma SignInGrants(db: Db, g: GoogleId, u: UserId, a: int)
    requires u !in db.balances
    ensures Applied(db, SignIn(g, u, a as real)) ==
      if g in db.accounts then (db, SignedIn(db.accounts[g], false))
      else (Db(db.accounts[g := u], db.balances[u := a], db.ledger + [LedgerRow(u, a, FreeCredit, a, None)],
               db.events, db.sessions), SignedIn(u, true))
  {
    IntsAreWhole(0, a);
  }

  /** A credit is refused only for an unknown user or an event on record. */
  lemma CreditsAreAnswered(db: Db, u: UserId, a: real, kind: Kind, event: Option<EventId>, e: EventId)
    ensures Applied(db, AddCredits(u, a, kind, event)).1.Committed? <==> u in db.balances
    ensures u !in db.balances ==> Applied(db, AddCredits(u, a, kind, event)) == (db, NoUser)
    ensures Applied(db, StripeCredit(e, u, a)).1.Committed? <==> u in db.balances && e !in db.events
    ensures e in db.events ==> Applied(db, StripeCredit(e, u, a)) == (db, Duplicate)
    ensures e !in db.events && u !in db.balances ==> Applied(db, StripeCredit(e, u, a)) == (db, NoUser)
  {
  }

  /** What an operation with this outcome is worth to a user. */
  function Worth(op: Op, outcome: Outcome, u: UserId): real {
    match op
    case AddCredits(v, a, _, _) => if v == u && outcome.Committed? then a else 0.0
    case StripeCredit(_, v, a) => if v == u && outcome.Committed? then a else 0.0
    case DeductUsage(v, _, _, a) => if v == u && outcome.Committed? then -a else 0.0
    case DeductFeature(v, _, a) => if v == u && outcome.Committed? then -a else 0.0
    case SignIn(_, v, a) => if v == u && outcome == SignedIn(u, true) then a else 0.0
  }

  function Amount(op: Op): real {
    match op
    case AddCredits(_, a, _, _) => a
    case StripeCredit(_, _, a) => a
    case DeductUsage(_, _, _, a) => a
    case DeductFeature(_, _, a) => a
    case SignIn(_, _, a) => a
  }

  /** Any amount, whole or not, arrives to within half a millionth. */
  lemma AnyAmountArrives(db: Db, op: Op)
    requires !op.SignIn? && Applied(db, op).1.Committed?
    ensures op.user in db.balances && Applied(db, op).0.balances[op.user] == Applied(db, op).1.balance
    ensures -0.5 <= Applied(db, op).1.balance as real - (db.balances[op.user] as real + Worth(op, Applied(db, op).1, op.user)) <= 0.5
  {
  }

  ghost predicate AllWhole(ops: seq<Op>) {
    forall k :: 0 <= k < |ops| ==> IsWhole(Amount(ops[k]))
  }

  function BalanceOf(db: Db, u: UserId): int {
    if u in db.balances then db.balances[u] else 0
  }

  /** The worth of a run to a user, from the amounts and outcomes of its operations. */
  function NetWorth(db: Db, ops: seq<Op>, u: UserId): real {
    if ops == [] then 0.0
    else
      var first, op := ops[..|ops| - 1], ops[|ops| - 1];
      NetWorth(db, first, u) + Worth(op, Applied(Serial(db, first), op).1, u)
  }

  lemma WorthArrives(db: Db, op: Op, u: UserId)
    requires IsWhole(Amount(op))
    ensures BalanceOf(Applied(db, op).0, u) as real == BalanceOf(db, u) as real + Worth(op, Applied(db, op).1, u)
  {
    var a := Amount(op).Floor;
    match op
    case AddCredits(v, _, kind, event) =>
      if v in db.balances {
        CreditArrives(db, v, a, kind, event);
      }
    case StripeCredit(e, v, _) =>
      if v in db.balances && e !in db.events {
        StripeArrives(db, e, v, a);
      }
    case DeductUsage(v, session, seconds, _) =>
      if v in db.balances && a <= db.balances[v] {
        if session.Some? && session.value in db.sessions {
          UsageIsTaken(db, v, session.value, seconds, a);
        } else {
          UsageWithoutSession(db, v, session, seconds, a);
        }
      }
    case DeductFeature(v, feature, _) =>
      if v in db.balances && a <= db.balances[v] {
        FeatureIsTaken(db, v, feature, a);
      }
    case SignIn(g, v, _) =>
      if v !in db.balances {
        SignInGrants(db, g, v, a);
      }
  }

  /**
    Over any run with whole amounts a balance is what it was, plus the welcome grant and the committed
    credits and payments, less the committed deductions.
   */
  lemma {:induction false} BalanceIsNetWorth(db: Db, ops: seq<Op>, u: UserId)
    requires AllWhole(ops)
    ensures BalanceOf(Serial(db, ops), u) as real == BalanceOf(db, u) as real + NetWorth(db, ops, u)
    decreases |ops|
  {
    if ops == [] {
    } else {
      var first := ops[..|ops| - 1];
      BalanceIsNetWorth(db, first, u);
      WorthArrives(Serial(db, first), ops[|ops| - 1], u);
    }
  }
}
