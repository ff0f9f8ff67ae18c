/**
  `vm.deal` and its rollback: every deal pushes the old balance, and a top-level revert pops the log
  and puts the old balances back, newest first.
 */
module Deals {
  import opened Options

  type Address = nat
  type Balances = map<Address, nat>

  datatype DealRecord = DealRecord(address: Address, oldBalance: nat, newBalance: nat)

  /** Undoing a log from its newest record to its oldest, on the loaded accounts. */
  function Undo(balances: Balances, deals: seq<DealRecord>): Balances
    decreases |deals|
  {
    if deals == [] then balances
    else
      var r := deals[|deals| - 1];
      Undo(if r.address in balances then balances[r.address := r.oldBalance] else balances,
           deals[..|deals| - 1])
  }

  class Cheatcodes {
    var ethDeals: seq<DealRecord>
    var balances: Balances
    var expectedRevert: bool

    constructor (balances: Balances)
      ensures ethDeals == [] && this.balances == balances && !expectedRevert
    {
      ethDeals, this.balances, expectedRevert := [], balances, false;
    }

    /** `dbBalance` is what the database holds for an account that is not loaded yet, `None` if loading
        it fails. */
    method Deal(address: Address, newBalance: nat, dbBalance: Option<nat>) returns (ok: bool)
      modifies this
      ensures expectedRevert == old(expectedRevert)
      ensures ok == Loaded(old(balances), address, dbBalance).Some?
      ensures !ok ==> ethDeals == old(ethDeals) && balances == old(balances)
      ensures ok ==>
        && ethDeals == old(ethDeals)
             + [DealRecord(address, Loaded(old(balances), address, dbBalance).value, newBalance)]
        && balances == old(balances)[address := newBalance]
    {
      if address !in balances {
        if dbBalance.None? {
          return false;
        }
        balances := balances[address := dbBalance.value];
      }
      var oldBalance := balances[address];
      balances := balances[address := newBalance];
      ethDeals := ethDeals + [DealRecord(address, oldBalance, newBalance)];
      return true;
    }

    method OnRevert(depth: nat)
      modifies this
      ensures expectedRevert == old(expectedRevert)
      ensures expectedRevert || depth > 0 ==> ethDeals == old(ethDeals) && balances == old(balances)
      ensures !expectedRevert && depth == 0 ==> ethDeals == [] && balances == Undo(old(balances), old(ethDeals))
    {
      if expectedRevert {
        return;
      }
      if depth > 0 {
        return;
      }
      while |ethDeals| > 0
        invariant expectedRevert == old(expectedRevert)
        invariant Undo(balances, ethDeals) == Undo(old(balances), old(ethDeals))
        decreases |ethDeals|
      {
        var record := ethDeals[|ethDeals| - 1];
        ethDeals := ethDeals[..|ethDeals| - 1];
        if record.address in balances {
          balances := balances[record.address := record.oldBalance];
        }
      }
    }
  }

  /** The balance of an account, from the journal or else from the database. */
  function Loaded(balances: Balances, address: Address, dbBalance: Option<nat>): Option<nat> {
    if address in balances then Some(balances[address]) else dbBalance
  }

  // ---------------------------------------------------------------- what the rollback restores

  predicate Dealt(deals: seq<DealRecord>, a: Address) {
    exists i :: 0 <= i < |deals| && deals[i].address == a
  }

  /** The old balance in the earliest record of an account. */
  function Earliest(deals: seq<DealRecord>, a: Address): nat
    requires Dealt(deals, a)
  {
    if deals[0].address == a then deals[0].oldBalance
    else
      assert Dealt(deals[1..], a) by {
        var i :| 0 <= i < |deals| && deals[i].address == a;
        assert deals[1..][i - 1].address == a;
      }
      Earliest(deals[1..], a)
  }

  lemma {:induction false} EarliestFront(deals: seq<DealRecord>, a: Address)
    requires deals != [] && Dealt(deals[..|deals| - 1], a)
    ensures Dealt(deals, a) && Earliest(deals, a) == Earliest(deals[..|deals| - 1], a)
    decreases |deals|
  {
    var front := deals[..|deals| - 1];
    var i :| 0 <= i < |front| && front[i].address == a;
    assert deals[i].address == a && deals[0] == front[0];
    if deals[0].address != a {
      assert front[1..] == deals[1..][..|deals[1..]| - 1];
      assert front[1..][i - 1].address == a;
      EarliestFront(deals[1..], a);
    }
  }

  lemma {:induction false} EarliestLast(deals: seq<DealRecord>, a: Address)
    requires deals != [] && deals[|deals| - 1].address == a && !Dealt(deals[..|deals| - 1], a)
    ensures Dealt(deals, a) && Earliest(deals, a) == deals[|deals| - 1].oldBalance
    decreases |deals|
  {
    if |deals| > 1 {
      assert deals[..|deals| - 1][0] == deals[0];
      var rest := deals[1..];
      forall i | 0 <= i < |rest| - 1 ensures rest[i].address != a {
        assert deals[..|deals| - 1][i + 1].address != a;
      }
      EarliestLast(rest, a);
    }
  }

  /**
    Whatever happened to the balances meanwhile, the rollback touches exactly the dealt accounts that
    are loaded, and leaves each of them at the balance it had before its first deal.
   */
  lemma {:induction false} UndoRestores(balances: Balances, deals: seq<DealRecord>, a: Address)
    ensures Undo(balances, deals).Keys == balances.Keys
    ensures a in balances ==>
      Undo(balances, deals)[a] == if Dealt(deals, a) then Earliest(deals, a) else balances[a]
    decreases |deals|
  {
    if deals != [] {
      var front, r := deals[..|deals| - 1], deals[|deals| - 1];
      var b := if r.address in balances then balances[r.address := r.oldBalance] else balances;
      UndoRestores(b, front, a);
      if Dealt(front, a) {
        EarliestFront(deals, a);
      } else if r.address == a {
        EarliestLast(deals, a);
      } else {
        assert forall i :: 0 <= i < |front| ==> deals[i] == front[i];
      }
    }
  }

  // ---------------------------------------------------------------- runs of deals

  datatype DealCall = DealCall(address: Address, newBalance: nat)

  type Database = Address -> Option<nat>

  /** Deals one after the other; one whose account does not load changes nothing. */
  function Run(balances: Balances, db: Database, calls: seq<DealCall>): (Balances, seq<DealRecord>) {
    if calls == [] then (balances, [])
    else
      var c := calls[|calls| - 1];
      var (b, deals) := Run(balances, db, calls[..|calls| - 1]);
      match Loaded(b, c.address, db(c.address))
      case None => (b, deals)
      case Some(previous) => (b[c.address := c.newBalance], deals + [DealRecord(c.address, previous, c.newBalance)])
  }

  /** The log remembers, for every account, the balance from before the whole run. */
  lemma {:induction false} RunRemembers(balances: Balances, db: Database, calls: seq<DealCall>, a: Address)
    ensures var (b, deals) := Run(balances, db, calls);
      && (Dealt(deals, a) ==> a in b && Loaded(balances, a, db(a)) == Some(Earliest(deals, a)))
      && (!Dealt(deals, a) ==> (a in b <==> a in balances) && (a in b ==> b[a] == balances[a]))
  {
    if calls != [] {
      var c := calls[|calls| - 1];
      var (b, deals) := Run(balances, db, calls[..|calls| - 1]);
      RunRemembers(balances, db, calls[..|calls| - 1], a);
      if Loaded(b, c.address, db(c.address)).Some? {
        Remembered(deals, DealRecord(c.address, Loaded(b, c.address, db(c.address)).value, c.newBalance), a);
      }
    }
  }

  /** One more record: only the first of an account matters. */
  lemma Remembered(deals: seq<DealRecord>, r: DealRecord, a: Address)
    ensures Dealt(deals + [r], a) <==> Dealt(deals, a) || r.address == a
    ensures Dealt(deals + [r], a) ==>
      Earliest(deals + [r], a) == if Dealt(deals, a) then Earliest(deals, a) else r.oldBalance
  {
    var deals' := deals + [r];
    assert deals'[..|deals'| - 1] == deals && deals'[|deals'| - 1] == r;
    if Dealt(deals, a) {
      EarliestFront(deals', a);
    } else if r.address == a {
      EarliestLast(deals', a);
    }
  }

  /** The balance of the last deal to an account, if there was one. */
  function LastDeal(calls: seq<DealCall>, a: Address): Option<nat> {
    if calls == [] then None
    else if calls[|calls| - 1].address == a then Some(calls[|calls| - 1].newBalance)
    else LastDeal(calls[..|calls| - 1], a)
  }

  /** After any deals an account has the balance of the last one to it, unless it does not load; no other
      account is touched. */
  lemma {:induction false} BalanceAfter(balances: Balances, db: Database, calls: seq<DealCall>, a: Address)
    ensures var (b, _) := Run(balances, db, calls);
      var start, last := Loaded(balances, a, db(a)), LastDeal(calls, a);
      && Loaded(b, a, db(a)) == (if start.Some? && last.Some? then last else start)
      && (a in b <==> a in balances || (start.Some? && last.Some?))
  {
    if calls != [] {
      BalanceAfter(balances, db, calls[..|calls| - 1], a);
    }
  }

  /** If only deals changed balances, the rollback puts back the balance map the run started with;
      accounts the deals brought into the journal are left at their database balance. */
  lemma RollbackIsComplete(balances: Balances, db: Database, calls: seq<DealCall>, a: Address)
    ensures var (b, deals) := Run(balances, db, calls);
      var r := Undo(b, deals);
      && (a in balances ==> a in r && r[a] == balances[a])
      && (a in r ==> Loaded(balances, a, db(a)) == Some(r[a]))
      && (a in r <==> a in balances || (LastDeal(calls, a).Some? && db(a).Some?))
  {
    var (b, deals) := Run(balances, db, calls);
    RunRemembers(balances, db, calls, a);
    BalanceAfter(balances, db, calls, a);
    UndoRestores(b, deals, a);
  }
}
