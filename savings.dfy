/**
 * Savings bookkeeping: the one-click deposit of a plan's monthly rate, its
 * undo (app.js:1081-1106) and the hard delete of a plan with everything that
 * refers to it (app.js:1154-1184).
 */
module Savings {
  import opened Wrappers
  import opened Records
  import opened Calculations

  /** `m.planId === planId && m.month === month && m.type === "deposit"`. */
  predicate IsPlanDeposit(m: Move, planId: string, month: string) {
    m.planId == planId && m.month == month && m.moveType == Deposit
  }

  predicate DepositExists(moves: seq<Move>, planId: string, month: string) {
    exists m :: m in moves && IsPlanDeposit(m, planId, month)
  }

  /** The invariant the deposit button keeps: at most one deposit per plan and month. */
  predicate OneDepositPerPlanMonth(moves: seq<Move>) {
    forall i, j :: 0 <= i < j < |moves| && moves[i].moveType == Deposit ==>
      !IsPlanDeposit(moves[j], moves[i].planId, moves[i].month)
  }

  /** `savingsMoves.findIndex(m => …deposit of plan and month…)`. */
  function DepositIndex(moves: seq<Move>, planId: string, month: string): (i: int)
    ensures -1 <= i < |moves|
    ensures i == -1 <==> !DepositExists(moves, planId, month)
    ensures 0 <= i ==> IsPlanDeposit(moves[i], planId, month)
    ensures 0 <= i ==> forall k :: 0 <= k < i ==> !IsPlanDeposit(moves[k], planId, month)
  {
    if moves == [] then -1
    else if IsPlanDeposit(moves[0], planId, month) then 0
    else
      var i := DepositIndex(moves[1..], planId, month);
      assert forall m :: m in moves ==> m == moves[0] || m in moves[1..];
      if i < 0 then -1 else i + 1
  }

  /** `rate ? rate.amountCents : 0` for the plan's rate of the month. */
  function RateFor(rates: seq<Rate>, planId: string, month: string): (amount: int)
    ensures GetRate(rates, planId, month).None? ==> amount == 0
    ensures GetRate(rates, planId, month).Some? ==> amount == GetRate(rates, planId, month).value.amountCents
    ensures amount != 0 ==> exists x :: x in rates && x.planId == planId && x.month == month && x.amountCents == amount
    ensures (forall x :: x in rates ==> !(x.planId == planId && x.month == month)) ==> amount == 0
  {
    var r := GetRate(rates, planId, month);
    if r.Some? then r.value.amountCents else 0
  }

  datatype DepositOutcome = Deposited | RateNotSet | AlreadyDeposited

  /** Which way `doDeposit(planId)` goes for the month. */
  function DepositDecision(rates: seq<Rate>, moves: seq<Move>, planId: string, month: string): (o: DepositOutcome)
    ensures o == Deposited <==> RateFor(rates, planId, month) > 0 && !DepositExists(moves, planId, month)
    ensures o == RateNotSet <==> RateFor(rates, planId, month) <= 0
  {
    if RateFor(rates, planId, month) <= 0 then RateNotSet
    else if DepositExists(moves, planId, month) then AlreadyDeposited
    else Deposited
  }

  /** The deposit `doDeposit` records: the rate, dated the first of the month. */
  function DepositMove(id: string, planId: string, month: string, amount: int): (m: Move)
    ensures IsPlanDeposit(m, planId, month) && m.amountCents == amount && m.date == FirstDay(month)
  {
    Move(id, planId, FirstDay(month), month, amount, Deposit)
  }

  /** The moves after `doDeposit(planId)`, the new one taking id `id`. */
  function AfterDeposit(rates: seq<Rate>, moves: seq<Move>, planId: string, month: string, id: string): (r: seq<Move>)
    ensures moves <= r && |r| <= |moves| + 1
    ensures |r| == |moves| + 1 ==> IsPlanDeposit(r[|moves|], planId, month) && r[|moves|].id == id
    ensures DepositExists(moves, planId, month) ==> r == moves
    ensures r == moves <==> DepositDecision(rates, moves, planId, month) != Deposited
    ensures |r| == |moves| + 1 ==> r[|moves|] == DepositMove(id, planId, month, RateFor(rates, planId, month))
  {
    if DepositDecision(rates, moves, planId, month) == Deposited
    then moves + [DepositMove(id, planId, month, RateFor(rates, planId, month))]
    else moves
  }

  /** The moves after `undoDeposit(planId)`: the first matching deposit spliced out, if any. */
  function AfterUndo(moves: seq<Move>, planId: string, month: string): (r: seq<Move>)
    ensures r == moves <==> !DepositExists(moves, planId, month)
    ensures |r| >= |moves| - 1 && multiset(r) <= multiset(moves)
  {
    var i := DepositIndex(moves, planId, month);
    if i >= 0 then RemoveAtMultiset(moves, i); RemoveAt(moves, i) else moves
  }

  /** A deposit never produces a second deposit for the same plan and month. */
  lemma DepositKeepsOnePerPlanMonth(rates: seq<Rate>, moves: seq<Move>, planId: string, month: string, id: string)
    requires OneDepositPerPlanMonth(moves)
    ensures OneDepositPerPlanMonth(AfterDeposit(rates, moves, planId, month, id))
  {
    var r := AfterDeposit(rates, moves, planId, month, id);
    if r != moves {
      forall i, j | 0 <= i < j < |r| && r[i].moveType == Deposit
        ensures !IsPlanDeposit(r[j], r[i].planId, r[i].month)
      {
        if j == |moves| {
          assert r[i] in moves;
        }
      }
    }
  }

  /** An accepted deposit adds exactly the rate to the month's deposits and to the plan's balance. */
  lemma DepositAddsRate(rates: seq<Rate>, moves: seq<Move>, planId: string, month: string, id: string)
    requires DepositDecision(rates, moves, planId, month) == Deposited
    ensures var r := AfterDeposit(rates, moves, planId, month, id);
      && RateFor(rates, planId, month) > 0
      && SumDeposits(r, month) == SumDeposits(moves, month) + RateFor(rates, planId, month)
      && PlanBalance(r, planId) == PlanBalance(moves, planId) + RateFor(rates, planId, month)
  {
    var m := DepositMove(id, planId, month, RateFor(rates, planId, month));
    SumDepositsAdd(moves, m, month);
    assert (moves + [m])[..|moves|] == moves;
  }

  /** `undoDeposit` right after an accepted `doDeposit` gives the old list back. */
  lemma UndoAfterDeposit(rates: seq<Rate>, moves: seq<Move>, planId: string, month: string, id: string)
    requires DepositDecision(rates, moves, planId, month) == Deposited
    ensures AfterUndo(AfterDeposit(rates, moves, planId, month, id), planId, month) == moves
  {
    var m := DepositMove(id, planId, month, RateFor(rates, planId, month));
    var r := moves + [m];
    forall k | 0 <= k < |moves| ensures !IsPlanDeposit(r[k], planId, month) {
      assert r[k] in moves;
    }
    RemoveAtLast(moves, m);
  }

  /**
   * `undoDeposit` splices out exactly the first matching deposit and keeps
   * the order of the rest; with no match it changes nothing.
   */
  lemma UndoRemovesFirstMatch(moves: seq<Move>, planId: string, month: string)
    ensures var r := AfterUndo(moves, planId, month);
      && (!DepositExists(moves, planId, month) ==> r == moves)
      && (DepositExists(moves, planId, month) ==>
            exists i :: 0 <= i < |moves| && IsPlanDeposit(moves[i], planId, month)
              && (forall k :: 0 <= k < i ==> !IsPlanDeposit(moves[k], planId, month))
              && r == moves[..i] + moves[i + 1..]
              && multiset(r) + multiset{moves[i]} == multiset(moves))
  {
    var i := DepositIndex(moves, planId, month);
    if i >= 0 {
      RemoveAtMultiset(moves, i);
    }
  }

  /** While the invariant holds, after `undoDeposit` the plan has no deposit left for the month. */
  lemma UndoClearsDeposit(moves: seq<Move>, planId: string, month: string)
    requires OneDepositPerPlanMonth(moves)
    ensures !DepositExists(AfterUndo(moves, planId, month), planId, month)
    ensures OneDepositPerPlanMonth(AfterUndo(moves, planId, month))
  {
    var i := DepositIndex(moves, planId, month);
    if i >= 0 {
      var r := RemoveAt(moves, i);
      forall m | m in r ensures !IsPlanDeposit(m, planId, month) {
        var k :| 0 <= k < |r| && r[k] == m;
        if k >= i {
          assert r[k] == moves[k + 1];
        }
      }
      forall a, b | 0 <= a < b < |r| && r[a].moveType == Deposit
        ensures !IsPlanDeposit(r[b], r[a].planId, r[a].month)
      {
        var a', b' := if a < i then a else a + 1, if b < i then b else b + 1;
        assert r[a] == moves[a'] && r[b] == moves[b'];
      }
    }
  }

  /** `savingsPlans.filter(x => x.id !== planId)`. */
  function PlansWithout(plans: seq<Plan>, planId: string): (r: seq<Plan>)
    ensures forall p :: p in r <==> p in plans && p.id != planId
  {
    if plans == [] then []
    else
      var last := plans[|plans| - 1];
      PlansWithout(plans[..|plans| - 1], planId) + (if last.id != planId then [last] else [])
  }

  /** `savingsRates.filter(x => x.planId !== planId)`. */
  function RatesWithout(rates: seq<Rate>, planId: string): (r: seq<Rate>)
    ensures forall x :: x in r <==> x in rates && x.planId != planId
  {
    if rates == [] then []
    else
      var last := rates[|rates| - 1];
      RatesWithout(rates[..|rates| - 1], planId) + (if last.planId != planId then [last] else [])
  }

  /** `savingsMoves.filter(x => x.planId !== planId)`. */
  function MovesWithout(moves: seq<Move>, planId: string): (r: seq<Move>)
    ensures forall x :: x in r <==> x in moves && x.planId != planId
  {
    if moves == [] then []
    else
      var last := moves[|moves| - 1];
      MovesWithout(moves[..|moves| - 1], planId) + (if last.planId != planId then [last] else [])
  }

  lemma {:induction false} PlansWithoutAppend(s: seq<Plan>, t: seq<Plan>, planId: string)
    ensures PlansWithout(s + t, planId) == PlansWithout(s, planId) + PlansWithout(t, planId)
    decreases |t|
  {
    if t == [] {
      assert s + t == s;
    } else {
      assert (s + t)[..|s + t| - 1] == s + t[..|t| - 1];
      PlansWithoutAppend(s, t[..|t| - 1], planId);
    }
  }

  lemma {:induction false} MovesWithoutAppend(s: seq<Move>, t: seq<Move>, planId: string)
    ensures MovesWithout(s + t, planId) == MovesWithout(s, planId) + MovesWithout(t, planId)
    decreases |t|
  {
    if t == [] {
      assert s + t == s;
    } else {
      assert (s + t)[..|s + t| - 1] == s + t[..|t| - 1];
      MovesWithoutAppend(s, t[..|t| - 1], planId);
    }
  }

  /** The cascade leaves every other plan's balance as it was. */
  lemma {:induction false} HardDeleteKeepsBalances(moves: seq<Move>, planId: string, other: string)
    requires other != planId
    ensures PlanBalance(MovesWithout(moves, planId), other) == PlanBalance(moves, other)
    decreases |moves|
  {
    if moves != [] {
      var p := moves[..|moves| - 1];
      var last := moves[|moves| - 1];
      HardDeleteKeepsBalances(p, planId, other);
      var w := MovesWithout(p, planId);
      var d := if last.planId != other then 0 else if last.moveType == Deposit then last.amountCents else -last.amountCents;
      assert PlanBalance(moves, other) == PlanBalance(p, other) + d;
      if last.planId != planId {
        var ws := w + [last];
        assert MovesWithout(moves, planId) == ws;
        assert ws[..|ws| - 1] == w;
        assert PlanBalance(ws, other) == PlanBalance(w, other) + d;
      } else {
        assert d == 0;
        assert w + [] == w;
        assert MovesWithout(moves, planId) == w;
      }
    }
  }

  lemma {:induction false} RatesWithoutAppend(s: seq<Rate>, t: seq<Rate>, planId: string)
    ensures RatesWithout(s + t, planId) == RatesWithout(s, planId) + RatesWithout(t, planId)
    decreases |t|
  {
    if t == [] {
      assert s + t == s;
    } else {
      assert (s + t)[..|s + t| - 1] == s + t[..|t| - 1];
      RatesWithoutAppend(s, t[..|t| - 1], planId);
    }
  }

  /** The cascade leaves every other plan's rates as `getRate` sees them. */
  lemma {:induction false} HardDeleteKeepsRates(rates: seq<Rate>, planId: string, other: string, month: string)
    requires other != planId
    ensures GetRate(RatesWithout(rates, planId), other, month) == GetRate(rates, other, month)
    decreases |rates|
  {
    if rates != [] {
      var head, tail := [rates[0]], rates[1..];
      assert rates == head + tail;
      HardDeleteKeepsRates(tail, planId, other, month);
      RatesWithoutAppend(head, tail, planId);
      assert head[..0] == [];
      var kept := RatesWithout(head, planId);
      GetRateAppend(kept, RatesWithout(tail, planId), other, month);
      if kept != [] {
        assert kept == head;
        assert kept[1..] == [];
      }
    }
  }

  /**
   * After the cascade the savings overview lists no total for the deleted
   * plan, and every remaining plan shows the total it showed before.
   */
  lemma HardDeleteKeepsTotals(plans: seq<Plan>, moves: seq<Move>, planId: string)
    ensures var r := SavingsTotalsByPlan(PlansWithout(plans, planId), MovesWithout(moves, planId));
      && (forall t :: t in r ==> t.planId != planId)
      && r == SavingsTotalsByPlan(PlansWithout(plans, planId), moves)
  {
    var kept := PlansWithout(plans, planId);
    var active := ActivePlans(kept);
    var r := SavingsTotalsByPlan(kept, MovesWithout(moves, planId));
    var s := SavingsTotalsByPlan(kept, moves);
    forall k | 0 <= k < |r| ensures r[k] == s[k] && r[k].planId != planId {
      assert active[k] in kept;
      HardDeleteKeepsBalances(moves, planId, active[k].id);
      PlanBalanceSplit(moves, active[k].id);
      PlanBalanceSplit(MovesWithout(moves, planId), active[k].id);
    }
  }

  /** The moves of one plan, in list order. */
  function MovesOf(moves: seq<Move>, planId: string): seq<Move> {
    if moves == [] then []
    else
      var last := moves[|moves| - 1];
      MovesOf(moves[..|moves| - 1], planId) + (if last.planId == planId then [last] else [])
  }

  /** The rates of one plan, in list order. */
  function RatesOf(rates: seq<Rate>, planId: string): seq<Rate> {
    if rates == [] then []
    else
      var last := rates[|rates| - 1];
      RatesOf(rates[..|rates| - 1], planId) + (if last.planId == planId then [last] else [])
  }

  /** The cascade keeps every other plan's moves, in their order, and leaves none of the deleted plan's. */
  lemma {:induction false} HardDeleteKeepsMoveOrder(moves: seq<Move>, planId: string, other: string)
    requires other != planId
    ensures MovesOf(MovesWithout(moves, planId), other) == MovesOf(moves, other)
    ensures MovesOf(MovesWithout(moves, planId), planId) == []
    decreases |moves|
  {
    if moves != [] {
      var p, last := moves[..|moves| - 1], moves[|moves| - 1];
      HardDeleteKeepsMoveOrder(p, planId, other);
      var w := MovesWithout(p, planId);
      if last.planId != planId {
        var ws := w + [last];
        assert ws[..|ws| - 1] == w;
      } else {
        assert w + [] == w;
      }
    }
  }

  /** The cascade keeps every other plan's rates, in their order, and leaves none of the deleted plan's. */
  lemma {:induction false} HardDeleteKeepsRateOrder(rates: seq<Rate>, planId: string, other: string)
    requires other != planId
    ensures RatesOf(RatesWithout(rates, planId), other) == RatesOf(rates, other)
    ensures RatesOf(RatesWithout(rates, planId), planId) == []
    decreases |rates|
  {
    if rates != [] {
      var p, last := rates[..|rates| - 1], rates[|rates| - 1];
      HardDeleteKeepsRateOrder(p, planId, other);
      var w := RatesWithout(p, planId);
      if last.planId != planId {
        var ws := w + [last];
        assert ws[..|ws| - 1] == w;
      } else {
        assert w + [] == w;
      }
    }
  }

  /** A prefix of a list with the one-deposit invariant has it too. */
  lemma OneDepositPrefix(moves: seq<Move>, n: nat)
    requires n <= |moves| && OneDepositPerPlanMonth(moves)
    ensures OneDepositPerPlanMonth(moves[..n])
  {
    var p := moves[..n];
    forall i, j | 0 <= i < j < |p| && p[i].moveType == Deposit
      ensures !IsPlanDeposit(p[j], p[i].planId, p[i].month)
    {
      assert p[i] == moves[i] && p[j] == moves[j];
    }
  }

  /** Under the invariant, the last move is no second deposit for any deposit before it. */
  lemma OneDepositLast(moves: seq<Move>)
    requires moves != [] && OneDepositPerPlanMonth(moves)
    ensures var n := |moves| - 1;
      forall m :: m in moves[..n] && m.moveType == Deposit ==> !IsPlanDeposit(moves[n], m.planId, m.month)
  {
    var n := |moves| - 1;
    forall m | m in moves[..n] && m.moveType == Deposit
      ensures !IsPlanDeposit(moves[n], m.planId, m.month)
    {
      var k :| 0 <= k < n && moves[..n][k] == m;
      assert moves[k] == m;
    }
  }

  /** Appending a move that is no second deposit for any deposit of the list keeps the invariant. */
  lemma OneDepositAppend(w: seq<Move>, x: Move)
    requires OneDepositPerPlanMonth(w)
    requires forall m :: m in w && m.moveType == Deposit ==> !IsPlanDeposit(x, m.planId, m.month)
    ensures OneDepositPerPlanMonth(w + [x])
  {
    var r := w + [x];
    forall i, j | 0 <= i < j < |r| && r[i].moveType == Deposit
      ensures !IsPlanDeposit(r[j], r[i].planId, r[i].month)
    {
      assert r[i] == w[i] && w[i] in w;
      if j < |w| {
        assert r[j] == w[j];
      }
    }
  }

  /** The cascade keeps the invariant of at most one deposit per plan and month. */
  lemma {:induction false} HardDeleteKeepsOneDeposit(moves: seq<Move>, planId: string)
    requires OneDepositPerPlanMonth(moves)
    ensures OneDepositPerPlanMonth(MovesWithout(moves, planId))
    decreases |moves|
  {
    if moves != [] {
      var n := |moves| - 1;
      var p, x := moves[..n], moves[n];
      OneDepositPrefix(moves, n);
      HardDeleteKeepsOneDeposit(p, planId);
      var w := MovesWithout(p, planId);
      if x.planId != planId {
        OneDepositLast(moves);
        OneDepositAppend(w, x);
      } else {
        assert w + [] == w;
      }
    }
  }
}
