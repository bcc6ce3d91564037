/**
 * The per-month aggregations of app.js:163-191: filter a list by month (and
 * plan or move type) and fold the cents with `reduce`.
 */
module Calculations {
  import opened Wrappers
  import opened Records

  /** `list.filter(x => x.month === month)`, order kept. */
  function OfMonth(s: seq<Entry>, month: string): seq<Entry> {
    if s == [] then []
    else OfMonth(s[..|s| - 1], month) + (if s[|s| - 1].month == month then [s[|s| - 1]] else [])
  }

  /** The filter keeps exactly the entries of the month, and nothing more. */
  lemma {:induction false} OfMonthMembers(s: seq<Entry>, month: string)
    ensures |OfMonth(s, month)| <= |s|
    ensures forall e :: e in OfMonth(s, month) <==> e in s && e.month == month
    decreases |s|
  {
    if s != [] {
      var p := s[..|s| - 1];
      OfMonthMembers(p, month);
      assert s == p + [s[|s| - 1]];
    }
  }

  /** `reduce((a, x) => a + x.amountCents, 0)`. */
  function Total(s: seq<Entry>): int {
    if s == [] then 0 else Total(s[..|s| - 1]) + s[|s| - 1].amountCents
  }

  /** `sumIncome`, `sumFixed` and `sumExpenses`: the cents of one month. */
  function SumForMonth(s: seq<Entry>, month: string): int {
    Total(OfMonth(s, month))
  }

  lemma {:induction false} TotalAppend(s: seq<Entry>, t: seq<Entry>)
    ensures Total(s + t) == Total(s) + Total(t)
    decreases |t|
  {
    if t == [] {
      assert s + t == s;
    } else {
      assert (s + t)[..|s + t| - 1] == s + t[..|t| - 1];
      TotalAppend(s, t[..|t| - 1]);
    }
  }

  lemma {:induction false} OfMonthAppend(s: seq<Entry>, t: seq<Entry>, month: string)
    ensures OfMonth(s + t, month) == OfMonth(s, month) + OfMonth(t, month)
    decreases |t|
  {
    if t == [] {
      assert s + t == s;
    } else {
      var t' := t[..|t| - 1];
      assert (s + t)[..|s + t| - 1] == s + t';
      OfMonthAppend(s, t', month);
      var last := t[|t| - 1];
      var bit := if last.month == month then [last] else [];
      assert OfMonth(s, month) + OfMonth(t', month) + bit == OfMonth(s, month) + (OfMonth(t', month) + bit);
    }
  }

  /** A month sum over two lists is the sum of the two month sums. */
  lemma SumForMonthAppend(s: seq<Entry>, t: seq<Entry>, month: string)
    ensures SumForMonth(s + t, month) == SumForMonth(s, month) + SumForMonth(t, month)
  {
    OfMonthAppend(s, t, month);
    TotalAppend(OfMonth(s, month), OfMonth(t, month));
  }

  /** Adding an entry counts its cents in its own month and nowhere else. */
  lemma SumForMonthAdd(s: seq<Entry>, e: Entry, month: string)
    ensures SumForMonth(s + [e], month)
         == SumForMonth(s, month) + (if e.month == month then e.amountCents else 0)
  {
    SumForMonthAppend(s, [e], month);
    assert OfMonth([e], month) == (if e.month == month then [e] else []) by {
      assert [e][..0] == [];
    }
  }

  /** A list with no entry of the month sums to zero for it. */
  lemma {:induction false} SumForMonthNone(s: seq<Entry>, month: string)
    requires forall e :: e in s ==> e.month != month
    ensures SumForMonth(s, month) == 0
    decreases |s|
  {
    if s != [] {
      var p := s[..|s| - 1];
      assert forall e :: e in p ==> e in s;
      SumForMonthNone(p, month);
      assert s[|s| - 1] in s;
      assert OfMonth(p, month) + [] == OfMonth(p, month);
    }
  }

  /** A list whose entries all belong to the month sums to its total. */
  lemma {:induction false} SumForMonthAll(s: seq<Entry>, month: string)
    requires forall e :: e in s ==> e.month == month
    ensures SumForMonth(s, month) == Total(s)
    decreases |s|
  {
    if s != [] {
      var p := s[..|s| - 1];
      assert forall e :: e in p ==> e in s;
      SumForMonthAll(p, month);
      assert s[|s| - 1] in s;
    }
  }

  /** A deposit of the month (`m.month === month && m.type === "deposit"`). */
  predicate IsDepositOf(m: Move, month: string) {
    m.month == month && m.moveType == Deposit
  }

  /** `sumDeposits(month)`. */
  function SumDeposits(moves: seq<Move>, month: string): int {
    if moves == [] then 0
    else
      var last := moves[|moves| - 1];
      SumDeposits(moves[..|moves| - 1], month) + (if IsDepositOf(last, month) then last.amountCents else 0)
  }

  lemma {:induction false} SumDepositsAppend(s: seq<Move>, t: seq<Move>, month: string)
    ensures SumDeposits(s + t, month) == SumDeposits(s, month) + SumDeposits(t, month)
    decreases |t|
  {
    if t == [] {
      assert s + t == s;
    } else {
      assert (s + t)[..|s + t| - 1] == s + t[..|t| - 1];
      SumDepositsAppend(s, t[..|t| - 1], month);
    }
  }

  /** Adding a move changes the deposits of a month only by a deposit of that month. */
  lemma SumDepositsAdd(s: seq<Move>, m: Move, month: string)
    ensures SumDeposits(s + [m], month)
         == SumDeposits(s, month) + (if IsDepositOf(m, month) then m.amountCents else 0)
  {
    assert (s + [m])[..|s|] == s;
  }

  /**
   * `availableBudget(month)`: income minus fixed costs, expenses and the
   * deposits of the month.
   */
  function AvailableBudget(incomes: seq<Entry>, fixedCosts: seq<Entry>, expenses: seq<Entry>,
                           moves: seq<Move>, month: string): int
  {
    SumForMonth(incomes, month) - SumForMonth(fixedCosts, month)
      - SumForMonth(expenses, month) - SumDeposits(moves, month)
  }

  /**
   * The available budget of a month moves only with entries and deposits of
   * that month: income adds, the other three subtract, and anything dated
   * in another month leaves it unchanged.
   */
  lemma AvailableBudgetAdd(incomes: seq<Entry>, fixedCosts: seq<Entry>, expenses: seq<Entry>,
                           moves: seq<Move>, month: string, i: Entry, f: Entry, x: Entry, m: Move)
    ensures AvailableBudget(incomes + [i], fixedCosts + [f], expenses + [x], moves + [m], month)
         == AvailableBudget(incomes, fixedCosts, expenses, moves, month)
            + (if i.month == month then i.amountCents else 0)
            - (if f.month == month then f.amountCents else 0)
            - (if x.month == month then x.amountCents else 0)
            - (if IsDepositOf(m, month) then m.amountCents else 0)
  {
    SumForMonthAdd(incomes, i, month);
    SumForMonthAdd(fixedCosts, f, month);
    SumForMonthAdd(expenses, x, month);
    SumDepositsAdd(moves, m, month);
  }

  /** `state.savingsPlans.filter(p => !p.isArchived)`. */
  function ActivePlans(plans: seq<Plan>): (r: seq<Plan>)
    ensures |r| <= |plans|
    ensures forall p :: p in r <==> p in plans && !p.isArchived
  {
    if plans == [] then []
    else
      var last := plans[|plans| - 1];
      ActivePlans(plans[..|plans| - 1]) + (if last.isArchived then [] else [last])
  }

  /** Filtering two lists equals filtering each and concatenating: the filter keeps plan order. */
  lemma {:induction false} ActivePlansAppend(s: seq<Plan>, t: seq<Plan>)
    ensures ActivePlans(s + t) == ActivePlans(s) + ActivePlans(t)
    decreases |t|
  {
    if t == [] {
      assert s + t == s;
    } else {
      var t' := t[..|t| - 1];
      assert (s + t)[..|s + t| - 1] == s + t';
      ActivePlansAppend(s, t');
      var last := t[|t| - 1];
      var bit := if last.isArchived then [] else [last];
      assert ActivePlans(s) + ActivePlans(t') + bit == ActivePlans(s) + (ActivePlans(t') + bit);
    }
  }

  /** The signed fold of one plan's moves: deposits count up, withdrawals down. */
  function PlanBalance(moves: seq<Move>, planId: string): int {
    if moves == [] then 0
    else
      var last := moves[|moves| - 1];
      PlanBalance(moves[..|moves| - 1], planId)
        + (if last.planId != planId then 0
           else if last.moveType == Deposit then last.amountCents
           else -last.amountCents)
  }

  /** The cents of one plan's moves of one type, summed. */
  function MovedFor(moves: seq<Move>, planId: string, t: MoveType): int {
    if moves == [] then 0
    else
      var last := moves[|moves| - 1];
      MovedFor(moves[..|moves| - 1], planId, t)
        + (if last.planId == planId && last.moveType == t then last.amountCents else 0)
  }

  /** A plan's balance is what was deposited minus what was withdrawn. */
  lemma {:induction false} PlanBalanceSplit(moves: seq<Move>, planId: string)
    ensures PlanBalance(moves, planId) == MovedFor(moves, planId, Deposit) - MovedFor(moves, planId, Withdraw)
    decreases |moves|
  {
    if moves != [] {
      PlanBalanceSplit(moves[..|moves| - 1], planId);
    }
  }

  datatype PlanTotal = PlanTotal(planId: string, name: string, totalCents: int)

  /** Every plan's balance is its deposits minus its withdrawals. */
  lemma PlanBalancesSplit(plans: seq<Plan>, moves: seq<Move>)
    ensures forall p :: p in plans ==>
      PlanBalance(moves, p.id) == MovedFor(moves, p.id, Deposit) - MovedFor(moves, p.id, Withdraw)
  {
    forall p | p in plans
      ensures PlanBalance(moves, p.id) == MovedFor(moves, p.id, Deposit) - MovedFor(moves, p.id, Withdraw)
    {
      PlanBalanceSplit(moves, p.id);
    }
  }

  /**
   * `savingsTotalsByPlan()`: one total per active plan, in plan order, equal
   * to what was deposited into the plan minus what was withdrawn from it.
   */
  function SavingsTotalsByPlan(plans: seq<Plan>, moves: seq<Move>): (r: seq<PlanTotal>)
    ensures var active := ActivePlans(plans);
      && |r| == |active|
      && forall k :: 0 <= k < |r| ==>
           && r[k].planId == active[k].id && r[k].name == active[k].name
           && r[k].totalCents == MovedFor(moves, active[k].id, Deposit) - MovedFor(moves, active[k].id, Withdraw)
  {
    var active := ActivePlans(plans);
    PlanBalancesSplit(active, moves);
    seq(|active|, k requires 0 <= k < |active| => PlanTotal(active[k].id, active[k].name, PlanBalance(moves, active[k].id)))
  }

  /** `getRate(planId, month)`: the first rate of the plan for the month, or null. */
  function GetRate(rates: seq<Rate>, planId: string, month: string): (r: Option<Rate>)
    ensures r.Some? ==> r.value in rates && r.value.planId == planId && r.value.month == month
    ensures r.None? <==> forall x :: x in rates ==> !(x.planId == planId && x.month == month)
  {
    if rates == [] then None
    else if rates[0].planId == planId && rates[0].month == month then Some(rates[0])
    else GetRate(rates[1..], planId, month)
  }

  /** `find` returns the first match: a later list is consulted only when the earlier has none. */
  lemma {:induction false} GetRateAppend(s: seq<Rate>, t: seq<Rate>, planId: string, month: string)
    ensures GetRate(s + t, planId, month)
         == if GetRate(s, planId, month).Some? then GetRate(s, planId, month) else GetRate(t, planId, month)
    decreases |s|
  {
    if s == [] {
      assert s + t == t;
    } else {
      assert (s + t)[1..] == s[1..] + t;
      GetRateAppend(s[1..], t, planId, month);
    }
  }
}
