/**
 * The application state `state` (app.js:51-84) as an object whose lists the
 * handlers update in place: the copy-forward of rates and fixed costs
 * (app.js:192-237), the deposit button and its undo (app.js:1081-1106),
 * deleting entries, types and plans (app.js:449-450, 612-613, 766-767,
 * 855-905, 1154-1184). Each method is tied to the function of the old state
 * that the other modules define and reason about.
 */
module AppState {
  import opened Wrappers
  import opened Records
  import opened Months
  import opened Calculations
  import opened CopyForward
  import opened Savings
  import opened Maintenance

  /** The fixed-cost types a new state starts with. */
  const DefaultFixedTypes: seq<TypeDef> := [
    TypeDef("ft_rent", "Miete"),
    TypeDef("ft_power", "Strom"),
    TypeDef("ft_net", "Internet/Handy"),
    TypeDef("ft_ins", "Versicherung"),
    TypeDef("ft_other", "Sonstiges")
  ]

  /** The expense categories a new state starts with. */
  const DefaultExpenseCategories: seq<TypeDef> := [
    TypeDef("ec_food", "Lebensmittel"),
    TypeDef("ec_fun", "Freizeit"),
    TypeDef("ec_drug", "Drogerie"),
    TypeDef("ec_fuel", "Tanken"),
    TypeDef("ec_other", "Sonstiges")
  ]

  /**
   * The remap loop of `deleteType`: every entry of type `from` is moved to
   * `to`, one entry at a time.
   */
  method RetagAll(entries: seq<Entry>, from: string, to: string) returns (r: seq<Entry>)
    ensures r == Retag(entries, from, to)
  {
    r := entries;
    var i := 0;
    while i < |r|
      invariant 0 <= i <= |r| && |r| == |entries|
      invariant forall k :: 0 <= k < i ==> r[k] == Retag(entries, from, to)[k]
      invariant forall k :: i <= k < |r| ==> r[k] == entries[k]
    {
      if r[i].tag == from {
        r := r[i := r[i].(tag := to)];
      }
      i := i + 1;
    }
  }

  /**
   * The body of `deleteType(id)` on one type list and its entry list: look
   * the type up, splice it out when unused, otherwise move its entries to
   * the target first; without a target nothing changes.
   */
  method DeleteTypeIn(list: seq<TypeDef>, entries: seq<Entry>, id: string, chosen: string)
    returns (d: TypeDeletion)
    ensures d == DeleteTypeResult(list, entries, id, chosen)
  {
    var idx := TypeIndex(list, id);
    if idx < 0 {
      return TypeDeletion(TypeNotFound, list, entries);
    }
    if UsedCount(entries, id) == 0 {
      return TypeDeletion(DeletedUnused, RemoveAt(list, idx), entries);
    }
    var to := RemapTarget(chosen, list, id);
    if to.None? {
      return TypeDeletion(NoAlternative, list, entries);
    }
    var moved := RetagAll(entries, id, to.value);
    return TypeDeletion(Remapped(to.value), RemoveAt(list, TypeIndex(list, id)), moved);
  }

  /** Copies of fixed costs keep their type, so they resolve wherever the originals do. */
  lemma CopiedFixedResolves(fixedCosts: seq<Entry>, prevItems: seq<Entry>, list: seq<TypeDef>,
                            month: string, token: nat -> string, draws: nat)
    requires RefsResolve(fixedCosts, list)
    requires forall x :: x in prevItems ==> x in fixedCosts
    ensures RefsResolve(fixedCosts + CopiedFixed(prevItems, month, token, draws), list)
  {
    var c := CopiedFixed(prevItems, month, token, draws);
    var all := fixedCosts + c;
    forall k | 0 <= k < |all| ensures HasType(list, all[k].tag) {
      if k >= |fixedCosts| {
        var j := k - |fixedCosts|;
        assert all[k] == c[j] && c[j].tag == prevItems[j].tag;
        assert prevItems[j] in fixedCosts;
        var i :| 0 <= i < |fixedCosts| && fixedCosts[i] == prevItems[j];
      }
    }
  }

  class Budget {
    /** The month shown on each screen, as "YYYY-MM". */
    var incomeMonth: string
    var fixedMonth: string
    var expensesMonth: string
    var savingsMonth: string

    var fixedTypes: seq<TypeDef>
    var expenseCategories: seq<TypeDef>

    var incomes: seq<Entry>
    var fixedCosts: seq<Entry>
    var expenses: seq<Entry>

    var savingsPlans: seq<Plan>
    var savingsRates: seq<Rate>
    var savingsMoves: seq<Move>

    /** The random part of `uid`: the n-th id drawn gets `token(n)`. */
    const token: nat -> string
    /** How many ids have been drawn so far. */
    var draws: nat

    /**
     * What the handlers keep: every fixed cost and expense refers to an
     * existing type, and no plan has two deposits in one month.
     */
    predicate Consistent()
      reads this
    {
      && RefsResolve(fixedCosts, fixedTypes)
      && RefsResolve(expenses, expenseCategories)
      && OneDepositPerPlanMonth(savingsMoves)
    }

    /** `defaultState()`, with `today` the local date as "YYYY-MM-DD". */
    constructor (token: nat -> string, today: string)
      ensures this.token == token && draws == 0
      ensures incomeMonth == YmFromDate(today) && fixedMonth == YmFromDate(today)
      ensures expensesMonth == YmFromDate(today) && savingsMonth == YmFromDate(today)
      ensures fixedTypes == DefaultFixedTypes && expenseCategories == DefaultExpenseCategories
      ensures incomes == [] && fixedCosts == [] && expenses == []
      ensures savingsPlans == [] && savingsRates == [] && savingsMoves == []
      ensures Consistent()
    {
      this.token := token;
      draws := 0;
      var month := YmFromDate(today);
      incomeMonth, fixedMonth, expensesMonth, savingsMonth := month, month, month, month;
      fixedTypes, expenseCategories := DefaultFixedTypes, DefaultExpenseCategories;
      incomes, fixedCosts, expenses := [], [], [];
      savingsPlans, savingsRates, savingsMoves := [], [], [];
    }

    /** `uid(prefix)`: the next id, drawing one token. */
    method NextUid(prefix: string) returns (id: string)
      modifies this`draws
      ensures id == Uid(prefix, token(old(draws))) && draws == old(draws) + 1
    {
      id := Uid(prefix, token(draws));
      draws := draws + 1;
    }

    /**
     * `ensureRatesCopiedForMonth(month)`: unless an active plan already has a
     * rate for the month, each active plan with a rate last month gets a copy
     * of it, in plan order.
     */
    method EnsureRatesCopiedForMonth(month: string)
      modifies this`savingsRates, this`draws
      ensures var active := ActivePlans(savingsPlans);
        var copies := CopiedRates(active, RatesOfMonth(old(savingsRates), AddMonths(month, -1)),
                                  month, token, old(draws));
        if HasActiveRate(old(savingsRates), active, month)
        then savingsRates == old(savingsRates) && draws == old(draws)
        else savingsRates == old(savingsRates) + copies && draws == old(draws) + |copies|
    {
      var active := ActivePlans(savingsPlans);
      if HasActiveRate(savingsRates, active, month) {
        return;
      }
      var prev := AddMonths(month, -1);
      var prevRates := RatesOfMonth(savingsRates, prev);
      CopyRates(active, prevRates, month);
    }

    /**
     * The `activePlans.forEach` loop of `ensureRatesCopiedForMonth`: each
     * plan with a rate in `prevRates` gets a copy of it for the month.
     */
    method CopyRates(active: seq<Plan>, prevRates: seq<Rate>, month: string)
      modifies this`savingsRates, this`draws
      ensures var copies := CopiedRates(active, prevRates, month, token, old(draws));
        savingsRates == old(savingsRates) + copies && draws == old(draws) + |copies|
    {
      ghost var start, first := savingsRates, draws;
      var rates, n := savingsRates, draws;
      var i := 0;
      while i < |active|
        invariant 0 <= i <= |active|
        invariant rates == start + CopiedRates(active[..i], prevRates, month, token, first)
        invariant n == first + |CopiedRates(active[..i], prevRates, month, token, first)|
      {
        CopyRatesLoopStep(active, i, prevRates, month, token, first, start, rates, n);
        var p := active[i];
        var pr := FindByPlan(prevRates, p.id);
        if pr.Some? {
          rates := rates + [Rate(Uid("sr", token(n)), p.id, month, pr.value.amountCents)];
          n := n + 1;
        }
        i := i + 1;
      }
      assert active[..i] == active;
      savingsRates, draws := rates, n;
    }

    /**
     * `ensureFixedCopiedForMonth(month)`: a month without fixed costs gets a
     * copy of each of last month's, dated the first; the result says whether
     * anything was copied.
     */
    method EnsureFixedCopiedForMonth(month: string) returns (copied: bool)
      modifies this`fixedCosts, this`draws
      ensures var prevItems := OfMonth(old(fixedCosts), AddMonths(month, -1));
        && (copied <==> (forall x :: x in old(fixedCosts) ==> x.month != month) && prevItems != [])
        && fixedCosts == old(fixedCosts) + (if copied then CopiedFixed(prevItems, month, token, old(draws)) else [])
        && draws == old(draws) + (if copied then |prevItems| else 0)
      ensures old(RefsResolve(fixedCosts, fixedTypes)) ==> RefsResolve(fixedCosts, fixedTypes)
    {
      if exists x :: x in fixedCosts && x.month == month {
        assert fixedCosts + [] == fixedCosts;
        return false;
      }
      var prev := AddMonths(month, -1);
      var prevItems := OfMonth(fixedCosts, prev);
      if |prevItems| == 0 {
        assert fixedCosts + [] == fixedCosts;
        return false;
      }
      ghost var start, first := fixedCosts, draws;
      CopyFixedItems(prevItems, month);
      OfMonthMembers(start, prev);
      if RefsResolve(start, fixedTypes) {
        CopiedFixedResolves(start, prevItems, fixedTypes, month, token, first);
      }
      return true;
    }

    /**
     * The `prevItems.forEach` loop of `ensureFixedCopiedForMonth`: each item
     * gets a copy for the month, under a fresh id.
     */
    method CopyFixedItems(prevItems: seq<Entry>, month: string)
      modifies this`fixedCosts, this`draws
      ensures fixedCosts == old(fixedCosts) + CopiedFixed(prevItems, month, token, old(draws))
      ensures draws == old(draws) + |prevItems|
    {
      ghost var start, first := fixedCosts, draws;
      var i := 0;
      while i < |prevItems|
        invariant 0 <= i <= |prevItems|
        invariant fixedCosts == start + CopiedFixed(prevItems[..i], month, token, first)
        invariant draws == first + i
      {
        var id := NextUid("fix");
        assert CopiedFixed(prevItems[..i + 1], month, token, first)
            == CopiedFixed(prevItems[..i], month, token, first) + [CopyFixed(prevItems[i], month, id)];
        fixedCosts := fixedCosts + [CopyFixed(prevItems[i], month, id)];
        i := i + 1;
      }
      assert prevItems[..i] == prevItems;
    }

    /**
     * `doDeposit(planId)`: records the plan's rate for the savings month as a
     * deposit, unless the rate is missing or not positive, or the plan
     * already has its deposit for the month.
     */
    method DoDeposit(planId: string) returns (outcome: DepositOutcome)
      modifies this`savingsMoves, this`draws
      ensures outcome == DepositDecision(savingsRates, old(savingsMoves), planId, savingsMonth)
      ensures savingsMoves
           == AfterDeposit(savingsRates, old(savingsMoves), planId, savingsMonth, Uid("sm", token(old(draws))))
      ensures outcome != Deposited ==> savingsMoves == old(savingsMoves)
      ensures outcome == Deposited ==>
        var deposit := DepositMove(Uid("sm", token(old(draws))), planId, savingsMonth,
                                   RateFor(savingsRates, planId, savingsMonth));
        savingsMoves == old(savingsMoves) + [deposit]
      ensures draws == old(draws) + (if outcome == Deposited then 1 else 0)
      ensures old(OneDepositPerPlanMonth(savingsMoves)) ==> OneDepositPerPlanMonth(savingsMoves)
    {
      var month := savingsMonth;
      var amount := RateFor(savingsRates, planId, month);
      if amount <= 0 {
        return RateNotSet;
      }
      if DepositExists(savingsMoves, planId, month) {
        return AlreadyDeposited;
      }
      ghost var before := savingsMoves;
      var id := NextUid("sm");
      savingsMoves := savingsMoves + [DepositMove(id, planId, month, amount)];
      if OneDepositPerPlanMonth(before) {
        DepositKeepsOnePerPlanMonth(savingsRates, before, planId, month, id);
      }
      return Deposited;
    }

    /** `undoDeposit(planId)`: splices out the plan's deposit for the savings month, if there is one. */
    method UndoDeposit(planId: string)
      modifies this`savingsMoves
      ensures savingsMoves == AfterUndo(old(savingsMoves), planId, savingsMonth)
      ensures old(OneDepositPerPlanMonth(savingsMoves)) ==>
        OneDepositPerPlanMonth(savingsMoves) && !DepositExists(savingsMoves, planId, savingsMonth)
    {
      ghost var before := savingsMoves;
      var idx := DepositIndex(savingsMoves, planId, savingsMonth);
      if idx >= 0 {
        savingsMoves := RemoveAt(savingsMoves, idx);
      }
      if OneDepositPerPlanMonth(before) {
        UndoClearsDeposit(before, planId, savingsMonth);
      }
    }

    /** The delete button of an income: `findIndex` and `splice` on the incomes. */
    method DeleteIncome(id: string)
      modifies this`incomes
      ensures incomes == DeleteById(old(incomes), id)
    {
      var i := IndexOfId(incomes, id);
      if i >= 0 {
        incomes := RemoveAt(incomes, i);
      }
    }

    /** The delete button of a fixed cost. */
    method DeleteFixedCost(id: string)
      modifies this`fixedCosts
      ensures fixedCosts == DeleteById(old(fixedCosts), id)
      ensures old(RefsResolve(fixedCosts, fixedTypes)) ==> RefsResolve(fixedCosts, fixedTypes)
    {
      var i := IndexOfId(fixedCosts, id);
      if i >= 0 {
        if RefsResolve(fixedCosts, fixedTypes) {
          RemoveAtResolves(fixedCosts, i, fixedTypes);
        }
        fixedCosts := RemoveAt(fixedCosts, i);
      }
    }

    /** The delete button of an expense. */
    method DeleteExpense(id: string)
      modifies this`expenses
      ensures expenses == DeleteById(old(expenses), id)
      ensures old(RefsResolve(expenses, expenseCategories)) ==> RefsResolve(expenses, expenseCategories)
    {
      var i := IndexOfId(expenses, id);
      if i >= 0 {
        if RefsResolve(expenses, expenseCategories) {
          RemoveAtResolves(expenses, i, expenseCategories);
        }
        expenses := RemoveAt(expenses, i);
      }
    }

    /**
     * `deleteType(id)` for the fixed-cost types or the expense categories,
     * `chosen` being the value of the "move to" selection: the type list and
     * the entry list of that kind become what `DeleteTypeResult` says.
     */
    method DeleteType(kind: TypeKind, id: string, chosen: string) returns (outcome: TypeDeleteOutcome)
      modifies this`fixedTypes, this`expenseCategories, this`fixedCosts, this`expenses
      ensures kind == FixedType ==>
        && TypeDeletion(outcome, fixedTypes, fixedCosts)
           == DeleteTypeResult(old(fixedTypes), old(fixedCosts), id, chosen)
        && expenseCategories == old(expenseCategories) && expenses == old(expenses)
        && (old(RefsResolve(fixedCosts, fixedTypes)) && Offered(old(fixedTypes), id, chosen)
            ==> RefsResolve(fixedCosts, fixedTypes))
      ensures kind == ExpenseCategory ==>
        && TypeDeletion(outcome, expenseCategories, expenses)
           == DeleteTypeResult(old(expenseCategories), old(expenses), id, chosen)
        && fixedTypes == old(fixedTypes) && fixedCosts == old(fixedCosts)
        && (old(RefsResolve(expenses, expenseCategories)) && Offered(old(expenseCategories), id, chosen)
            ==> RefsResolve(expenses, expenseCategories))
    {
      var d;
      if kind == FixedType {
        if RefsResolve(fixedCosts, fixedTypes) && Offered(fixedTypes, id, chosen) {
          DeleteTypeResolves(fixedTypes, fixedCosts, id, chosen);
        }
        d := DeleteTypeIn(fixedTypes, fixedCosts, id, chosen);
        fixedTypes, fixedCosts := d.list, d.entries;
      } else {
        if RefsResolve(expenses, expenseCategories) && Offered(expenseCategories, id, chosen) {
          DeleteTypeResolves(expenseCategories, expenses, id, chosen);
        }
        d := DeleteTypeIn(expenseCategories, expenses, id, chosen);
        expenseCategories, expenses := d.list, d.entries;
      }
      outcome := d.outcome;
    }

    /**
     * The confirmed hard delete of a plan: the plan, its rates and its moves
     * are filtered out; an unknown plan id changes nothing.
     */
    method HardDeletePlan(planId: string) returns (deleted: bool)
      modifies this`savingsPlans, this`savingsRates, this`savingsMoves
      ensures deleted <==> HasPlanId(old(savingsPlans), planId)
      ensures savingsPlans == if deleted then PlansWithout(old(savingsPlans), planId) else old(savingsPlans)
      ensures savingsRates == if deleted then RatesWithout(old(savingsRates), planId) else old(savingsRates)
      ensures savingsMoves == if deleted then MovesWithout(old(savingsMoves), planId) else old(savingsMoves)
      ensures old(OneDepositPerPlanMonth(savingsMoves)) ==> OneDepositPerPlanMonth(savingsMoves)
    {
      if !HasPlanId(savingsPlans, planId) {
        return false;
      }
      if OneDepositPerPlanMonth(savingsMoves) {
        HardDeleteKeepsOneDeposit(savingsMoves, planId);
      }
      savingsPlans := PlansWithout(savingsPlans, planId);
      savingsRates := RatesWithout(savingsRates, planId);
      savingsMoves := MovesWithout(savingsMoves, planId);
      return true;
    }
  }
}
