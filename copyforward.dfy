/**
 * Carrying last month's savings rates and fixed costs into an empty month
 * (app.js:192-237). The methods that append to the state live in AppState;
 * this module defines what they append and proves what that achieves.
 */
module CopyForward {
  import opened Wrappers
  import opened Records
  import opened Calculations

  /** Some plan in the list has this id (`plans.some(p => p.id === id)`). */
  predicate HasPlanId(plans: seq<Plan>, id: string) {
    exists k :: 0 <= k < |plans| && plans[k].id == id
  }

  /**
   * `savingsRates.some(r => r.month === month && activePlans.some(p => p.id === r.planId))`:
   * some active plan already has a rate for the month.
   */
  predicate HasActiveRate(rates: seq<Rate>, active: seq<Plan>, month: string) {
    exists r :: r in rates && r.month == month && HasPlanId(active, r.planId)
  }

  /** `savingsRates.filter(r => r.month === prev)`, order kept. */
  function RatesOfMonth(rates: seq<Rate>, month: string): (r: seq<Rate>)
  {
    if rates == [] then []
    else
      var last := rates[|rates| - 1];
      RatesOfMonth(rates[..|rates| - 1], month) + (if last.month == month then [last] else [])
  }

  /** `prevRates.find(r => r.planId === planId)`. */
  function FindByPlan(rates: seq<Rate>, planId: string): (r: Option<Rate>)
    ensures r.Some? ==> r.value in rates && r.value.planId == planId
    ensures r.None? <==> forall x :: x in rates ==> x.planId != planId
  {
    if rates == [] then None
    else if rates[0].planId == planId then Some(rates[0])
    else FindByPlan(rates[1..], planId)
  }

  /**
   * Searching last month's rates by plan finds the same rate as `getRate`
   * for that plan and last month.
   */
  lemma {:induction false} FindByPlanOfMonth(rates: seq<Rate>, planId: string, month: string)
    ensures FindByPlan(RatesOfMonth(rates, month), planId) == GetRate(rates, planId, month)
    decreases |rates|
  {
    if rates != [] {
      var x, tail := rates[0], rates[1..];
      assert rates == [x] + tail;
      FindByPlanOfMonth(tail, planId, month);
      RatesOfMonthAppend([x], tail, month);
      assert [x][..0] == [];
      assert RatesOfMonth([x], month) == if x.month == month then [x] else [];
      var r, rest := RatesOfMonth(rates, month), RatesOfMonth(tail, month);
      var tailRate := GetRate(tail, planId, month);
      assert GetRate(rates, planId, month)
          == if x.planId == planId && x.month == month then Some(x) else tailRate;
      if x.month == month {
        assert r == [x] + rest;
        assert r[0] == x && r[1..] == rest;
        assert FindByPlan(r, planId) == if x.planId == planId then Some(x) else FindByPlan(rest, planId);
      } else {
        assert r == rest;
      }
    }
  }

  lemma {:induction false} RatesOfMonthAppend(s: seq<Rate>, t: seq<Rate>, month: string)
    ensures RatesOfMonth(s + t, month) == RatesOfMonth(s, month) + RatesOfMonth(t, month)
    decreases |t|
  {
    if t == [] {
      assert s + t == s;
    } else {
      var t' := t[..|t| - 1];
      assert (s + t)[..|s + t| - 1] == s + t';
      RatesOfMonthAppend(s, t', month);
      var last := t[|t| - 1];
      var bit := if last.month == month then [last] else [];
      assert RatesOfMonth(s, month) + RatesOfMonth(t', month) + bit
          == RatesOfMonth(s, month) + (RatesOfMonth(t', month) + bit);
    }
  }

  lemma {:induction false} FindByPlanAppend(s: seq<Rate>, t: seq<Rate>, planId: string)
    ensures FindByPlan(s + t, planId)
         == if FindByPlan(s, planId).Some? then FindByPlan(s, planId) else FindByPlan(t, planId)
    decreases |s|
  {
    if s == [] {
      assert s + t == t;
    } else {
      assert (s + t)[1..] == s[1..] + t;
      FindByPlanAppend(s[1..], t, planId);
    }
  }

  /**
   * The rates that `ensureRatesCopiedForMonth(month)` appends, in the order
   * of the active plans: a plan with a rate last month gets a copy of its
   * amount under a fresh "sr" id, a plan without one gets nothing. The copy
   * made after `draws` earlier ids takes token `token(draws)`.
   */
  function CopiedRates(active: seq<Plan>, prevRates: seq<Rate>, month: string,
                       token: nat -> string, draws: nat): (r: seq<Rate>)
    decreases |active|
  {
    if active == [] then []
    else
      var done := CopiedRates(active[..|active| - 1], prevRates, month, token, draws);
      var p := active[|active| - 1];
      match FindByPlan(prevRates, p.id)
      case None => done
      case Some(pr) => done + [Rate(Uid("sr", token(draws + |done|)), p.id, month, pr.amountCents)]
  }

  /** The copy one plan gets, if it had a rate last month, taking token `token(n)`. */
  function CopyOf(p: Plan, prevRates: seq<Rate>, month: string, token: nat -> string, n: nat): (c: seq<Rate>)
    ensures |c| <= 1
    ensures c != [] <==> FindByPlan(prevRates, p.id).Some?
  {
    match FindByPlan(prevRates, p.id)
    case None => []
    case Some(pr) => [Rate(Uid("sr", token(n)), p.id, month, pr.amountCents)]
  }

  /** One more active plan adds its copy, if it has one, after the copies made so far. */
  lemma CopiedRatesStep(active: seq<Plan>, i: nat, prevRates: seq<Rate>, month: string,
                        token: nat -> string, draws: nat)
    requires i < |active|
    ensures var done := CopiedRates(active[..i], prevRates, month, token, draws);
      CopiedRates(active[..i + 1], prevRates, month, token, draws)
      == done + CopyOf(active[i], prevRates, month, token, draws + |done|)
  {
    assert active[..i + 1][..i] == active[..i];
  }

  /**
   * The copy loop's invariant survives one more plan: with `rates` and `n`
   * the rates and draws after the first i plans, the plan's copy (if it has
   * a rate last month) and one more draw give those after i + 1 plans.
   */
  lemma CopyRatesLoopStep(active: seq<Plan>, i: nat, prevRates: seq<Rate>, month: string,
                          token: nat -> string, first: nat, start: seq<Rate>, rates: seq<Rate>, n: nat)
    requires i < |active|
    requires rates == start + CopiedRates(active[..i], prevRates, month, token, first)
    requires n == first + |CopiedRates(active[..i], prevRates, month, token, first)|
    ensures var p := active[i];
      var done := CopiedRates(active[..i + 1], prevRates, month, token, first);
      match FindByPlan(prevRates, p.id)
      case None => rates == start + done && n == first + |done|
      case Some(pr) =>
        rates + [Rate(Uid("sr", token(n)), p.id, month, pr.amountCents)] == start + done && n + 1 == first + |done|
  {
    CopiedRatesStep(active, i, prevRates, month, token, first);
  }

  /**
   * Every copied rate belongs to the month and to an active plan that had a
   * rate last month, and carries the amount of that plan's first such rate;
   * the k-th copy takes the k-th token after `draws`.
   */
  lemma {:induction false} CopiedRatesSound(active: seq<Plan>, prevRates: seq<Rate>, month: string,
                                            token: nat -> string, draws: nat)
    ensures var c := CopiedRates(active, prevRates, month, token, draws);
      && |c| <= |active|
      && forall k :: 0 <= k < |c| ==>
           && c[k].month == month
           && c[k].id == Uid("sr", token(draws + k))
           && HasPlanId(active, c[k].planId)
           && FindByPlan(prevRates, c[k].planId).Some?
           && c[k].amountCents == FindByPlan(prevRates, c[k].planId).value.amountCents
    decreases |active|
  {
    if active != [] {
      var q := active[..|active| - 1];
      CopiedRatesSound(q, prevRates, month, token, draws);
      var p := active[|active| - 1];
      assert p in active;
      assert forall x :: x in q ==> x in active;
    }
  }

  /** Some rate in the list belongs to the plan. */
  predicate HasRateOf(rates: seq<Rate>, planId: string) {
    exists k :: 0 <= k < |rates| && rates[k].planId == planId
  }

  /** Every active plan that had a rate last month gets a copy. */
  lemma {:induction false} CopiedRatesComplete(active: seq<Plan>, prevRates: seq<Rate>, month: string,
                                               token: nat -> string, draws: nat, p: Plan)
    requires p in active && FindByPlan(prevRates, p.id).Some?
    ensures HasRateOf(CopiedRates(active, prevRates, month, token, draws), p.id)
    decreases |active|
  {
    var c := CopiedRates(active, prevRates, month, token, draws);
    var q, last := active[..|active| - 1], active[|active| - 1];
    var done := CopiedRates(q, prevRates, month, token, draws);
    if last.id == p.id {
      var pr := FindByPlan(prevRates, p.id).value;
      assert c == done + [Rate(Uid("sr", token(draws + |done|)), p.id, month, pr.amountCents)];
      var k := |c| - 1;
      assert 0 <= k < |c| && c[k].planId == p.id;
    } else {
      assert active == q + [last];
      assert p in q;
      CopiedRatesComplete(q, prevRates, month, token, draws, p);
      var k :| 0 <= k < |done| && done[k].planId == p.id;
      assert c[k] == done[k];
    }
  }

  /** Plan ids that occur at most once (the ids `uid` hands out). */
  predicate DistinctIds(plans: seq<Plan>) {
    forall i, j :: 0 <= i < j < |plans| ==> plans[i].id != plans[j].id
  }

  /** With distinct plan ids, no plan gets two copies. */
  lemma {:induction false} CopiedRatesAtMostOne(active: seq<Plan>, prevRates: seq<Rate>, month: string,
                                                token: nat -> string, draws: nat)
    requires DistinctIds(active)
    ensures var c := CopiedRates(active, prevRates, month, token, draws);
      forall i, j :: 0 <= i < j < |c| ==> c[i].planId != c[j].planId
    decreases |active|
  {
    if active != [] {
      var q := active[..|active| - 1];
      var p := active[|active| - 1];
      CopiedRatesAtMostOne(q, prevRates, month, token, draws);
      var done := CopiedRates(q, prevRates, month, token, draws);
      CopiedRatesSound(q, prevRates, month, token, draws);
      forall k | 0 <= k < |done| ensures done[k].planId != p.id {
        var i :| 0 <= i < |q| && q[i].id == done[k].planId;
        assert active[i] == q[i];
      }
    }
  }

  /** The amount of a rate looked up with `getRate`, if there is one. */
  function RateAmount(r: Option<Rate>): Option<int> {
    if r.Some? then Some(r.value.amountCents) else None
  }

  /**
   * The point of the rate copy: when no active plan had a rate for the month
   * yet, afterwards `getRate` gives every active plan the amount it had the
   * month before, and no rate where it had none.
   */
  lemma RatesCarriedForward(rates: seq<Rate>, active: seq<Plan>, month: string, prev: string,
                            token: nat -> string, draws: nat, p: Plan)
    requires !HasActiveRate(rates, active, month)
    requires p in active
    ensures var c := CopiedRates(active, RatesOfMonth(rates, prev), month, token, draws);
      RateAmount(GetRate(rates + c, p.id, month)) == RateAmount(GetRate(rates, p.id, prev))
  {
    var prevRates := RatesOfMonth(rates, prev);
    var c := CopiedRates(active, prevRates, month, token, draws);
    assert GetRate(rates, p.id, month).None?;
    GetRateAppend(rates, c, p.id, month);
    FindByPlanOfMonth(rates, p.id, prev);
    CopiedRatesSound(active, prevRates, month, token, draws);
    var g := GetRate(c, p.id, month);
    if g.Some? {
      var k :| 0 <= k < |c| && c[k] == g.value;
    } else if FindByPlan(prevRates, p.id).Some? {
      CopiedRatesComplete(active, prevRates, month, token, draws, p);
      assert false;
    }
  }

  /** The copy of one fixed cost: same amount, type and note (or ""), dated the first of the month. */
  function CopyFixed(x: Entry, month: string, id: string): (r: Entry)
    ensures r.month == month && r.amountCents == x.amountCents && r.tag == x.tag
    ensures r.id == id && r.date == FirstDay(month)
    ensures x.note.Some? ==> r.note == x.note
    ensures x.note.None? ==> r.note == Some("")
  {
    Entry(id, FirstDay(month), month, x.amountCents, x.tag, Some(NoteOrEmpty(x.note)))
  }

  /**
   * The fixed costs that `ensureFixedCopiedForMonth(month)` appends: one copy
   * per item of last month, in order, the k-th under the k-th fresh "fix" id.
   */
  function CopiedFixed(prevItems: seq<Entry>, month: string, token: nat -> string, draws: nat): (r: seq<Entry>)
    ensures |r| == |prevItems|
    ensures forall k :: 0 <= k < |r| ==> r[k] == CopyFixed(prevItems[k], month, Uid("fix", token(draws + k)))
  {
    seq(|prevItems|, k requires 0 <= k < |prevItems| => CopyFixed(prevItems[k], month, Uid("fix", token(draws + k))))
  }

  /** The copies add up to what the copied items add up to. */
  lemma {:induction false} CopiedFixedTotal(prevItems: seq<Entry>, month: string, token: nat -> string, draws: nat)
    ensures Total(CopiedFixed(prevItems, month, token, draws)) == Total(prevItems)
    decreases |prevItems|
  {
    if prevItems != [] {
      var p := prevItems[..|prevItems| - 1];
      CopiedFixedTotal(p, month, token, draws);
      var c := CopiedFixed(prevItems, month, token, draws);
      assert c[..|c| - 1] == CopiedFixed(p, month, token, draws);
    }
  }

  /** Every copy belongs to the month it was copied into. */
  lemma CopiedFixedMonth(prevItems: seq<Entry>, month: string, token: nat -> string, draws: nat)
    ensures forall x :: x in CopiedFixed(prevItems, month, token, draws) ==> x.month == month
  {
    var c := CopiedFixed(prevItems, month, token, draws);
    forall x | x in c ensures x.month == month {
      var k :| 0 <= k < |c| && c[k] == x;
    }
  }

  /**
   * The point of the fixed-cost copy: when the month had no fixed costs, it
   * afterwards sums to what last month sums to.
   */
  lemma FixedCarriedForward(fixedCosts: seq<Entry>, month: string, prev: string,
                            token: nat -> string, draws: nat)
    requires forall x :: x in fixedCosts ==> x.month != month
    ensures SumForMonth(fixedCosts + CopiedFixed(OfMonth(fixedCosts, prev), month, token, draws), month)
         == SumForMonth(fixedCosts, prev)
  {
    var prevItems := OfMonth(fixedCosts, prev);
    var c := CopiedFixed(prevItems, month, token, draws);
    CopiedFixedMonth(prevItems, month, token, draws);
    SumForMonthAppend(fixedCosts, c, month);
    SumForMonthNone(fixedCosts, month);
    SumForMonthAll(c, month);
    CopiedFixedTotal(prevItems, month, token, draws);
  }

  /** The fixed-cost copy leaves the sum of every other month as it was. */
  lemma FixedCopyKeepsOtherMonths(fixedCosts: seq<Entry>, prevItems: seq<Entry>, month: string,
                                  token: nat -> string, draws: nat, other: string)
    requires other != month
    ensures SumForMonth(fixedCosts + CopiedFixed(prevItems, month, token, draws), other)
         == SumForMonth(fixedCosts, other)
  {
    var c := CopiedFixed(prevItems, month, token, draws);
    CopiedFixedMonth(prevItems, month, token, draws);
    SumForMonthAppend(fixedCosts, c, other);
    SumForMonthNone(c, other);
  }
}
