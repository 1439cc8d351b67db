/**
 What the cost computations add up, said row by row: counts as numbers of rows, and sums over the
 rows in order. The sums take a plan's cost from `PlanCost`, which `PlanCostIsExact` determines.
 */
module CostAnswers {
  import opened Wrappers
  import opened SubscriptionCosts

  // ---------- counts ----------

  ghost function SeatsAt(seats: seq<Seat>, plan: Id): set<nat> {
    set i: nat | i < |seats| && seats[i].plan == plan
  }

  lemma {:induction false} SeatsOnIsExact(seats: seq<Seat>, plan: Id)
    ensures SeatsOn(seats, plan) == |SeatsAt(seats, plan)|
  {
    if seats != [] {
      var n := |seats| - 1;
      SeatsOnIsExact(seats[..n], plan);
      assert SeatsAt(seats, plan) == SeatsAt(seats[..n], plan) + if seats[n].plan == plan then {n} else {};
    }
  }

  ghost function PlansAt(plans: seq<Plan>, provider: Id): set<nat> {
    set k: nat | k < |plans| && plans[k].provider == provider
  }

  lemma {:induction false} PlansOfIsExact(plans: seq<Plan>, provider: Id)
    ensures PlansOf(plans, provider) == |PlansAt(plans, provider)|
  {
    if plans != [] {
      var n := |plans| - 1;
      PlansOfIsExact(plans[..n], provider);
      var more := if plans[n].provider == provider then {n} else {};
      assert PlansAt(plans, provider) == PlansAt(plans[..n], provider) + more;
    }
  }

  /** The rows of the join: a plan of the provider and a seat on it. */
  ghost function JoinedAt(seats: seq<Seat>, plans: seq<Plan>, provider: Id): set<(nat, nat)> {
    set k: nat, i: nat |
      k < |plans| && i < |seats| && plans[k].provider == provider && seats[i].plan == plans[k].id :: (k, i)
  }

  ghost function Paired(k: nat, rows: set<nat>): set<(nat, nat)> {
    set i | i in rows :: (k, i)
  }

  lemma {:induction false} PairedSize(k: nat, rows: set<nat>)
    ensures |Paired(k, rows)| == |rows|
    decreases |rows|
  {
    if rows != {} {
      var i :| i in rows;
      PairedSize(k, rows - {i});
      assert Paired(k, rows) == Paired(k, rows - {i}) + {(k, i)};
    }
  }

  lemma JoinedOfOneMore(seats: seq<Seat>, plans: seq<Plan>, last: Plan, provider: Id)
    ensures JoinedAt(seats, plans + [last], provider) == JoinedAt(seats, plans, provider)
              + if last.provider == provider then Paired(|plans|, SeatsAt(seats, last.id)) else {}
  {
  }

  lemma {:induction false} SeatsOfIsExact(seats: seq<Seat>, plans: seq<Plan>, provider: Id)
    ensures SeatsOf(seats, plans, provider) == |JoinedAt(seats, plans, provider)|
  {
    if plans != [] {
      var n := |plans| - 1;
      var last := plans[n];
      SeatsOfIsExact(seats, plans[..n], provider);
      assert plans == plans[..n] + [last];
      JoinedOfOneMore(seats, plans[..n], last, provider);
      PairedSize(n, SeatsAt(seats, last.id));
      SeatsOnIsExact(seats, last.id);
    }
  }

  // ---------- costs ----------

  /** The licensed seats count if there are any, else the seats in use, and an unused plan counts once. */
  ghost predicate IsMultiplier(licensed: Option<int>, used: nat, m: int) {
    && (licensed.Some? && licensed.value > 0 ==> m == licensed.value)
    && ((licensed == None || licensed.value <= 0) && used > 0 ==> m == used)
    && ((licensed == None || licensed.value <= 0) && used == 0 ==> m == 1)
  }

  lemma MultiplierIsExact(licensed: Option<int>, used: nat)
    ensures IsMultiplier(licensed, used, SeatMultiplier(licensed, used))
  {
  }

  ghost predicate IsPlanCost(perMonth: PerMonth, used: nat, plan: Plan, cost: Option<int>) {
    && (cost.None? <==> perMonth(plan.price).None?)
    && (cost.Some? ==>
          exists m :: IsMultiplier(plan.licensed, used, m) && cost.value == perMonth(plan.price).value * m)
  }

  /** A plan costs its monthly price for each seat that counts. */
  lemma PlanCostIsExact(perMonth: PerMonth, seats: seq<Seat>, plan: Plan)
    ensures IsPlanCost(perMonth, |SeatsAt(seats, plan.id)|, plan, PlanCost(perMonth, seats, plan))
  {
    SeatsOnIsExact(seats, plan.id);
    MultiplierIsExact(plan.licensed, SeatsOn(seats, plan.id));
  }

  function Amount(cost: Option<int>): int {
    if cost == None then 0 else cost.value
  }

  /** The costs of the plans of one provider, one after the other. */
  function SumOfPlans(perMonth: PerMonth, seats: seq<Seat>, plans: seq<Plan>, provider: Id): int {
    if plans == [] then 0
    else
      (if plans[0].provider == provider then Amount(PlanCost(perMonth, seats, plans[0])) else 0)
      + SumOfPlans(perMonth, seats, plans[1..], provider)
  }

  lemma {:induction false} SumOfMorePlans(perMonth: PerMonth, seats: seq<Seat>, plans: seq<Plan>, x: Plan, provider: Id)
    ensures SumOfPlans(perMonth, seats, plans + [x], provider) ==
            SumOfPlans(perMonth, seats, plans, provider)
            + if x.provider == provider then Amount(PlanCost(perMonth, seats, x)) else 0
  {
    if plans != [] {
      SumOfMorePlans(perMonth, seats, plans[1..], x, provider);
      assert (plans + [x])[1..] == plans[1..] + [x];
    }
  }

  ghost predicate HasPricedPlan(perMonth: PerMonth, plans: seq<Plan>, provider: Id) {
    exists plan :: plan in plans && plan.provider == provider && perMonth(plan.price).Some?
  }

  /** A provider's plans cost the sum of those that have a price, and nothing is known when none of them has. */
  lemma {:induction false} PlansCostIsExact(perMonth: PerMonth, seats: seq<Seat>, plans: seq<Plan>, provider: Id)
    ensures PlansCost(perMonth, seats, plans, provider).Some? <==> HasPricedPlan(perMonth, plans, provider)
    ensures Amount(PlansCost(perMonth, seats, plans, provider)) == SumOfPlans(perMonth, seats, plans, provider)
  {
    if plans != [] {
      var init, last := plans[..|plans| - 1], plans[|plans| - 1];
      PlansCostIsExact(perMonth, seats, init, provider);
      SumOfMorePlans(perMonth, seats, init, last, provider);
      assert plans == init + [last];
      assert HasPricedPlan(perMonth, plans, provider) <==>
        HasPricedPlan(perMonth, init, provider) || (last.provider == provider && perMonth(last.price).Some?);
    }
  }

  /** What is shown for a provider: its own price, or its plans. */
  lemma ProviderCostIsExact(perMonth: PerMonth, seats: seq<Seat>, plans: seq<Plan>, p: Provider)
    ensures p.kind == Singular ==> ProviderCost(perMonth, seats, plans, p) == perMonth(p.price)
    ensures p.kind == Seated ==>
      && (ProviderCost(perMonth, seats, plans, p).Some? <==> HasPricedPlan(perMonth, plans, p.id))
      && Amount(ProviderCost(perMonth, seats, plans, p)) == SumOfPlans(perMonth, seats, plans, p.id)
  {
    PlansCostIsExact(perMonth, seats, plans, p.id);
  }

  /** The tenant's total: what is shown for each of its providers, one after the other. */
  function SumOfAll(perMonth: PerMonth, seats: seq<Seat>, plans: seq<Plan>, providers: seq<Provider>): int {
    if providers == [] then 0
    else
      (if providers[0].kind == Singular then Amount(perMonth(providers[0].price))
       else SumOfPlans(perMonth, seats, plans, providers[0].id))
      + SumOfAll(perMonth, seats, plans, providers[1..])
  }

  lemma {:induction false} SumOfOneMore(perMonth: PerMonth, seats: seq<Seat>, plans: seq<Plan>,
                                        providers: seq<Provider>, p: Provider)
    ensures SumOfAll(perMonth, seats, plans, providers + [p]) ==
            SumOfAll(perMonth, seats, plans, providers)
            + if p.kind == Singular then Amount(perMonth(p.price)) else SumOfPlans(perMonth, seats, plans, p.id)
  {
    if providers != [] {
      SumOfOneMore(perMonth, seats, plans, providers[1..], p);
      assert (providers + [p])[1..] == providers[1..] + [p];
    }
  }

  lemma {:induction false} SumIsExact(perMonth: PerMonth, seats: seq<Seat>, plans: seq<Plan>, providers: seq<Provider>)
    ensures SumOfProviders(perMonth, seats, plans, providers) == SumOfAll(perMonth, seats, plans, providers)
  {
    if providers != [] {
      var init, last := providers[..|providers| - 1], providers[|providers| - 1];
      SumIsExact(perMonth, seats, plans, init);
      SumOfOneMore(perMonth, seats, plans, init, last);
      ProviderCostIsExact(perMonth, seats, plans, last);
      assert providers == init + [last];
    }
  }

  /** Both computations end with this total. */
  lemma EstimateIsExact(perMonth: PerMonth, seats: seq<Seat>, plans: seq<Plan>, providers: seq<Provider>)
    requires HasDistinctIds(providers)
    ensures FlatEstimate(perMonth, seats, plans, providers) == SumOfAll(perMonth, seats, plans, providers)
  {
    ComputationsAgree(perMonth, seats, plans, providers);
    SumIsExact(perMonth, seats, plans, providers);
  }
}
