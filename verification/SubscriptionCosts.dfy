/**
 Recurring subscription costs, computed twice: per provider by grouping, and flat for the whole
 tenant. The price normalization to a month is a parameter.
 */
module SubscriptionCosts {
  import opened Wrappers

  type Id = nat

  datatype Kind = Singular | Seated

  datatype Provider = Provider(id: Id, kind: Kind, price: int)

  datatype Plan = Plan(id: Id, provider: Id, price: int, licensed: Option<int>)

  datatype Seat = Seat(plan: Id)

  /** The monthly amount of a stored price, if it has one. */
  type PerMonth = int -> Option<int>

  function OrZero(amount: Option<int>): int {
    match amount
    case None => 0
    case Some(n) => n
  }

  // ---------- counting ----------

  function SeatsOn(seats: seq<Seat>, plan: Id): nat {
    if seats == [] then 0
    else SeatsOn(seats[..|seats| - 1], plan) + if seats[|seats| - 1].plan == plan then 1 else 0
  }

  function PlansOf(plans: seq<Plan>, provider: Id): nat {
    if plans == [] then 0
    else PlansOf(plans[..|plans| - 1], provider) + if plans[|plans| - 1].provider == provider then 1 else 0
  }

  /** Seats joined with the plans of a provider. */
  function SeatsOf(seats: seq<Seat>, plans: seq<Plan>, provider: Id): nat {
    if plans == [] then 0
    else
      var last := plans[|plans| - 1];
      SeatsOf(seats, plans[..|plans| - 1], provider) + if last.provider == provider then SeatsOn(seats, last.id) else 0
  }

  /** GROUP BY over the seats of some plans: no row for a plan without seats. */
  function SeatGroups(seats: seq<Seat>, plans: set<Id>): map<Id, nat> {
    map p | p in plans && SeatsOn(seats, p) > 0 :: SeatsOn(seats, p)
  }

  function PlanGroups(plans: seq<Plan>, providers: set<Id>): map<Id, nat> {
    map p | p in providers && PlansOf(plans, p) > 0 :: PlansOf(plans, p)
  }

  function JoinedGroups(seats: seq<Seat>, plans: seq<Plan>, providers: set<Id>): map<Id, nat> {
    map p | p in providers && SeatsOf(seats, plans, p) > 0 :: SeatsOf(seats, plans, p)
  }

  // ---------- the cost of a plan ----------

  function SeatMultiplier(licensed: Option<int>, used: nat): int {
    if licensed.Some? && licensed.value > 0 then licensed.value else if used > 0 then used else 1
  }

  function PlanCost(perMonth: PerMonth, seats: seq<Seat>, plan: Plan): Option<int> {
    match perMonth(plan.price)
    case None => None
    case Some(n) => Some(n * SeatMultiplier(plan.licensed, SeatsOn(seats, plan.id)))
  }

  /** The summed cost of a provider's plans; None when none of them has a cost. */
  function PlansCost(perMonth: PerMonth, seats: seq<Seat>, plans: seq<Plan>, provider: Id): Option<int> {
    if plans == [] then None
    else
      var before, last := PlansCost(perMonth, seats, plans[..|plans| - 1], provider), plans[|plans| - 1];
      var cost := PlanCost(perMonth, seats, last);
      if last.provider != provider || cost.None? then before else Some(OrZero(before) + cost.value)
  }

  /** The monthly cost shown for a provider. */
  function ProviderCost(perMonth: PerMonth, seats: seq<Seat>, plans: seq<Plan>, p: Provider): Option<int> {
    if p.kind == Singular then perMonth(p.price) else PlansCost(perMonth, seats, plans, p.id)
  }

  function SumOfProviders(perMonth: PerMonth, seats: seq<Seat>, plans: seq<Plan>, providers: seq<Provider>): int {
    if providers == [] then 0
    else
      SumOfProviders(perMonth, seats, plans, providers[..|providers| - 1])
      + OrZero(ProviderCost(perMonth, seats, plans, providers[|providers| - 1]))
  }

  // ---------- the flat estimate ----------

  function SingularTotal(perMonth: PerMonth, providers: seq<Provider>): int {
    if providers == [] then 0
    else
      var last := providers[|providers| - 1];
      SingularTotal(perMonth, providers[..|providers| - 1])
      + if last.kind == Singular then OrZero(perMonth(last.price)) else 0
  }

  function SeatedIds(providers: seq<Provider>): set<Id> {
    set p | p in providers && p.kind == Seated :: p.id
  }

  function PlanTotal(perMonth: PerMonth, seats: seq<Seat>, plans: seq<Plan>, ids: set<Id>): int {
    if plans == [] then 0
    else
      var last := plans[|plans| - 1];
      PlanTotal(perMonth, seats, plans[..|plans| - 1], ids)
      + if last.provider in ids then OrZero(PlanCost(perMonth, seats, last)) else 0
  }

  function FlatEstimate(perMonth: PerMonth, seats: seq<Seat>, plans: seq<Plan>, providers: seq<Provider>): int {
    SingularTotal(perMonth, providers) + PlanTotal(perMonth, seats, plans, SeatedIds(providers))
  }

  predicate HasDistinctIds(providers: seq<Provider>) {
    forall i, j :: 0 <= i < j < |providers| ==> providers[i].id != providers[j].id
  }

  lemma {:induction false} PlanTotalOfNobody(perMonth: PerMonth, seats: seq<Seat>, plans: seq<Plan>)
    ensures PlanTotal(perMonth, seats, plans, {}) == 0
  {
    if plans != [] {
      PlanTotalOfNobody(perMonth, seats, plans[..|plans| - 1]);
    }
  }

  /** One more provider adds exactly the cost of its own plans to the flat total. */
  lemma {:induction false} PlanTotalOfOneMore(perMonth: PerMonth, seats: seq<Seat>, plans: seq<Plan>,
                                              ids: set<Id>, id: Id)
    requires id !in ids
    ensures PlanTotal(perMonth, seats, plans, ids + {id})
         == PlanTotal(perMonth, seats, plans, ids) + OrZero(PlansCost(perMonth, seats, plans, id))
  {
    if plans != [] {
      PlanTotalOfOneMore(perMonth, seats, plans[..|plans| - 1], ids, id);
    }
  }

  /** Grouping by provider and summing gives the flat estimate, whatever providers, plans, seats and prices. */
  lemma {:induction false} ComputationsAgree(perMonth: PerMonth, seats: seq<Seat>, plans: seq<Plan>,
                                             providers: seq<Provider>)
    requires HasDistinctIds(providers)
    ensures SumOfProviders(perMonth, seats, plans, providers) == FlatEstimate(perMonth, seats, plans, providers)
  {
    if providers == [] {
      assert SeatedIds(providers) == {};
      PlanTotalOfNobody(perMonth, seats, plans);
    } else {
      var init, last := providers[..|providers| - 1], providers[|providers| - 1];
      ComputationsAgree(perMonth, seats, plans, init);
      assert providers == init + [last];
      if last.kind == Seated {
        assert SeatedIds(providers) == SeatedIds(init) + {last.id};
        assert last.id !in SeatedIds(init);
        PlanTotalOfOneMore(perMonth, seats, plans, SeatedIds(init), last.id);
      } else {
        assert SeatedIds(providers) == SeatedIds(init);
      }
    }
  }

  // ---------- the computations as loops ----------

  datatype Aggregate = Aggregate(planCount: nat, seatCount: nat, monthlyCost: Option<int>)

  method AssignedSeats(groups: map<Id, nat>, ghost seats: seq<Seat>, ghost plans: set<Id>, plan: Id) returns (n: nat)
    requires plan in plans && groups == SeatGroups(seats, plans)
    ensures n == SeatsOn(seats, plan)
  {
    n := if plan in groups then groups[plan] else 0;
  }

  method MonthlyPlanCost(perMonth: PerMonth, plan: Plan, used: nat) returns (cost: Option<int>)
    ensures cost == match perMonth(plan.price)
                    case None => None
                    case Some(n) => Some(n * SeatMultiplier(plan.licensed, used))
  {
    var perSeat := perMonth(plan.price);
    if perSeat.None? {
      return None;
    }
    return Some(perSeat.value * SeatMultiplier(plan.licensed, used));
  }

  /** The tenant's estimate: singular providers first, then every plan of a seated one. */
  method EstimateTenantMonthlyCost(perMonth: PerMonth, seats: seq<Seat>, plans: seq<Plan>, providers: seq<Provider>)
    returns (total: int)
    ensures total == FlatEstimate(perMonth, seats, plans, providers)
  {
    total := 0;
    var i := 0;
    while i < |providers|
      invariant 0 <= i <= |providers|
      invariant total == SingularTotal(perMonth, providers[..i])
    {
      if providers[i].kind == Singular {
        total := total + OrZero(perMonth(providers[i].price));
      }
      assert providers[..i + 1][..i] == providers[..i];
      i := i + 1;
    }
    assert providers[..i] == providers;
    var seatedIds := SeatedIds(providers);
    var groups := SeatGroups(seats, set p | p in plans && p.provider in seatedIds :: p.id);
    var k := 0;
    while k < |plans|
      invariant 0 <= k <= |plans|
      invariant total == SingularTotal(perMonth, providers) + PlanTotal(perMonth, seats, plans[..k], seatedIds)
    {
      if plans[k].provider in seatedIds {
        var n := AssignedSeats(groups, seats, set p | p in plans && p.provider in seatedIds :: p.id, plans[k].id);
        var cost := MonthlyPlanCost(perMonth, plans[k], n);
        total := total + OrZero(cost);
      }
      assert plans[..k + 1][..k] == plans[..k];
      k := k + 1;
    }
    assert plans[..k] == plans;
  }

  function IdsOf(providers: seq<Provider>): set<Id> {
    set p | p in providers :: p.id
  }

  /** Writes the plan counts of the grouped rows into the entries that exist. */
  method ApplyPlanCounts(entries: map<Id, Aggregate>, counts: map<Id, nat>) returns (r: map<Id, Aggregate>)
    ensures r.Keys == entries.Keys
    ensures forall p :: p in r ==>
      r[p] == entries[p].(planCount := if p in counts then counts[p] else entries[p].planCount)
  {
    r := entries;
    var todo := counts.Keys;
    while todo != {}
      invariant todo <= counts.Keys && r.Keys == entries.Keys
      invariant forall p :: p in r ==> r[p] == entries[p].(
        planCount := if p in counts && p !in todo then counts[p] else entries[p].planCount)
      decreases |todo|
    {
      var p :| p in todo;
      if p in r {
        r := r[p := r[p].(planCount := counts[p])];
      }
      todo := todo - {p};
    }
  }

  method ApplySeatCounts(entries: map<Id, Aggregate>, counts: map<Id, nat>) returns (r: map<Id, Aggregate>)
    ensures r.Keys == entries.Keys
    ensures forall p :: p in r ==>
      r[p] == entries[p].(seatCount := if p in counts then counts[p] else entries[p].seatCount)
  {
    r := entries;
    var todo := counts.Keys;
    while todo != {}
      invariant todo <= counts.Keys && r.Keys == entries.Keys
      invariant forall p :: p in r ==> r[p] == entries[p].(
        seatCount := if p in counts && p !in todo then counts[p] else entries[p].seatCount)
      decreases |todo|
    {
      var p :| p in todo;
      if p in r {
        r := r[p := r[p].(seatCount := counts[p])];
      }
      todo := todo - {p};
    }
  }

  /** An entry per provider, with its counts and no cost yet. */
  method CountRows(seats: seq<Seat>, plans: seq<Plan>, ids: set<Id>) returns (r: map<Id, Aggregate>)
    ensures r.Keys == ids
    ensures forall p :: p in r ==> r[p] == Aggregate(PlansOf(plans, p), SeatsOf(seats, plans, p), None)
  {
    r := map id | id in ids :: Aggregate(0, 0, None);
    r := ApplyPlanCounts(r, PlanGroups(plans, ids));
    r := ApplySeatCounts(r, JoinedGroups(seats, plans, ids));
  }

  /** Adds up the plans of seated providers, entry by entry. */
  method AddPlanCosts(perMonth: PerMonth, entries: map<Id, Aggregate>, seats: seq<Seat>, plans: seq<Plan>,
                      seatedIds: set<Id>)
    returns (r: map<Id, Aggregate>)
    requires forall p :: p in entries ==> entries[p].monthlyCost.None?
    ensures r.Keys == entries.Keys
    ensures forall p :: p in r ==> r[p] == entries[p].(
      monthlyCost := if p in seatedIds then PlansCost(perMonth, seats, plans, p) else None)
  {
    r := entries;
    var groups := SeatGroups(seats, set p | p in plans && p.provider in seatedIds :: p.id);
    var k := 0;
    while k < |plans|
      invariant 0 <= k <= |plans| && r.Keys == entries.Keys
      invariant forall p :: p in r ==> r[p] == entries[p].(
        monthlyCost := if p in seatedIds then PlansCost(perMonth, seats, plans[..k], p) else None)
    {
      var plan := plans[k];
      assert plans[..k + 1][..k] == plans[..k];
      if plan.provider in seatedIds && plan.provider in r {
        var n := AssignedSeats(groups, seats, set p | p in plans && p.provider in seatedIds :: p.id, plan.id);
        var monthly := MonthlyPlanCost(perMonth, plan, n);
        if monthly.Some? {
          var entry := r[plan.provider];
          r := r[plan.provider := entry.(monthlyCost := Some(OrZero(entry.monthlyCost) + monthly.value))];
        }
      }
      k := k + 1;
    }
    assert plans[..k] == plans;
  }

  function WithSingularCost(perMonth: PerMonth, entry: Aggregate, p: Provider): Aggregate {
    if p.kind == Singular then entry.(monthlyCost := perMonth(p.price)) else entry
  }

  /** Sets the cost of singular providers from their own price. */
  method SetSingularCosts(perMonth: PerMonth, entries: map<Id, Aggregate>, providers: seq<Provider>)
    returns (r: map<Id, Aggregate>)
    requires HasDistinctIds(providers) && entries.Keys == IdsOf(providers)
    ensures r.Keys == entries.Keys
    ensures forall i :: 0 <= i < |providers| ==>
      r[providers[i].id] == WithSingularCost(perMonth, entries[providers[i].id], providers[i])
  {
    r := entries;
    var i := 0;
    while i < |providers|
      invariant 0 <= i <= |providers| && r.Keys == entries.Keys
      invariant forall j :: i <= j < |providers| ==> r[providers[j].id] == entries[providers[j].id]
      invariant forall j :: 0 <= j < i ==>
        r[providers[j].id] == WithSingularCost(perMonth, entries[providers[j].id], providers[j])
    {
      var p := providers[i];
      if p.kind == Singular {
        r := r[p.id := r[p.id].(monthlyCost := perMonth(p.price))];
      }
      i := i + 1;
    }
  }

  function AggregateOf(perMonth: PerMonth, seats: seq<Seat>, plans: seq<Plan>, p: Provider): Aggregate {
    Aggregate(PlansOf(plans, p.id), SeatsOf(seats, plans, p.id), ProviderCost(perMonth, seats, plans, p))
  }

  /** The overview holds, for each provider, the number of its plans and of their seats, and its monthly cost. */
  method BuildProviderOverview(perMonth: PerMonth, seats: seq<Seat>, plans: seq<Plan>, providers: seq<Provider>)
    returns (overview: map<Id, Aggregate>)
    requires HasDistinctIds(providers)
    ensures overview.Keys == IdsOf(providers)
    ensures forall i :: 0 <= i < |providers| ==>
      overview[providers[i].id] == AggregateOf(perMonth, seats, plans, providers[i])
  {
    overview := CountRows(seats, plans, IdsOf(providers));
    overview := AddPlanCosts(perMonth, overview, seats, plans, SeatedIds(providers));
    SeatedIffInIds(providers);
    overview := SetSingularCosts(perMonth, overview, providers);
  }

  lemma SeatedIffInIds(providers: seq<Provider>)
    requires HasDistinctIds(providers)
    ensures forall i :: 0 <= i < |providers| ==>
      (providers[i].id in SeatedIds(providers) <==> providers[i].kind == Seated)
    ensures forall i :: 0 <= i < |providers| ==> providers[i].id in IdsOf(providers)
  {
  }

  /** The per-provider helper of the dashboard: a running total and a flag for "any plan has a cost". */
  method SumPlansMonthlyCost(perMonth: PerMonth, seats: seq<Seat>, plans: seq<Plan>, provider: Id)
    returns (cost: Option<int>)
    requires forall k :: 0 <= k < |plans| ==> plans[k].provider == provider
    ensures cost == PlansCost(perMonth, seats, plans, provider)
  {
    var total, any := 0, false;
    var k := 0;
    while k < |plans|
      invariant 0 <= k <= |plans|
      invariant PlansCost(perMonth, seats, plans[..k], provider) == if any then Some(total) else None
      invariant !any ==> total == 0
    {
      var monthly := MonthlyPlanCost(perMonth, plans[k], SeatsOn(seats, plans[k].id));
      assert plans[..k + 1][..k] == plans[..k];
      if monthly.Some? {
        total := total + monthly.value;
        any := true;
      }
      k := k + 1;
    }
    assert plans[..k] == plans;
    return if any then Some(total) else None;
  }

  function SumOfOverview(overview: map<Id, Aggregate>, providers: seq<Provider>): int
    requires forall i :: 0 <= i < |providers| ==> providers[i].id in overview
  {
    if providers == [] then 0
    else
      var last := providers[|providers| - 1];
      SumOfOverview(overview, providers[..|providers| - 1]) + OrZero(overview[last.id].monthlyCost)
  }

  lemma {:induction false} OverviewSums(
      overview: map<Id, Aggregate>, perMonth: PerMonth, seats: seq<Seat>, plans: seq<Plan>, providers: seq<Provider>)
    requires forall i :: 0 <= i < |providers| ==>
      providers[i].id in overview && overview[providers[i].id] == AggregateOf(perMonth, seats, plans, providers[i])
    ensures SumOfOverview(overview, providers) == SumOfProviders(perMonth, seats, plans, providers)
  {
    if providers != [] {
      OverviewSums(overview, perMonth, seats, plans, providers[..|providers| - 1]);
    }
  }

  /** Both computations, run on the same rows, end with the same total. */
  method BothComputations(perMonth: PerMonth, seats: seq<Seat>, plans: seq<Plan>, providers: seq<Provider>)
    returns (overview: map<Id, Aggregate>, estimate: int)
    requires HasDistinctIds(providers)
    ensures forall i :: 0 <= i < |providers| ==> providers[i].id in overview
    ensures SumOfOverview(overview, providers) == estimate
  {
    overview := BuildProviderOverview(perMonth, seats, plans, providers);
    estimate := EstimateTenantMonthlyCost(perMonth, seats, plans, providers);
    SeatedIffInIds(providers);
    OverviewSums(overview, perMonth, seats, plans, providers);
    ComputationsAgree(perMonth, seats, plans, providers);
  }
}
