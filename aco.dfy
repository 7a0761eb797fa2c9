/** The colony: the pheromone matrix shared by all trucks, the trucks of
    the current generation, and the operations that set them up, move
    them, update the pheromones from their routes and pick the best one. */
module Aco {
  import opened Problem
  import opened Route
  import opened Wheel
  import opened Trucks

  /** A route whose deposit is defined: a single node, or a route of
      positive length. */
  ghost predicate Depositable(inst: Instance, r: seq<int>) {
    inst.Valid() && InRange(inst.Size(), r) && (|r| > 1 ==> RouteDistance(inst, r) > 0)
  }

  /** The pheromone a route deposits on each edge it travels:
      DEPOSIT_SCALE over its length, nothing for a one-node route. */
  function DepositOf(inst: Instance, r: seq<int>): (amount: real)
    requires Depositable(inst, r)
    ensures |r| <= 1 ==> amount == 0.0
    ensures |r| > 1 ==> amount > 0.0
  {
    if |r| > 1 then Inverse(RouteDistance(inst, r)) * DEPOSIT_SCALE else 0.0
  }

  /** Number of times route r travels the edge from a to b. */
  function EdgeCount(r: seq<int>, a: int, b: int): (c: nat)
    ensures c == 0 <==> forall k :: 1 <= k < |r| ==> r[k - 1] != a || r[k] != b
  {
    if |r| < 2 then 0
    else EdgeCount(r[..|r| - 1], a, b) + (if r[|r| - 2] == a && r[|r| - 1] == b then 1 else 0)
  }

  /** What r leaves on the edge from a to b when it adds amount at each
      step that travels that edge: amount times the number of times it
      travels the edge. */
  function RouteDeposit(r: seq<int>, amount: real, a: int, b: int): (d: real)
    ensures d == amount * EdgeCount(r, a, b) as real
  {
    if |r| < 2 then
      assert amount * 0.0 == 0.0;
      0.0
    else
      var hit := r[|r| - 2] == a && r[|r| - 1] == b;
      Distribute(amount, EdgeCount(r[..|r| - 1], a, b) as real);
      RouteDeposit(r[..|r| - 1], amount, a, b) + (if hit then amount else 0.0)
  }

  /** What the first count routes together leave on the edge from a to b. */
  function Deposits(inst: Instance, routes: seq<seq<int>>, count: nat, a: int, b: int): (d: real)
    requires count <= |routes|
    requires forall k :: 0 <= k < |routes| ==> Depositable(inst, routes[k])
    ensures (forall k :: 0 <= k < count ==> |routes[k]| <= 1) ==> d == 0.0
  {
    if count == 0 then 0.0
    else
      var r := routes[count - 1];
      Deposits(inst, routes, count - 1, a, b) + RouteDeposit(r, DepositOf(inst, r), a, b)
  }

  /** The routes of a sequence of trucks, each of them depositable. */
  ghost function RoutesOf(inst: Instance, ts: seq<Truck>): (rs: seq<seq<int>>)
    reads ts, set t | t in ts :: t.visited
    requires forall k :: 0 <= k < |ts| ==> ts[k].inst == inst && ts[k].Valid()
    ensures |rs| == |ts|
    ensures forall k :: 0 <= k < |ts| ==> rs[k] == ts[k].route && Depositable(inst, rs[k])
  {
    TrucksDepositable(inst, ts);
    seq(|ts|, k requires 0 <= k < |ts| reads ts => ts[k].route)
  }

  /** The states of a sequence of trucks. */
  ghost function StatesOf(ts: seq<Truck>): (ss: seq<TruckState>)
    reads ts, set t | t in ts :: t.visited
    ensures |ss| == |ts| && forall k :: 0 <= k < |ts| ==> ss[k] == ts[k].State()
  {
    seq(|ts|, k requires 0 <= k < |ts| reads ts, set t | t in ts :: t.visited => ts[k].State())
  }

  /** A valid truck has a route whose deposit is defined. */
  lemma TrucksDepositable(inst: Instance, ts: seq<Truck>)
    requires forall k :: 0 <= k < |ts| ==> ts[k].inst == inst && ts[k].Valid()
    ensures forall k :: 0 <= k < |ts| ==> Depositable(inst, ts[k].route)
  {
    forall k | 0 <= k < |ts|
      ensures Depositable(inst, ts[k].route)
    {
      DistanceOfTruck(inst, ts[k].State());
    }
  }

  /** The length of each route. */
  function RouteDistances(inst: Instance, routes: seq<seq<int>>): (ds: seq<int>)
    requires inst.Valid() && forall k :: 0 <= k < |routes| ==> InRange(inst.Size(), routes[k])
    ensures |ds| == |routes|
    ensures forall k :: 0 <= k < |routes| ==> ds[k] == RouteDistance(inst, routes[k])
  {
    if |routes| == 0 then []
    else RouteDistances(inst, routes[..|routes| - 1]) + [RouteDistance(inst, routes[|routes| - 1])]
  }

  /** k is the first position of a minimum of ds[..n]. */
  predicate IsFirstMinimum(ds: seq<int>, n: nat, k: int)
    requires n <= |ds|
  {
    0 <= k < n &&
    (forall j :: 0 <= j < n ==> ds[k] <= ds[j]) &&
    (forall j :: 0 <= j < k ==> ds[k] < ds[j])
  }

  /** The first position of a minimum of ds[..n]: the running minimum
      moves only to a strictly smaller entry. */
  function FirstMinimum(ds: seq<int>, n: nat): (k: nat)
    requires 0 < n <= |ds|
    ensures IsFirstMinimum(ds, n, k)
  {
    if n == 1 then 0
    else
      var k := FirstMinimum(ds, n - 1);
      if ds[n - 1] < ds[k] then n - 1 else k
  }

  /** Extending the range by one entry moves the first minimum there only
      when that entry is strictly smaller. */
  lemma FirstMinimumStep(ds: seq<int>, n: nat, k: nat)
    requires n < |ds| && (n > 0 ==> k == FirstMinimum(ds, n))
    ensures FirstMinimum(ds, n + 1) == if n == 0 || ds[n] < ds[k] then n else k
  {
  }

  /** There is only one first minimum. */
  lemma FirstMinimumUnique(ds: seq<int>, n: nat, k: int)
    requires 0 < n <= |ds| && IsFirstMinimum(ds, n, k)
    ensures k == FirstMinimum(ds, n)
  {
    var m := FirstMinimum(ds, n);
    if k < m {
      assert false;
    } else if m < k {
      assert false;
    }
  }

  // ---------------------------------------------------------------------------
  // Lemmas about the deposits

  lemma Distribute(x: real, c: real)
    ensures x * c + x == x * (c + 1.0)
  {
  }

  lemma {:induction false} RouteDepositNonNegative(r: seq<int>, amount: real, a: int, b: int)
    requires amount >= 0.0
    ensures RouteDeposit(r, amount, a, b) >= 0.0
  {
    if |r| >= 2 {
      RouteDepositNonNegative(r[..|r| - 1], amount, a, b);
    }
  }

  /** Deposits are never negative. */
  lemma {:induction false} DepositsNonNegative(inst: Instance, routes: seq<seq<int>>, count: nat, a: int, b: int)
    requires count <= |routes|
    requires forall k :: 0 <= k < |routes| ==> Depositable(inst, routes[k])
    ensures Deposits(inst, routes, count, a, b) >= 0.0
  {
    if count > 0 {
      var r := routes[count - 1];
      DepositsNonNegative(inst, routes, count - 1, a, b);
      RouteDepositNonNegative(r, DepositOf(inst, r), a, b);
    }
  }

  /** An edge no route travels receives nothing. */
  lemma {:induction false} UnusedEdgeGetsNothing(inst: Instance, routes: seq<seq<int>>, count: nat, a: int, b: int)
    requires count <= |routes|
    requires forall k :: 0 <= k < |routes| ==> Depositable(inst, routes[k])
    requires forall k :: 0 <= k < count ==> EdgeCount(routes[k], a, b) == 0
    ensures Deposits(inst, routes, count, a, b) == 0.0
  {
    if count > 0 {
      UnusedEdgeGetsNothing(inst, routes, count - 1, a, b);
    }
  }

  lemma RouteDepositSnoc(r: seq<int>, amount: real, e: nat, a: int, b: int)
    requires 1 <= e < |r|
    ensures RouteDeposit(r[..e + 1], amount, a, b) ==
      RouteDeposit(r[..e], amount, a, b) + (if r[e - 1] == a && r[e] == b then amount else 0.0)
  {
    assert r[..e + 1][..e] == r[..e];
  }

  /** The colony (the solver object): the pheromone matrix and the trucks
      of the current generation. */
  class Colony {
    /** The instance the colony solves. */
    const inst: Instance
    /** Pheromone on each edge. */
    var pheromones: array2<real>
    /** The trucks (ants) of the current generation. */
    var trucks: seq<Truck>
    /** The trucks and their visited-depots tables. */
    ghost var Repr: set<object>

    ghost predicate Valid()
      reads this, pheromones, Repr
    {
      TrucksValid() && pheromones !in Repr &&
      pheromones.Length0 == inst.Size() && pheromones.Length1 == inst.Size() &&
      (forall i, j :: 0 <= i < inst.Size() && 0 <= j < inst.Size() ==> pheromones[i, j] >= 0.0)
    }

    /** The trucks' part of Valid: each truck valid on this instance, each
      with its own visited-depots table. */
    ghost predicate TrucksValid()
      reads this, Repr
    {
      inst.Valid() && this !in Repr &&
      (forall k :: 0 <= k < |trucks| ==> trucks[k] in Repr && trucks[k].visited in Repr) &&
      (forall k :: 0 <= k < |trucks| ==> trucks[k].inst == inst && trucks[k].Valid()) &&
      (forall a, b :: 0 <= a < b < |trucks| ==> trucks[a].visited != trucks[b].visited)
    }

    /** The routes of the current generation. */
    ghost function Routes(): seq<seq<int>>
      reads this, Repr
      requires TrucksValid()
    {
      RoutesOf(inst, trucks)
    }

    /** The states of the trucks of the current generation. */
    ghost function States(): (ss: seq<TruckState>)
      reads this, Repr
      requires TrucksValid()
      ensures |ss| == |trucks| && forall k :: 0 <= k < |trucks| ==> ss[k] == trucks[k].State() && Inv(inst, ss[k])
    {
      StatesOf(trucks)
    }

    /** Every edge carries some pheromone, so that every candidate weight is
      positive and the roulette list sums to 1 (Wheel.ProbsSumToOne). */
    ghost predicate Positive()
      reads this, pheromones
      requires pheromones.Length0 == inst.Size() && pheromones.Length1 == inst.Size()
    {
      forall i, j :: 0 <= i < inst.Size() && 0 <= j < inst.Size() ==> pheromones[i, j] > 0.0
    }

    /** The trucks' states after the move rounds of a generation, from
      fresh trucks and under the current pheromone matrix. */
    ghost function Bred(moves: seq<seq<Draws>>): seq<TruckState>
      reads this, pheromones
      requires inst.Valid() && pheromones.Length0 == inst.Size() && pheromones.Length1 == inst.Size()
      requires forall r :: 0 <= r < |moves| ==> |moves[r]| == TruckCount(inst.Size())
      requires forall r, k :: 0 <= r < |moves| && 0 <= k < |moves[r]| ==> PicksInRange(inst, moves[r][k].picks)
    {
      Rounds(inst, pheromones, Starts(inst, TruckCount(inst.Size())), moves)
    }

    /** While every edge carries pheromone, each truck's roulette list is a
      probability distribution. */
    lemma WheelsSumToOne()
      requires Valid() && Positive()
      ensures forall k :: 0 <= k < |trucks| ==> ProbSum(DepotProbs(inst, pheromones, trucks[k].State())) == 1.0
    {
      forall k | 0 <= k < |trucks|
        ensures ProbSum(DepotProbs(inst, pheromones, trucks[k].State())) == 1.0
      {
        ProbsSumToOne(inst, pheromones, trucks[k].State());
      }
    }

    /** A colony with no trucks yet and a zero pheromone matrix. */
    constructor(inst: Instance)
      requires inst.Valid()
      ensures Valid() && this.inst == inst && trucks == [] && fresh(pheromones)
      ensures forall i, j :: 0 <= i < inst.Size() && 0 <= j < inst.Size() ==> pheromones[i, j] == 0.0
    {
      this.inst := inst;
      pheromones := new real[inst.Size(), inst.Size()]((_, _) => 0.0);
      trucks := [];
      Repr := {};
    }

    /** A fresh pheromone matrix with 1 on every edge. */
    method SetupPheromones()
      requires Valid()
      modifies this
      ensures Valid() && trucks == old(trucks) && Repr == old(Repr) && fresh(pheromones)
      ensures forall i, j :: 0 <= i < inst.Size() && 0 <= j < inst.Size() ==> pheromones[i, j] == 1.0
      ensures Positive()
    {
      var n := inst.Size();
      var m := new real[n, n];
      for i := 0 to n
        invariant unchanged(this)
        invariant forall a, b :: 0 <= a < i && 0 <= b < n ==> m[a, b] == 1.0
      {
        for j := 0 to n
          invariant unchanged(this)
          invariant forall a, b :: 0 <= a < i && 0 <= b < n ==> m[a, b] == 1.0
          invariant forall b :: 0 <= b < j ==> m[i, b] == 1.0
        {
          m[i, j] := 1.0;
        }
      }
      pheromones := m;
    }

    /** A new generation of TruckCount(n) fresh trucks, all at home. */
    method SetupTrucks()
      requires Valid()
      modifies this
      ensures Valid() && pheromones == old(pheromones) && unchanged(pheromones)
      ensures |trucks| == TruckCount(inst.Size())
      ensures forall k :: 0 <= k < |trucks| ==> fresh(trucks[k]) && fresh(trucks[k].visited)
      ensures forall k :: 0 <= k < |trucks| ==> trucks[k].State() == Start(inst)
      ensures fresh(Repr)
    {
      var ts, r := NewTrucks(TruckCount(inst.Size()));
      trucks := ts;
      Repr := r;
    }

    /** count fresh trucks at home, each with its own visited-depots table,
      and the set of those objects. */
    method NewTrucks(count: nat) returns (ts: seq<Truck>, ghost r: set<object>)
      requires inst.Valid()
      ensures |ts| == count && fresh(r)
      ensures forall k :: 0 <= k < count ==> ts[k] in r && ts[k].visited in r && fresh(ts[k]) && fresh(ts[k].visited)
      ensures forall k :: 0 <= k < count ==> ts[k].inst == inst && ts[k].Valid() && ts[k].State() == Start(inst)
      ensures forall a, b :: 0 <= a < b < count ==> ts[a].visited != ts[b].visited
    {
      ts := [];
      r := {};
      for i := 0 to count
        invariant |ts| == i
        invariant fresh(r)
        invariant forall k :: 0 <= k < i ==> ts[k] in r && ts[k].visited in r
        invariant forall k :: 0 <= k < i ==> fresh(ts[k]) && fresh(ts[k].visited)
        invariant forall k :: 0 <= k < i ==> ts[k].inst == inst && ts[k].Valid() && ts[k].State() == Start(inst)
        invariant forall a, b :: 0 <= a < b < i ==> ts[a].visited != ts[b].visited
      {
        var t := new Truck(inst);
        ts := ts + [t];
        r := r + {t, t.visited};
      }
    }

    /** Evaporation then deposit: every entry keeps EVAPORATION_RATE of its
      value and gains what the routes of the generation leave on it. */
    method UpdatePheromones()
      requires Valid()
      modifies pheromones
      ensures Valid()
      ensures forall a, b :: 0 <= a < inst.Size() && 0 <= b < inst.Size() ==>
        pheromones[a, b] == EVAPORATION_RATE * old(pheromones[a, b]) + Deposits(inst, Routes(), |trucks|, a, b)
      ensures old(Positive()) ==> Positive()
      ensures States() == old(States())
    {
      ghost var positive := Positive();
      Evaporate();
      DepositAll();
      if positive {
        forall a, b | 0 <= a < inst.Size() && 0 <= b < inst.Size() ensures pheromones[a, b] > 0.0 {
          DepositsNonNegative(inst, Routes(), |trucks|, a, b);
        }
      }
    }

    /** The deposit half of UpdatePheromones: each truck's deposit added to
      every edge of its route. */
    method DepositAll()
      requires Valid()
      modifies pheromones
      ensures Valid()
      ensures forall a, b :: 0 <= a < inst.Size() && 0 <= b < inst.Size() ==>
        pheromones[a, b] == old(pheromones[a, b]) + Deposits(inst, Routes(), |trucks|, a, b)
    {
      var n := inst.Size();
      ghost var routes := Routes();
      for t := 0 to |trucks|
        invariant Valid() && Routes() == routes
        invariant forall a, b :: 0 <= a < n && 0 <= b < n ==>
          pheromones[a, b] == old(pheromones[a, b]) + Deposits(inst, routes, t, a, b)
      {
        DepositTruck(t);
      }
    }

    /** The deposit of truck t added along its route. */
    method DepositTruck(t: nat)
      requires Valid() && t < |trucks|
      modifies pheromones
      ensures Valid() && Routes() == old(Routes())
      ensures forall a, b :: 0 <= a < inst.Size() && 0 <= b < inst.Size() ==>
        pheromones[a, b] == old(pheromones[a, b]) + RouteDeposit(Routes()[t], DepositOf(inst, Routes()[t]), a, b)
    {
      var truck := trucks[t];
      assert truck.route == Routes()[t];
      var depositValue := DepositValue(truck);
      DepositRoute(truck.route, depositValue);
    }

    /** The deposit of one truck: DEPOSIT_SCALE over the length of its
      route, nothing when it has not left home. */
    method DepositValue(truck: Truck) returns (amount: real)
      requires truck.inst == inst && truck.Valid()
      ensures Depositable(inst, truck.route) && amount == DepositOf(inst, truck.route)
    {
      DistanceOfTruck(inst, truck.State());
      amount := 0.0;
      if |truck.route| > 1 {
        var distance := truck.GetDistanceTraveled();
        amount := Inverse(distance) * DEPOSIT_SCALE;
      }
    }

    /** The evaporation half of UpdatePheromones: every entry scaled by
      EVAPORATION_RATE. */
    method Evaporate()
      requires Valid()
      modifies pheromones
      ensures Valid()
      ensures forall a, b :: 0 <= a < inst.Size() && 0 <= b < inst.Size() ==>
        pheromones[a, b] == EVAPORATION_RATE * old(pheromones[a, b])
    {
      var n := inst.Size();
      for i := 0 to n
        invariant forall a, b :: 0 <= a < i && 0 <= b < n ==> pheromones[a, b] == EVAPORATION_RATE * old(pheromones[a, b])
        invariant forall a, b :: i <= a < n && 0 <= b < n ==> pheromones[a, b] == old(pheromones[a, b])
      {
        for j := 0 to n
          invariant forall a, b :: 0 <= a < i && 0 <= b < n ==> pheromones[a, b] == EVAPORATION_RATE * old(pheromones[a, b])
          invariant forall b :: 0 <= b < j ==> pheromones[i, b] == EVAPORATION_RATE * old(pheromones[i, b])
          invariant forall a, b :: i <= a < n && 0 <= b < n && (a != i || b >= j) ==> pheromones[a, b] == old(pheromones[a, b])
        {
          pheromones[i, j] := pheromones[i, j] * EVAPORATION_RATE;
        }
      }
    }

    /** The deposit half of UpdatePheromones for one route: amount added to
      every edge the route travels, once per time it travels it. */
    method DepositRoute(route: seq<int>, amount: real)
      requires Valid() && InRange(inst.Size(), route) && |route| >= 1 && amount >= 0.0
      modifies pheromones
      ensures Valid()
      ensures forall a, b :: 0 <= a < inst.Size() && 0 <= b < inst.Size() ==>
        pheromones[a, b] == old(pheromones[a, b]) + RouteDeposit(route, amount, a, b)
    {
      var n := inst.Size();
      for e := 1 to |route|
        invariant forall a, b :: 0 <= a < n && 0 <= b < n ==>
          pheromones[a, b] == old(pheromones[a, b]) + RouteDeposit(route[..e], amount, a, b)
      {
        forall a, b | 0 <= a < n && 0 <= b < n {
          RouteDepositSnoc(route, amount, e, a, b);
        }
        pheromones[route[e - 1], route[e]] := pheromones[route[e - 1], route[e]] + amount;
      }
      assert route[..|route|] == route;
      forall a, b | 0 <= a < n && 0 <= b < n ensures pheromones[a, b] >= 0.0 {
        RouteDepositNonNegative(route, amount, a, b);
      }
    }

    /** Whether every truck of the generation is done. */
    method DoneRoutes() returns (done: bool)
      requires Valid()
      ensures done <==> forall k :: 0 <= k < |trucks| ==> AllVisited(trucks[k].visited[..])
    {
      done := true;
      for t := 0 to |trucks|
        invariant done <==> forall k :: 0 <= k < t ==> AllVisited(trucks[k].visited[..])
      {
        var d := trucks[t].DoneRoute();
        if !d {
          done := false;
        }
      }
    }

    /** One step of every truck, in order, with the draws of each. */
    method MoveTrucks(draws: seq<Draws>)
      requires Valid() && |draws| == |trucks|
      requires forall k :: 0 <= k < |draws| ==> PicksInRange(inst, draws[k].picks)
      modifies Repr
      ensures Valid()
      ensures forall k :: 0 <= k < |trucks| ==>
        trucks[k].State() == Step(inst, pheromones, old(trucks[k].State()), draws[k])
    {
      for t := 0 to |trucks|
        invariant Valid() && trucks == old(trucks)
        invariant forall k :: 0 <= k < t ==> trucks[k].State() == Step(inst, pheromones, old(trucks[k].State()), draws[k])
        invariant forall k :: t <= k < |trucks| ==> trucks[k].State() == old(trucks[k].State())
      {
        MoveTruck(t, draws[t]);
      }
    }

    /** One step of truck t; the other trucks keep their state. */
    method MoveTruck(t: nat, d: Draws)
      requires Valid() && t < |trucks| && PicksInRange(inst, d.picks)
      modifies trucks[t], trucks[t].visited
      ensures Valid()
      ensures trucks[t].State() == Step(inst, pheromones, old(trucks[t].State()), d)
      ensures forall k :: 0 <= k < |trucks| && k != t ==> trucks[k].State() == old(trucks[k].State())
    {
      var truck := trucks[t];
      assert forall k :: 0 <= k < |trucks| && k != t ==> trucks[k] != truck && trucks[k].visited != truck.visited;
      truck.VisitDepot(pheromones, d);
    }

    /** The truck of the generation with the shortest route, the earliest
      one on a tie; a new truck when there is none. */
    method GetBest() returns (best: Truck)
      requires Valid()
      ensures Valid() && Routes() == old(Routes()) && States() == old(States())
      ensures best.inst == inst && best.Valid()
      ensures |trucks| == 0 ==> fresh(best) && best.State() == Start(inst)
      ensures |trucks| > 0 ==> best == trucks[FirstMinimum(RouteDistances(inst, Routes()), |trucks|)]
    {
      var found, at := BestIndex();
      if found {
        best := trucks[at];
      } else {
        best := new Truck(inst);
      }
    }

    /** The scan of get_best: the position of the first truck with the
        shortest route, if there is a truck at all. */
    method BestIndex() returns (found: bool, at: nat)
      requires Valid()
      ensures found <==> |trucks| > 0
      ensures found ==> at == FirstMinimum(RouteDistances(inst, Routes()), |trucks|)
    {
      ghost var routes := Routes();
      ghost var ds := RouteDistances(inst, routes);
      found := false;
      at := 0;
      var bestDistance := 0;
      for t := 0 to |trucks|
        invariant TrucksValid() && Routes() == routes
        invariant found <==> t > 0
        invariant found ==> at == FirstMinimum(ds, t) && bestDistance == ds[at]
      {
        var distance := DistanceOf(t);
        FirstMinimumStep(ds, t, at);
        if !found || distance < bestDistance {
          bestDistance := distance;
          found := true;
          at := t;
        }
      }
    }

    /** The distance travelled by truck t. */
    method DistanceOf(t: nat) returns (distance: int)
      requires TrucksValid() && t < |trucks|
      ensures TrucksValid() && Routes() == old(Routes())
      ensures distance == RouteDistances(inst, Routes())[t]
    {
      distance := trucks[t].GetDistanceTraveled();
    }

    /** One step of every truck for each row of moves, oldest row first. */
    method MoveAll(moves: seq<seq<Draws>>)
      requires Valid()
      requires forall r :: 0 <= r < |moves| ==> |moves[r]| == |trucks|
      requires forall r, k :: 0 <= r < |moves| && 0 <= k < |moves[r]| ==> PicksInRange(inst, moves[r][k].picks)
      modifies Repr
      ensures Valid() && unchanged(pheromones)
      ensures States() == Rounds(inst, pheromones, old(States()), moves)
    {
      ghost var before := States();
      for r := 0 to |moves|
        invariant Valid()
        invariant States() == Rounds(inst, pheromones, before, moves[..r])
      {
        assert moves[..r + 1][..r] == moves[..r];
        ghost var prev := States();
        MoveTrucks(moves[r]);
        assert forall k :: 0 <= k < |trucks| ==> States()[k] == StepAll(inst, pheromones, prev, moves[r])[k];
      }
      assert moves[..|moves|] == moves;
    }

    /** One generation of the solver: fresh trucks, one step per node for
      all of them, the pheromone update, and the best truck. */
    method Generation(moves: seq<seq<Draws>>) returns (best: Truck)
      requires Valid() && |moves| == inst.Size()
      requires forall r :: 0 <= r < |moves| ==> |moves[r]| == TruckCount(inst.Size())
      requires forall r, k :: 0 <= r < |moves| && 0 <= k < |moves[r]| ==> PicksInRange(inst, moves[r][k].picks)
      modifies this, pheromones
      ensures Valid() && pheromones == old(pheromones)
      ensures |trucks| == TruckCount(inst.Size())
      ensures forall a, b :: 0 <= a < inst.Size() && 0 <= b < inst.Size() ==>
        pheromones[a, b] == EVAPORATION_RATE * old(pheromones[a, b]) + Deposits(inst, Routes(), |trucks|, a, b)
      ensures States() == old(Bred(moves))
      ensures old(Positive()) ==> Positive()
      ensures best.inst == inst && best.Valid()
      ensures |trucks| > 0 && best == trucks[FirstMinimum(RouteDistances(inst, Routes()), |trucks|)]
    {
      ghost var expected := Bred(moves);
      Breed(moves);
      assert States() == expected;
      best := GetBest();
    }

    /** The part of a generation before the best truck is picked: fresh
      trucks, the move rounds and the pheromone update. */
    method Breed(moves: seq<seq<Draws>>)
      requires Valid() && |moves| == inst.Size()
      requires forall r :: 0 <= r < |moves| ==> |moves[r]| == TruckCount(inst.Size())
      requires forall r, k :: 0 <= r < |moves| && 0 <= k < |moves[r]| ==> PicksInRange(inst, moves[r][k].picks)
      modifies this, pheromones
      ensures Valid() && pheromones == old(pheromones)
      ensures |trucks| == TruckCount(inst.Size())
      ensures forall a, b :: 0 <= a < inst.Size() && 0 <= b < inst.Size() ==>
        pheromones[a, b] == EVAPORATION_RATE * old(pheromones[a, b]) + Deposits(inst, Routes(), |trucks|, a, b)
      ensures States() == old(Bred(moves))
      ensures old(Positive()) ==> Positive()
    {
      ghost var expected := Bred(moves);
      Populate(moves);
      assert States() == expected;
      UpdatePheromones();
    }

    /** Fresh trucks and the move rounds of a generation; the pheromone
      matrix is untouched. */
    method Populate(moves: seq<seq<Draws>>)
      requires Valid()
      requires forall r :: 0 <= r < |moves| ==> |moves[r]| == TruckCount(inst.Size())
      requires forall r, k :: 0 <= r < |moves| && 0 <= k < |moves[r]| ==> PicksInRange(inst, moves[r][k].picks)
      modifies this
      ensures Valid() && pheromones == old(pheromones) && unchanged(pheromones)
      ensures |trucks| == TruckCount(inst.Size())
      ensures States() == Bred(moves)
    {
      SetupTrucks();
      assert States() == Starts(inst, TruckCount(inst.Size()));
      MoveAll(moves);
    }
  }
}
