/** A truck (ant) of the colony: the object whose route, visited-depots
    table and load its moves update in place, and the two kinds of move it
    makes, random and probabilistic. The random numbers a move consumes are
    passed in. */
module Trucks {
  import opened Problem
  import opened Route
  import opened Wheel

  /** The random numbers one call of VisitDepot may consume: the coin that
      chooses between a random and a probabilistic move, the node indices
      the random move tries, in order, and the draw of the roulette wheel. */
  datatype Draws = Draws(coin: real, picks: seq<int>, wheel: real)

  /** The random move has MAX_TRIES node indices to try, each a node. */
  predicate PicksInRange(inst: Instance, picks: seq<int>) {
    |picks| >= MAX_TRIES && forall k :: 0 <= k < MAX_TRIES ==> 0 <= picks[k] < inst.Size()
  }

  /** Index of the first pick at or after tries whose move is accepted,
      or MAX_TRIES when none is. */
  function FirstAccepted(inst: Instance, s: TruckState, picks: seq<int>, tries: nat): (k: nat)
    requires |s.route| > 0 && PicksInRange(inst, picks) && tries <= MAX_TRIES
    ensures tries <= k <= MAX_TRIES
    ensures k < MAX_TRIES ==> Accepts(inst, s, picks[k])
    ensures forall j :: tries <= j < k ==> !Accepts(inst, s, picks[j])
    decreases MAX_TRIES - tries
  {
    if tries == MAX_TRIES then MAX_TRIES
    else if Accepts(inst, s, picks[tries]) then tries
    else FirstAccepted(inst, s, picks, tries + 1)
  }

  /** The random move: the first acceptable pick, or home when none of the
      MAX_TRIES picks is acceptable. */
  function RandomMove(inst: Instance, s: TruckState, picks: seq<int>): (t: TruckState)
    requires |s.route| > 0 && |s.visited| == inst.Size() && PicksInRange(inst, picks)
    ensures FirstAccepted(inst, s, picks, 0) < MAX_TRIES ==> |t.route| == |s.route| + 1
    ensures |s.route| <= |t.route| <= |s.route| + 1 && t.route[..|s.route|] == s.route
  {
    var k := FirstAccepted(inst, s, picks, 0);
    if k < MAX_TRIES then AfterAddDepot(inst, s, picks[k]) else AfterAddDepot(inst, s, 0)
  }

  /** The probabilistic move: a move to the node the roulette wheel picks. */
  function ProbabilisticMove(inst: Instance, pher: array2<real>, s: TruckState, draw: real): (t: TruckState)
    reads pher
    requires Inv(inst, s) && pher.Length0 == inst.Size() && pher.Length1 == inst.Size()
    ensures Candidates(inst, s) != [] ==> |t.route| == |s.route| + 1 && Last(t.route) in Candidates(inst, s)
    ensures |s.route| <= |t.route| <= |s.route| + 1 && t.route[..|s.route|] == s.route
  {
    AfterAddDepot(inst, s, ProbabilisticChoice(inst, pher, s, draw))
  }

  /** One step of a truck: home once every node is visited, otherwise a
      random move when the coin falls below RANDOM_DEPOT_FACTOR and a
      probabilistic move when it does not. */
  function Step(inst: Instance, pher: array2<real>, s: TruckState, d: Draws): (t: TruckState)
    reads pher
    requires Inv(inst, s) && pher.Length0 == inst.Size() && pher.Length1 == inst.Size()
    requires PicksInRange(inst, d.picks)
    ensures |s.route| <= |t.route| <= |s.route| + 1 && t.route[..|s.route|] == s.route
    ensures |t.visited| == |s.visited|
  {
    if AllVisited(s.visited) then AfterAddDepot(inst, s, 0)
    else if d.coin < RANDOM_DEPOT_FACTOR then RandomMove(inst, s, d.picks)
    else ProbabilisticMove(inst, pher, s, d.wheel)
  }

  // ---------------------------------------------------------------------------
  // Lemmas about the moves

  /** Every step keeps the truck invariant. */
  lemma StepKeepsInv(inst: Instance, pher: array2<real>, s: TruckState, d: Draws)
    requires Inv(inst, s) && pher.Length0 == inst.Size() && pher.Length1 == inst.Size()
    requires PicksInRange(inst, d.picks)
    ensures Inv(inst, Step(inst, pher, s, d))
  {
    if AllVisited(s.visited) {
      AddDepotKeepsInv(inst, s, 0);
    } else if d.coin < RANDOM_DEPOT_FACTOR {
      var k := FirstAccepted(inst, s, d.picks, 0);
      AddDepotKeepsInv(inst, s, if k < MAX_TRIES then d.picks[k] else 0);
    } else {
      AddDepotKeepsInv(inst, s, ProbabilisticChoice(inst, pher, s, d.wheel));
    }
  }

  /** A probabilistic move by a truck that is not done always extends the
      route by one node: a candidate when there is one, and otherwise home,
      where the truck cannot already be. */
  lemma ProbabilisticMoveProgresses(inst: Instance, pher: array2<real>, s: TruckState, draw: real)
    requires Inv(inst, s) && pher.Length0 == inst.Size() && pher.Length1 == inst.Size()
    requires !AllVisited(s.visited)
    ensures |ProbabilisticMove(inst, pher, s, draw).route| == |s.route| + 1
  {
    var d := ProbabilisticChoice(inst, pher, s, draw);
    if d == 0 {
      if Last(s.route) == 0 {
        HomeHasCandidates(inst, s);
      }
    }
  }

  /** A truck that is done and at home stays where it is. */
  lemma DoneAtHomeStays(inst: Instance, pher: array2<real>, s: TruckState, d: Draws)
    requires Inv(inst, s) && pher.Length0 == inst.Size() && pher.Length1 == inst.Size()
    requires PicksInRange(inst, d.picks)
    requires AllVisited(s.visited) && Last(s.route) == 0
    ensures Step(inst, pher, s, d) == s
  {
  }

  /** One round of move_trucks on the states of all trucks: each one takes
      a Step with its own draws. */
  function StepAll(inst: Instance, pher: array2<real>, ss: seq<TruckState>, row: seq<Draws>): (ts: seq<TruckState>)
    reads pher
    requires pher.Length0 == inst.Size() && pher.Length1 == inst.Size() && |row| == |ss|
    requires forall k :: 0 <= k < |ss| ==> Inv(inst, ss[k]) && PicksInRange(inst, row[k].picks)
    ensures |ts| == |ss|
    ensures forall k :: 0 <= k < |ss| ==> ts[k] == Step(inst, pher, ss[k], row[k]) && Inv(inst, ts[k])
  {
    StepsKeepInv(inst, pher, ss, row);
    seq(|ss|, k requires 0 <= k < |ss| reads pher => Step(inst, pher, ss[k], row[k]))
  }

  /** Every truck's step in a round keeps its invariant. */
  lemma StepsKeepInv(inst: Instance, pher: array2<real>, ss: seq<TruckState>, row: seq<Draws>)
    requires pher.Length0 == inst.Size() && pher.Length1 == inst.Size() && |row| == |ss|
    requires forall k :: 0 <= k < |ss| ==> Inv(inst, ss[k]) && PicksInRange(inst, row[k].picks)
    ensures forall k :: 0 <= k < |ss| ==> Inv(inst, Step(inst, pher, ss[k], row[k]))
  {
    forall k | 0 <= k < |ss| {
      StepKeepsInv(inst, pher, ss[k], row[k]);
    }
  }

  /** The rounds of move_trucks, one per row of draws, oldest row first. */
  function Rounds(inst: Instance, pher: array2<real>, ss: seq<TruckState>, moves: seq<seq<Draws>>): (ts: seq<TruckState>)
    reads pher
    requires pher.Length0 == inst.Size() && pher.Length1 == inst.Size()
    requires forall k :: 0 <= k < |ss| ==> Inv(inst, ss[k])
    requires forall r :: 0 <= r < |moves| ==> |moves[r]| == |ss|
    requires forall r, k :: 0 <= r < |moves| && 0 <= k < |moves[r]| ==> PicksInRange(inst, moves[r][k].picks)
    ensures |ts| == |ss|
    ensures forall k :: 0 <= k < |ss| ==> Inv(inst, ts[k])
    ensures forall k :: 0 <= k < |ss| ==>
      |ss[k].route| <= |ts[k].route| <= |ss[k].route| + |moves| && ts[k].route[..|ss[k].route|] == ss[k].route
    decreases |moves|
  {
    if |moves| == 0 then ss
    else
      var prev := Rounds(inst, pher, ss, moves[..|moves| - 1]);
      var ts := StepAll(inst, pher, prev, moves[|moves| - 1]);
      PrefixesCompose(ss, prev, ts, |moves| - 1);
      ts
  }

  /** Routes that extend routes that extend ss extend ss. */
  lemma PrefixesCompose(ss: seq<TruckState>, prev: seq<TruckState>, ts: seq<TruckState>, r: nat)
    requires |ss| == |prev| == |ts|
    requires forall k :: 0 <= k < |ss| ==>
      |ss[k].route| <= |prev[k].route| <= |ss[k].route| + r && prev[k].route[..|ss[k].route|] == ss[k].route
    requires forall k :: 0 <= k < |ss| ==>
      |prev[k].route| <= |ts[k].route| <= |prev[k].route| + 1 && ts[k].route[..|prev[k].route|] == prev[k].route
    ensures forall k :: 0 <= k < |ss| ==>
      |ss[k].route| <= |ts[k].route| <= |ss[k].route| + r + 1 && ts[k].route[..|ss[k].route|] == ss[k].route
  {
    forall k | 0 <= k < |ss|
      ensures ts[k].route[..|ss[k].route|] == ss[k].route
    {
      assert ts[k].route[..|ss[k].route|] == ts[k].route[..|prev[k].route|][..|ss[k].route|];
    }
  }

  /** The states of count new trucks. */
  function Starts(inst: Instance, count: nat): (ss: seq<TruckState>)
    requires inst.Valid()
    ensures |ss| == count && forall k :: 0 <= k < count ==> ss[k] == Start(inst) && Inv(inst, ss[k])
  {
    StartInv(inst);
    seq(count, _ => Start(inst))
  }

  /** After r rounds every new truck's route starts at home and has at
      most r + 1 nodes. */
  lemma RoundsFromStart(inst: Instance, pher: array2<real>, count: nat, moves: seq<seq<Draws>>)
    requires inst.Valid() && pher.Length0 == inst.Size() && pher.Length1 == inst.Size()
    requires forall r :: 0 <= r < |moves| ==> |moves[r]| == count
    requires forall r, k :: 0 <= r < |moves| && 0 <= k < |moves[r]| ==> PicksInRange(inst, moves[r][k].picks)
    ensures forall k :: 0 <= k < count ==>
      var t := Rounds(inst, pher, Starts(inst, count), moves)[k];
      1 <= |t.route| <= |moves| + 1 && t.route[0] == 0
  {
    var ss := Starts(inst, count);
    var ts := Rounds(inst, pher, ss, moves);
    forall k | 0 <= k < count
      ensures 1 <= |ts[k].route| <= |moves| + 1 && ts[k].route[0] == 0
    {
      assert ss[k].route == [0];
      assert ts[k].route[..1] == [0];
    }
  }

  /** The truck (ant) object. */
  class Truck {
    /** The instance the truck drives on. */
    const inst: Instance
    /** Route travelled so far. */
    var route: seq<int>
    /** VISITED or NOT_VISITED for each node. */
    const visited: array<int>
    /** Load carried since the last visit home. */
    var load: int

    /** The truck's fields as a value. */
    ghost function State(): TruckState
      reads this, visited
    {
      TruckState(route, visited[..], load)
    }

    ghost predicate Valid()
      reads this, visited
    {
      Inv(inst, State())
    }

    /** A truck at home, with only the home depot marked and nothing loaded. */
    constructor(inst: Instance)
      requires inst.Valid()
      ensures Valid() && this.inst == inst && fresh(visited)
      ensures State() == Start(inst)
    {
      this.inst := inst;
      load := 0;
      var v := new int[inst.Size()](_ => NOT_VISITED);
      v[0] := VISITED;
      visited := v;
      route := [0];
      new;
      assert visited[..] == Start(inst).visited;
      StartInv(inst);
    }

    /** Whether every node is marked visited. */
    method DoneRoute() returns (done: bool)
      requires Valid()
      ensures done <==> AllVisited(visited[..])
      ensures done <==> forall i :: 0 <= i < inst.Size() ==> i in route
    {
      DoneIffAllOnRoute(inst, State());
      for i := 0 to visited.Length
        invariant forall j :: 0 <= j < i ==> visited[j] != NOT_VISITED
      {
        if visited[i] == NOT_VISITED {
          return false;
        }
      }
      return true;
    }

    /** Length of the route travelled so far. */
    method GetDistanceTraveled() returns (distance: int)
      requires Valid()
      ensures distance == RouteDistance(inst, route)
      ensures |route| == 1 ==> distance == 0
      ensures |route| > 1 ==> distance > 0
    {
      distance := 0;
      for i := 1 to |route|
        invariant distance == RouteDistance(inst, route[..i])
      {
        assert route[..i + 1][..i] == route[..i];
        distance := distance + inst.dist[route[i - 1]][route[i]];
      }
      assert route[..|route|] == route;
      DistanceOfTruck(inst, State());
    }

    /** Try to move to node num; report whether the move was accepted. */
    method AddDepot(num: int) returns (accepted: bool)
      requires Valid() && 0 <= num < inst.Size()
      modifies this, visited
      ensures Valid()
      ensures accepted == Accepts(inst, old(State()), num)
      ensures State() == AfterAddDepot(inst, old(State()), num)
    {
      ghost var s := State();
      var newLoad := inst.loads[num];
      if num == route[|route| - 1] {
        accepted := false;
      } else if num == 0 {
        route := route + [0];
        visited[0] := VISITED;
        load := 0;
        accepted := true;
      } else {
        if load + newLoad > inst.maxLoad {
          accepted := false;
        } else if num in route {
          accepted := false;
        } else {
          load := load + newLoad;
          visited[num] := VISITED;
          route := route + [num];
          accepted := true;
        }
      }
      AddDepotKeepsInv(inst, s, num);
    }

    /** One step: home when done, otherwise a random or a probabilistic
      move as the coin decides. */
    method VisitDepot(pher: array2<real>, d: Draws)
      requires Valid() && pher.Length0 == inst.Size() && pher.Length1 == inst.Size()
      requires PicksInRange(inst, d.picks)
      modifies this, visited
      ensures Valid()
      ensures State() == Step(inst, pher, old(State()), d)
    {
      var done := DoneRoute();
      if !done {
        if d.coin < RANDOM_DEPOT_FACTOR {
          VisitRandomDepot(d.picks);
        } else {
          VisitProbabilisticDepot(pher, d.wheel);
        }
      } else {
        var _ := AddDepot(0);
      }
    }

    /** Up to MAX_TRIES random picks; home if none is accepted. */
    method VisitRandomDepot(picks: seq<int>)
      requires Valid() && PicksInRange(inst, picks)
      modifies this, visited
      ensures Valid()
      ensures State() == RandomMove(inst, old(State()), picks)
    {
      ghost var s := State();
      var done, numTries := TryPicks(picks);
      if !done {
        var _ := AddDepot(0);
      }
    }

    /** The loop of the random move: picks in order until one is accepted
      or MAX_TRIES are refused; numTries counts the picks tried. */
    method TryPicks(picks: seq<int>) returns (done: bool, numTries: nat)
      requires Valid() && PicksInRange(inst, picks)
      modifies this, visited
      ensures Valid()
      ensures done <==> FirstAccepted(inst, old(State()), picks, 0) < MAX_TRIES
      ensures done ==> numTries == FirstAccepted(inst, old(State()), picks, 0) + 1
      ensures done ==> State() == AfterAddDepot(inst, old(State()), picks[numTries - 1])
      ensures !done ==> State() == old(State())
    {
      ghost var s := State();
      done := false;
      numTries := 0;
      while !done && numTries < MAX_TRIES
        invariant Valid()
        invariant 0 <= numTries <= MAX_TRIES
        invariant !done ==> State() == s && FirstAccepted(inst, s, picks, 0) == FirstAccepted(inst, s, picks, numTries)
        invariant done ==> numTries > 0 && FirstAccepted(inst, s, picks, 0) == numTries - 1
        invariant done ==> State() == AfterAddDepot(inst, s, picks[numTries - 1])
      {
        var depot := picks[numTries];
        done := AddDepot(depot);
        numTries := numTries + 1;
      }
    }

    /** A move to the node the roulette wheel picks. */
    method VisitProbabilisticDepot(pher: array2<real>, draw: real)
      requires Valid() && pher.Length0 == inst.Size() && pher.Length1 == inst.Size()
      modifies this, visited
      ensures Valid()
      ensures State() == ProbabilisticMove(inst, pher, old(State()), draw)
    {
      ghost var s := State();
      var depot := RouletteWheelSelection(pher, draw);
      assert depot == ProbabilisticChoice(inst, pher, s, draw);
      var _ := AddDepot(depot);
      assert unchanged(pher);
      assert State() == AfterAddDepot(inst, s, depot);
    }

    /** The node the roulette wheel picks for the given draw. */
    method RouletteWheelSelection(pher: array2<real>, draw: real) returns (depot: int)
      requires Valid() && pher.Length0 == inst.Size() && pher.Length1 == inst.Size()
      ensures depot == ProbabilisticChoice(inst, pher, State(), draw)
      ensures 0 <= depot < inst.Size()
      ensures depot == 0 <==> Candidates(inst, State()) == []
      ensures depot != 0 ==> Accepts(inst, State(), depot)
    {
      var probs := GetDepotProbs(pher);
      depot := SpinWheel(probs, draw);
    }

    /** The roulette list: the candidates with their normalised weights. */
    method GetDepotProbs(pher: array2<real>) returns (probs: seq<DepotProb>)
      requires Valid() && pher.Length0 == inst.Size() && pher.Length1 == inst.Size()
      ensures probs == DepotProbs(inst, pher, State())
    {
      var currentDepot := route[|route| - 1];
      var possible: seq<int> := [];
      for i := 0 to visited.Length
        invariant possible == CandidatesUpTo(inst, visited[..], load, i)
      {
        if visited[i] == NOT_VISITED && load + inst.loads[i] <= inst.maxLoad {
          possible := possible + [i];
        }
      }
      assert possible == Candidates(inst, State());
      CandidatesAvoidCurrent(inst, State());
      if |possible| == 0 {
        probs := [DepotProb(0, 1.0)];
      } else {
        var weights, total := WeighCandidates(inst, pher, currentDepot, possible);
        probs := NormalizeWeights(possible, weights, total);
      }
    }
  }
}
