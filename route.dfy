/** The route a truck (ant) builds, as a value: the acceptance rule of a
    single move, the invariant every reachable state keeps, the candidate
    filter of the probabilistic move and the distance of a route. */
module Route {
  import opened Problem

  /** The three fields of a truck: the route so far, the visited-depots
      table and the load carried since the last visit home. */
  datatype TruckState = TruckState(route: seq<int>, visited: seq<int>, load: int)

  function Last(r: seq<int>): int
    requires |r| > 0
  {
    r[|r| - 1]
  }

  /** Every node of r is a node of an n-node instance. */
  predicate InRange(n: nat, r: seq<int>) {
    forall k :: 0 <= k < |r| ==> 0 <= r[k] < n
  }

  /** Load collected on the current leg: the loads of the nodes after the
      last 0 of r. */
  function LegLoad(loads: seq<int>, r: seq<int>): int
    requires InRange(|loads|, r)
  {
    if |r| == 0 || Last(r) == 0 then 0 else LegLoad(loads, r[..|r| - 1]) + loads[Last(r)]
  }

  /** Sum of the loads of all nodes of seg. */
  function SegmentLoad(loads: seq<int>, seg: seq<int>): int
    requires InRange(|loads|, seg)
  {
    if |seg| == 0 then 0 else SegmentLoad(loads, seg[..|seg| - 1]) + loads[Last(seg)]
  }

  /** No two consecutive nodes of r are equal. */
  predicate NoSelfLoops(r: seq<int>) {
    forall k :: 1 <= k < |r| ==> r[k - 1] != r[k]
  }

  /** Only the home depot occurs more than once in r. */
  predicate NoRevisits(r: seq<int>) {
    forall a, b :: 0 <= a < b < |r| && r[a] == r[b] ==> r[a] == 0
  }

  /** The visited-depots table holds only the two marks, and a node is
      marked visited exactly when it occurs in the route. */
  predicate VisitedAgrees(v: seq<int>, r: seq<int>) {
    forall i :: 0 <= i < |v| ==> (v[i] == VISITED || v[i] == NOT_VISITED) && (v[i] == VISITED <==> i in r)
  }

  /** Every prefix of r ends on a leg whose load fits in the truck. */
  ghost predicate LegsFit(inst: Instance, r: seq<int>)
    requires InRange(|inst.loads|, r)
  {
    forall k :: 1 <= k <= |r| ==> LegLoad(inst.loads, r[..k]) <= inst.maxLoad
  }

  /** The invariant of every truck state reachable from Start by AddDepot. */
  ghost predicate Inv(inst: Instance, s: TruckState) {
    inst.Valid() &&
    |s.visited| == inst.Size() &&
    |s.route| >= 1 && s.route[0] == 0 &&
    InRange(inst.Size(), s.route) &&
    NoSelfLoops(s.route) &&
    NoRevisits(s.route) &&
    VisitedAgrees(s.visited, s.route) &&
    s.load == LegLoad(inst.loads, s.route) &&
    LegsFit(inst, s.route)
  }

  /** A new truck: at home, only the home depot marked, empty. */
  function Start(inst: Instance): (t: TruckState)
    ensures t.route == [0] && t.load == 0 && |t.visited| == inst.Size()
    ensures forall i :: 0 <= i < inst.Size() ==> (t.visited[i] == VISITED <==> i == 0)
  {
    TruckState([0], seq(inst.Size(), i => if i == 0 then VISITED else NOT_VISITED), 0)
  }

  /** The acceptance rule of a move to node num. */
  predicate Accepts(inst: Instance, s: TruckState, num: int)
    requires |s.route| > 0 && 0 <= num < |inst.loads|
    ensures num == Last(s.route) ==> !Accepts(inst, s, num)
    ensures num == 0 && Last(s.route) != 0 ==> Accepts(inst, s, num)
    ensures Accepts(inst, s, num) && num != 0 ==> s.load + inst.loads[num] <= inst.maxLoad && num !in s.route
  {
    num != Last(s.route) &&
    (num == 0 || (s.load + inst.loads[num] <= inst.maxLoad && num !in s.route))
  }

  /** The state after a move to node num: the branches of the source in
      their order. */
  function AfterAddDepot(inst: Instance, s: TruckState, num: int): (t: TruckState)
    requires |s.route| > 0 && |s.visited| == inst.Size() && 0 <= num < inst.Size()
    ensures Accepts(inst, s, num) ==> t.route == s.route + [num]
    ensures !Accepts(inst, s, num) ==> t == s
    ensures |s.route| <= |t.route| <= |s.route| + 1 && t.route[..|s.route|] == s.route
    ensures |t.visited| == |s.visited|
  {
    if num == Last(s.route) then s
    else if num == 0 then TruckState(s.route + [0], s.visited[0 := VISITED], 0)
    else if s.load + inst.loads[num] > inst.maxLoad then s
    else if num in s.route then s
    else TruckState(s.route + [num], s.visited[num := VISITED], s.load + inst.loads[num])
  }

  /** Every node is marked in the visited-depots table. */
  predicate AllVisited(v: seq<int>) {
    forall i :: 0 <= i < |v| ==> v[i] != NOT_VISITED
  }

  /** Nodes below k that are not visited and whose load still fits, in
      increasing order. */
  function CandidatesUpTo(inst: Instance, v: seq<int>, load: int, k: nat): (c: seq<int>)
    requires |v| == |inst.loads| && k <= |v|
    ensures forall x :: x in c <==> 0 <= x < k && v[x] == NOT_VISITED && load + inst.loads[x] <= inst.maxLoad
    ensures forall a, b :: 0 <= a < b < |c| ==> c[a] < c[b]
    ensures forall a :: 0 <= a < |c| ==> c[a] < k
  {
    if k == 0 then []
    else
      var c := CandidatesUpTo(inst, v, load, k - 1);
      if v[k - 1] == NOT_VISITED && load + inst.loads[k - 1] <= inst.maxLoad then c + [k - 1] else c
  }

  /** The candidate nodes of a probabilistic move. */
  function Candidates(inst: Instance, s: TruckState): (c: seq<int>)
    requires |s.visited| == |inst.loads|
    ensures forall x :: x in c <==> 0 <= x < |s.visited| && s.visited[x] == NOT_VISITED && s.load + inst.loads[x] <= inst.maxLoad
    ensures forall a, b :: 0 <= a < b < |c| ==> c[a] < c[b]
  {
    CandidatesUpTo(inst, s.visited, s.load, |s.visited|)
  }

  /** Length of a route: the distances between its consecutive nodes. */
  function RouteDistance(inst: Instance, r: seq<int>): (d: int)
    requires inst.Valid() && InRange(inst.Size(), r)
    ensures d >= 0
    ensures |r| >= 2 && r[0] != r[1] ==> d > 0
  {
    if |r| < 2 then 0
    else RouteDistance(inst, r[..|r| - 1]) + inst.dist[r[|r| - 2]][Last(r)]
  }

  // ---------------------------------------------------------------------------
  // Lemmas

  /** The load of a leg is never negative. */
  lemma {:induction false} LegLoadNonNegative(inst: Instance, r: seq<int>)
    requires inst.Valid() && InRange(inst.Size(), r)
    ensures LegLoad(inst.loads, r) >= 0
  {
    if |r| > 0 && Last(r) != 0 {
      LegLoadNonNegative(inst, r[..|r| - 1]);
    }
  }

  /** A new truck satisfies the invariant. */
  lemma StartInv(inst: Instance)
    requires inst.Valid()
    ensures Inv(inst, Start(inst))
  {
    var r := Start(inst).route;
    assert r[..1] == r;
  }

  /** Every move, accepted or not, keeps the invariant. */
  lemma AddDepotKeepsInv(inst: Instance, s: TruckState, num: int)
    requires Inv(inst, s) && 0 <= num < inst.Size()
    ensures Inv(inst, AfterAddDepot(inst, s, num))
  {
    if Accepts(inst, s, num) {
      var r, r' := s.route, s.route + [num];
      assert r'[..|r'| - 1] == r;
      assert LegLoad(inst.loads, r') == if num == 0 then 0 else s.load + inst.loads[num];
      NoRevisitsSnoc(r, num);
      VisitedAgreesSnoc(s.visited, r, num);
      LegsFitSnoc(inst, r, num);
    }
  }

  lemma NoRevisitsSnoc(r: seq<int>, x: int)
    requires NoRevisits(r) && (x == 0 || x !in r)
    ensures NoRevisits(r + [x])
  {
    var r' := r + [x];
    forall a, b | 0 <= a < b < |r'| && r'[a] == r'[b] ensures r'[a] == 0 {
      if b == |r| {
        assert r'[a] == r[a];
      }
    }
  }

  lemma VisitedAgreesSnoc(v: seq<int>, r: seq<int>, x: int)
    requires VisitedAgrees(v, r) && 0 <= x < |v|
    ensures VisitedAgrees(v[x := VISITED], r + [x])
  {
    assert forall i :: i in r + [x] <==> i in r || i == x;
  }

  lemma LegsFitSnoc(inst: Instance, r: seq<int>, x: int)
    requires InRange(|inst.loads|, r) && 0 <= x < |inst.loads| && LegsFit(inst, r)
    requires InRange(|inst.loads|, r + [x]) && LegLoad(inst.loads, r + [x]) <= inst.maxLoad
    ensures LegsFit(inst, r + [x])
  {
    var r' := r + [x];
    forall k | 1 <= k <= |r'|
      ensures LegLoad(inst.loads, r'[..k]) <= inst.maxLoad
    {
      if k <= |r| {
        assert r'[..k] == r[..k];
      } else {
        assert r'[..k] == r';
      }
    }
  }

  /** The invariant keeps the load within the truck's capacity. */
  lemma LoadWithinCapacity(inst: Instance, s: TruckState)
    requires Inv(inst, s)
    ensures 0 <= s.load <= inst.maxLoad
  {
    assert s.route[..|s.route|] == s.route;
    LegLoadNonNegative(inst, s.route);
  }

  /** A stretch of a route that does not pass home weighs no more than the
      leg it ends on. */
  lemma {:induction false} SegmentWithinLeg(inst: Instance, r: seq<int>, i: nat, j: nat)
    requires inst.Valid() && InRange(inst.Size(), r)
    requires i <= j <= |r| && forall k :: i <= k < j ==> r[k] != 0
    ensures SegmentLoad(inst.loads, r[i..j]) <= LegLoad(inst.loads, r[..j])
  {
    if i == j {
      assert r[i..j] == [];
      LegLoadNonNegative(inst, r[..j]);
    } else {
      SegmentWithinLeg(inst, r, i, j - 1);
      assert r[i..j][..j - 1 - i] == r[i..j - 1];
      assert r[..j][..j - 1] == r[..j - 1];
    }
  }

  /** Capacity law: every stretch of the route between two visits home
      carries at most the truck's capacity. */
  lemma LegWithinCapacity(inst: Instance, s: TruckState, i: nat, j: nat)
    requires Inv(inst, s)
    requires i <= j <= |s.route| && forall k :: i <= k < j ==> s.route[k] != 0
    ensures SegmentLoad(inst.loads, s.route[i..j]) <= inst.maxLoad
  {
    SegmentWithinLeg(inst, s.route, i, j);
    if j == 0 {
      assert s.route[..j] == [];
    }
  }

  /** A move back to the node the truck is on is refused and changes nothing. */
  lemma RejectsSelfLoop(inst: Instance, s: TruckState)
    requires Inv(inst, s)
    ensures !Accepts(inst, s, Last(s.route))
    ensures AfterAddDepot(inst, s, Last(s.route)) == s
  {
  }

  /** Going home from a customer is always accepted, empties the truck and
      leaves the visited-depots table as it was. */
  lemma GoingHome(inst: Instance, s: TruckState)
    requires Inv(inst, s) && Last(s.route) != 0
    ensures AfterAddDepot(inst, s, 0) == TruckState(s.route + [0], s.visited, 0)
  {
    assert s.route[0] == 0;
    assert s.visited[0 := VISITED] == s.visited;
  }

  /** The move rule for a customer: refused exactly when the load does not
      fit, or the node is already on the route (which covers the self-loop
      case); the visited-depots table tells the same as the route. */
  lemma CustomerRule(inst: Instance, s: TruckState, num: int)
    requires Inv(inst, s) && 0 < num < inst.Size()
    ensures Accepts(inst, s, num) <==> s.load + inst.loads[num] <= inst.maxLoad && num !in s.route
    ensures num in s.route <==> s.visited[num] == VISITED
  {
    assert s.route[|s.route| - 1] in s.route;
  }

  /** A truck is done exactly when every node is on its route. */
  lemma DoneIffAllOnRoute(inst: Instance, s: TruckState)
    requires Inv(inst, s)
    ensures AllVisited(s.visited) <==> forall i :: 0 <= i < inst.Size() ==> i in s.route
  {
    if AllVisited(s.visited) {
      forall i | 0 <= i < inst.Size() ensures i in s.route {
        assert s.visited[i] == VISITED;
      }
    }
  }

  /** The candidate filter agrees with the acceptance rule: a non-depot
      node is a candidate exactly when the move to it is accepted, and the
      home depot is never a candidate. */
  lemma CandidatesAccepted(inst: Instance, s: TruckState)
    requires Inv(inst, s)
    ensures 0 !in Candidates(inst, s)
    ensures forall c :: 0 < c < inst.Size() ==> (c in Candidates(inst, s) <==> Accepts(inst, s, c))
  {
    assert s.visited[0] == VISITED by { assert s.route[0] == 0; }
    forall c | 0 < c < inst.Size()
      ensures c in Candidates(inst, s) <==> Accepts(inst, s, c)
    {
      CustomerRule(inst, s, c);
    }
  }

  /** Candidates are customers other than the node the truck is on, so
      the distance to each of them is positive. */
  lemma CandidatesAvoidCurrent(inst: Instance, s: TruckState)
    requires Inv(inst, s)
    ensures forall k :: 0 <= k < |Candidates(inst, s)| ==>
      0 < Candidates(inst, s)[k] < inst.Size() && Candidates(inst, s)[k] != Last(s.route)
  {
    var c := Candidates(inst, s);
    assert s.route[|s.route| - 1] in s.route;
    assert s.route[0] in s.route;
    forall k | 0 <= k < |c| ensures 0 < c[k] < inst.Size() && c[k] != Last(s.route) {
      assert c[k] in c;
    }
  }

  /** A truck at home that is not done always has a candidate, since an
      empty truck can take any load. */
  lemma HomeHasCandidates(inst: Instance, s: TruckState)
    requires Inv(inst, s) && Last(s.route) == 0 && !AllVisited(s.visited)
    ensures Candidates(inst, s) != []
  {
    var i :| 0 <= i < |s.visited| && s.visited[i] == NOT_VISITED;
    assert s.load == 0;
    assert i in Candidates(inst, s);
  }

  /** A one-node route has length 0; a longer route of a truck has positive
      length, because no node follows itself. */
  lemma DistanceOfTruck(inst: Instance, s: TruckState)
    requires Inv(inst, s)
    ensures |s.route| == 1 ==> RouteDistance(inst, s.route) == 0
    ensures |s.route| > 1 ==> RouteDistance(inst, s.route) > 0
  {
  }
}
