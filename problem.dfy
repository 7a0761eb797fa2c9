/** The problem instance of the capacitated vehicle routing solver and the
    tuning constants of the ant colony. Node 0 is the home depot; the other
    nodes are the depots whose loads the trucks collect. */
module Problem {

  /** Marks in a truck's visited-depots table. */
  const NOT_VISITED: int := 0
  const VISITED: int := 1

  /** Probability that a truck picks its next depot at random. */
  const RANDOM_DEPOT_FACTOR: real := 0.1

  /** Random picks a truck tries before it goes home. */
  const MAX_TRIES: nat := 10

  /** Exponents of the pheromone and inverse-distance terms of a weight. */
  const ALPHA: nat := 1
  const BETA: nat := 2

  /** Share of the pheromone kept by each update. */
  const EVAPORATION_RATE: real := 0.4

  /** Scale of a route's pheromone deposit (deposit = DEPOSIT_SCALE / distance). */
  const DEPOSIT_SCALE: real := 1000.0

  /** An instance: a distance table, the load waiting at each node and the
      most a truck may carry between two visits home (15 in the reference
      instance). */
  datatype Instance = Instance(dist: seq<seq<int>>, loads: seq<int>, maxLoad: int)
  {
    /** Number of nodes, the length of the load table. */
    function Size(): nat { |loads| }

    /** The distance table is square, symmetric, zero on the diagonal and
        positive elsewhere; the home depot carries no load; every load is
        non-negative and fits in an empty truck. */
    ghost predicate Valid() {
      |loads| >= 1 && |dist| == |loads| &&
      (forall i :: 0 <= i < |dist| ==> |dist[i]| == |dist|) &&
      (forall i, j :: 0 <= i < |dist| && 0 <= j < |dist| ==> dist[i][j] == dist[j][i]) &&
      (forall i :: 0 <= i < |dist| ==> dist[i][i] == 0) &&
      (forall i, j :: 0 <= i < |dist| && 0 <= j < |dist| && i != j ==> dist[i][j] > 0) &&
      loads[0] == 0 &&
      (forall i :: 0 <= i < |loads| ==> 0 <= loads[i] <= maxLoad)
    }
  }

  /** Number of trucks per generation: the source rounds half the node count
      to the nearest integer, halves rounding up. */
  function TruckCount(n: nat): (c: nat)
    ensures n <= 2 * c <= n + 1
  {
    (n + 1) / 2
  }

  /** x raised to the power e. */
  function Power(x: real, e: nat): real
  {
    if e == 0 then 1.0 else x * Power(x, e - 1)
  }
}
