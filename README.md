# CVRP ant colony solver, modelled in Dafny

This project models the core of `CVRP_ACO.java`. That program solves the capacitated
vehicle routing problem with an ant colony. Node 0 is the home depot. The trucks
(the ants) start there and collect the loads of the other nodes. A truck never
carries more than `MAX_LOAD` between two visits home.

Each generation of the colony runs these steps:

1. Create `round(0.5 * n)` fresh trucks.
2. Move every truck once, `n` times over. A truck that is done goes home. Otherwise
   it moves to a random node with probability `RANDOM_DEPOT_FACTOR`, trying at most
   `MAX_TRIES` nodes. In the remaining case it spins a roulette wheel. The wheel
   weighs each candidate by pheromone^ALPHA times (1/distance)^BETA.
3. Evaporate the pheromone matrix by `EVAPORATION_RATE`.
4. Let every truck deposit `1000 / length` on each edge of its route.
5. Return the truck with the shortest route.

The model has five modules, one file each:

- `problem.dfy` (`Problem`): the constants of the solver and the problem `Instance`
  (distance table, loads, capacity).
- `route.dfy` (`Route`): a truck's fields as a value (`TruckState`). It also holds
  the acceptance rule of `add_depot` and its effect (`AfterAddDepot`), the invariant
  every reachable truck state keeps (`Inv`), the candidate filter of the
  probabilistic move, and the length of a route.
- `wheel.dfy` (`Wheel`): the roulette list (weights, totals, normalisation) and the
  roulette wheel, as loops proved against functions.
- `trucks.dfy` (`Trucks`): the class `Truck`, whose methods update its route,
  visited-depots array and load in place. Each method is proved equal to a pure
  function of the old state (`Step`, `RandomMove`, `ProbabilisticMove`). The random
  numbers a step consumes come in as a `Draws` value. `StepAll` and `Rounds` compose the steps of all trucks over the move rounds of a generation.
- `aco.dfy` (`Aco`): the class `Colony`, which holds the pheromone matrix as an
  `array2<real>` and the trucks of the generation. Its methods set up, move, update
  and select. Each one is specified by pure functions over the routes: `Deposits`,
  `RouteDistances` and `FirstMinimum`. `Positive` says every edge carries pheromone: `SetupPheromones` establishes it and every generation keeps it, so `WheelsSumToOne` applies to every probabilistic move of `solve`.

## Model

| member | source | states |
|---|---|---|
| Problem.TruckCount | CVRP_ACO.java:89 | the truck count is half the node count, rounded to the nearest integer with halves rounded up |
| Route.Start | CVRP_ACO.java:216-226 | a new truck's route is [0], its load is 0, its visited table has one entry per node and only node 0 is marked visited |
| Route.Accepts | CVRP_ACO.java:278-295 | a move to the current node is refused; going home from a customer is accepted; an accepted customer fits the capacity and is not yet on the route |
| Route.AfterAddDepot | CVRP_ACO.java:275-297 | an accepted move appends the node to the route; a refused move changes nothing |
| Route.CandidatesUpTo | CVRP_ACO.java:382-386 | after the first k nodes of the scan, a node is listed exactly when it is below k, unvisited and its load still fits; the list is increasing |
| Route.Candidates | CVRP_ACO.java:381-386 | a node is a candidate exactly when it is unvisited and its load fits; candidates come in increasing order |
| Route.RouteDistance | CVRP_ACO.java:260-267 | a route's length is never negative, and it is positive when the first edge joins two different nodes |
| Route.LegLoadNonNegative | CVRP_ACO.java:283-291 | the load gathered since the last visit home is never negative |
| Route.StartInv | CVRP_ACO.java:216-226 | a new truck (at home, only node 0 marked, load 0) satisfies the truck invariant |
| Route.AddDepotKeepsInv | CVRP_ACO.java:275-297 | every move keeps the invariant, accepted or refused: route starts at home, no self-loops, no customer visited twice, visited table agrees with the route, load is the current leg's load, every leg fits the capacity |
| Route.LoadWithinCapacity | CVRP_ACO.java:286-291 | the carried load always stays between 0 and the capacity |
| Route.LegWithinCapacity | CVRP_ACO.java:280-295 | any stretch of a route that does not pass home carries at most the capacity |
| Route.RejectsSelfLoop | CVRP_ACO.java:278-279 | a move to the node the truck is on is refused and leaves the state unchanged |
| Route.GoingHome | CVRP_ACO.java:280-284 | from a customer, going home is accepted, appends 0, empties the truck and leaves the visited table as it was |
| Route.CustomerRule | CVRP_ACO.java:285-295 | a move to a customer is accepted exactly when its load fits and it is not yet on the route; being on the route is the same as being marked visited |
| Route.DoneIffAllOnRoute | CVRP_ACO.java:245-253 | a truck is done exactly when every node lies on its route |
| Route.CandidatesAccepted | CVRP_ACO.java:382-386 | the home depot is never a candidate; a customer is a candidate exactly when add_depot would accept it |
| Route.CandidatesAvoidCurrent | CVRP_ACO.java:379-398 | every candidate is a customer other than the current node, so the distance it is weighed by is positive |
| Route.HomeHasCandidates | CVRP_ACO.java:382-389 | a truck at home that is not done always has a candidate |
| Route.DistanceOfTruck | CVRP_ACO.java:260-267 | a one-node route has length 0; a longer route of a valid truck has positive length |
| Wheel.FirstHitFrom | CVRP_ACO.java:354-363 | the first entry from i on whose probability exceeds what is left of the draw, with no earlier entry doing so |
| Wheel.SelectIndex | CVRP_ACO.java:354-366 | the wheel's entry is the first that catches the draw, or entry 0 when none does |
| Wheel.SpinWheel | CVRP_ACO.java:346-369 | the subtract-and-compare loop returns the node of SelectIndex |
| Wheel.Weights | CVRP_ACO.java:394-401 | one weight per candidate, each pheromone^ALPHA times (1/distance)^BETA |
| Wheel.WeightsSnoc | CVRP_ACO.java:394-401 | weighing one more candidate appends its weight |
| Wheel.NormalizeSnoc | CVRP_ACO.java:403-406 | normalising one more candidate appends its scaled weight |
| Wheel.Normalize | CVRP_ACO.java:403-406 | one entry per candidate, in order; each probability times the total is the candidate's weight; all probabilities are 0 when the total is 0 |
| Wheel.WeighCandidates | CVRP_ACO.java:391-401 | the weighing loop builds exactly Weights and keeps their running sum |
| Wheel.NormalizeWeights | CVRP_ACO.java:403-406 | the normalising loop builds each candidate paired with its weight divided by the total |
| Wheel.DepotProbs | CVRP_ACO.java:376-409 | the roulette list is the home depot with probability 1 when there are no candidates; otherwise it has one entry per candidate, in candidate order |
| Wheel.ProbabilisticChoice | CVRP_ACO.java:336-369 | the wheel picks home exactly when there is no candidate; otherwise it picks a candidate whose move add_depot accepts |
| Wheel.PowerPositive | CVRP_ACO.java:397-398 | a positive base raised to any power is positive |
| Wheel.SumPositive | CVRP_ACO.java:392-401 | a non-empty sum of positive weights is positive |
| Wheel.WeightsPositive | CVRP_ACO.java:394-401 | with positive pheromones every candidate weight is positive |
| Wheel.NormalizeSum | CVRP_ACO.java:403-406 | the normalised probabilities add up to the weight sum divided by the total |
| Wheel.NormalizedSumIsOne | CVRP_ACO.java:403-406 | positive weights divided by their own sum add up to 1 |
| Wheel.ProbsSumToOne | CVRP_ACO.java:376-409 | with positive pheromones the roulette list is a probability distribution (its probabilities sum to 1) |
| Wheel.WheelExample | CVRP_ACO.java:354-366 | on the list 0.5, 0.3, 0.2 the draws 0.1, 0.6 and 0.95 select the first, second and third entry |
| Trucks.FirstAccepted | CVRP_ACO.java:321-326 | the first of the picks that add_depot accepts, at most MAX_TRIES, with every earlier pick refused |
| Trucks.RandomMove | CVRP_ACO.java:317-331 | the random move keeps the route as a prefix and adds at most one node; when a pick is accepted it adds exactly one |
| Trucks.ProbabilisticMove | CVRP_ACO.java:336-339 | the route keeps its prefix and grows by at most one node; when there are candidates it grows by exactly one, a candidate |
| Trucks.Step | CVRP_ACO.java:302-312 | one step keeps the route as a prefix, adds at most one node and keeps the size of the visited table |
| Trucks.StepKeepsInv | CVRP_ACO.java:302-339 | every step of a truck (home, random or probabilistic) keeps the truck invariant |
| Trucks.ProbabilisticMoveProgresses | CVRP_ACO.java:336-339 | a probabilistic move by a truck that is not done always lengthens its route by one node |
| Trucks.DoneAtHomeStays | CVRP_ACO.java:309-311 | a truck that is done and at home stays unchanged |
| Trucks.Truck.constructor | CVRP_ACO.java:216-226 | a new truck is the Start state (route [0], only node 0 visited, load 0) and valid |
| Trucks.Truck.DoneRoute | CVRP_ACO.java:245-253 | true exactly when no node is NOT_VISITED, which is exactly when every node is on the route |
| Trucks.Truck.GetDistanceTraveled | CVRP_ACO.java:260-267 | the loop sums the route's edges to RouteDistance: 0 for the one-node route, positive otherwise |
| Trucks.Truck.AddDepot | CVRP_ACO.java:275-297 | the result is the acceptance rule and the new fields are AfterAddDepot of the old; the invariant is kept |
| Trucks.Truck.VisitDepot | CVRP_ACO.java:302-312 | the new state is Step of the old state and the draws |
| Trucks.Truck.VisitRandomDepot | CVRP_ACO.java:317-331 | the new state is the move to the first accepted pick among MAX_TRIES, or the move home when none is accepted |
| Trucks.Truck.TryPicks | CVRP_ACO.java:318-326 | the try loop succeeds exactly when one of the MAX_TRIES picks is accepted; it then stops after the first accepted pick, having made that move; otherwise the state is unchanged |
| Trucks.Truck.VisitProbabilisticDepot | CVRP_ACO.java:336-339 | the new state is the move to the node the roulette wheel picks |
| Trucks.Truck.RouletteWheelSelection | CVRP_ACO.java:346-369 | the node is ProbabilisticChoice: home exactly when there is no candidate, otherwise an accepted candidate |
| Trucks.Truck.GetDepotProbs | CVRP_ACO.java:376-409 | the filter, weighing and normalising loops build exactly DepotProbs of the truck's state |
| Aco.DepositOf | CVRP_ACO.java:107-109 | a truck that never left home deposits nothing; any other truck deposits a positive amount |
| Aco.RoutesOf | CVRP_ACO.java:106-113 | the routes of the trucks, one per truck in order, each with a defined deposit |
| Aco.TrucksDepositable | CVRP_ACO.java:107-109 | the deposit of every valid truck is defined (no division by a zero length) |
| Aco.RouteDistances | CVRP_ACO.java:151-152 | one length per route; entry k is the length of route k |
| Aco.EdgeCount | CVRP_ACO.java:110-112 | the count is zero exactly when the route never travels from a to b |
| Aco.RouteDeposit | CVRP_ACO.java:110-112 | what a route leaves on an edge is its amount times the number of times it travels that edge |
| Aco.Deposits | CVRP_ACO.java:106-113 | when no truck of the generation left home, no edge receives anything |
| Aco.FirstMinimum | CVRP_ACO.java:148-161 | the position of the first minimum of the distances: no entry is smaller and every earlier entry is larger |
| Aco.FirstMinimumStep | CVRP_ACO.java:153-156 | scanning one more truck moves the best truck there only when that truck is strictly shorter |
| Aco.FirstMinimumUnique | CVRP_ACO.java:148-161 | any position with the first-minimum property is FirstMinimum |
| Aco.RouteDepositNonNegative | CVRP_ACO.java:110-112 | a non-negative deposit leaves nothing negative on any edge |
| Aco.DepositsNonNegative | CVRP_ACO.java:106-113 | the deposits of the generation are never negative |
| Aco.UnusedEdgeGetsNothing | CVRP_ACO.java:106-113 | an edge no truck travels receives no deposit |
| Aco.RouteDepositSnoc | CVRP_ACO.java:110-112 | one more edge of the route adds the amount exactly when it is the edge in question |
| Aco.Colony.constructor | CVRP_ACO.java:64-71 | the colony starts with no trucks and a zero pheromone matrix of the instance's size |
| Aco.Colony.SetupPheromones | CVRP_ACO.java:76-83 | a fresh n-by-n matrix with 1 on every edge, so every edge carries pheromone; the trucks are untouched |
| Aco.Colony.WheelsSumToOne | CVRP_ACO.java:374-409 | while every edge carries pheromone, the roulette list of every truck sums to 1 |
| Aco.Colony.SetupTrucks | CVRP_ACO.java:88-94 | TruckCount(n) fresh, distinct trucks, each in the Start state; the pheromone matrix is untouched |
| Aco.Colony.NewTrucks | CVRP_ACO.java:89-93 | count fresh trucks, each valid, in the Start state and with its own visited-depots table |
| Aco.Colony.UpdatePheromones | CVRP_ACO.java:99-114 | every entry becomes EVAPORATION_RATE times its old value plus the deposits of the generation's routes; a matrix positive on every edge stays so; the trucks are untouched |
| Aco.Colony.Evaporate | CVRP_ACO.java:100-104 | every entry becomes EVAPORATION_RATE times its old value |
| Aco.Colony.DepositAll | CVRP_ACO.java:106-113 | every entry gains exactly the deposits of all trucks' routes; entries stay non-negative |
| Aco.Colony.DepositTruck | CVRP_ACO.java:107-112 | every entry gains exactly what truck t's route leaves on it; the routes are untouched |
| Aco.Colony.DepositValue | CVRP_ACO.java:107-109 | the deposit value is DepositOf the truck's route |
| Aco.Colony.DepositRoute | CVRP_ACO.java:110-112 | every entry gains the amount once for each time the route travels it |
| Aco.Colony.DoneRoutes | CVRP_ACO.java:130-140 | true exactly when every truck has every node marked visited |
| Trucks.StepAll | CVRP_ACO.java:119-123 | one round: each truck takes one Step with its own draws, and every new state keeps the truck invariant |
| Trucks.Rounds | CVRP_ACO.java:172-174 | the move rounds in order; every state keeps the truck invariant, and each route keeps its old route as a prefix and gains at most one node per round |
| Trucks.RoundsFromStart | CVRP_ACO.java:171-174 | after r rounds from fresh trucks every route starts at home and has between 1 and r + 1 nodes |
| Aco.Colony.MoveTrucks | CVRP_ACO.java:119-123 | every truck's new state is Step of its old state and its own draws; the colony invariant is kept |
| Aco.Colony.MoveTruck | CVRP_ACO.java:120-122 | truck t takes one Step and no other truck changes |
| Aco.Colony.GetBest | CVRP_ACO.java:148-161 | the first truck with the shortest route, or a fresh truck when there are none; the trucks are untouched |
| Aco.Colony.BestIndex | CVRP_ACO.java:151-158 | the scan finds a truck exactly when there is one, and then it finds the position FirstMinimum of the route lengths |
| Aco.Colony.DistanceOf | CVRP_ACO.java:152 | truck t's distance is entry t of the route lengths; the trucks are untouched |
| Aco.Colony.MoveAll | CVRP_ACO.java:172-174 | the rounds of move_trucks keep the colony invariant and leave the trucks in the states Rounds gives from their old states |
| Aco.Colony.Populate | CVRP_ACO.java:171-174 | fresh trucks and n move rounds: TruckCount(n) trucks whose states are Rounds of the start states; the matrix is untouched |
| Aco.Colony.Breed | CVRP_ACO.java:171-175 | fresh trucks, n move rounds and the pheromone update: TruckCount(n) trucks whose states are Bred, that is Rounds of the start states under the old matrix, every pheromone entry is EVAPORATION_RATE times its old value plus the deposits of the new routes, and a positive matrix stays positive |
| Aco.Colony.Generation | CVRP_ACO.java:170-177 | one iteration of solve keeps the colony invariant, ends with TruckCount(n) trucks, leaves the trucks in the states Bred gives (Rounds of the start states under the old matrix), sets every pheromone entry to EVAPORATION_RATE times its old value plus the deposits of the generation's routes, keeps a positive matrix positive, and returns the first truck with the shortest route |

## Left out

- `Math.random` becomes parameters. Each step of a truck takes a `Draws` value: the coin, the node indices of the random move, and the wheel draw. The model says nothing about their distribution.
- Doubles are modelled as exact reals. Rounding in the weights, the normalisation and the wheel subtraction is not modelled.
- A zero weight total gives NaN probabilities in the source. The model uses probability 0.0 there. Both make the wheel fall back to the first entry for a draw in [0, 1).
- `int` is unbounded in the model. Overflow of a route length or of a load in 32-bit arithmetic is not modelled.
- The concrete distance table, load table and `MAX_LOAD = 15` are instance parameters. `Instance.Valid` states what the model assumes of them: square, symmetric, zero diagonal, otherwise positive, no load at home, each load within capacity. The 17-node reference tables are not part of this model.
- `solve` repeats a generation `TOTAL_ITERATIONS` (1000) times and then prints. Only one generation is modelled (`Aco.Colony.Generation`). The outer loop, the printing, `main` and `Truck.toString` are left out as I/O.
- The source keeps the pheromone matrix and the trucks in static fields that are null before setup. The colony object holds them instead, and it starts with a zero matrix and no trucks.
- `Aco.Colony.GetBest`: the source starts from `(int) Double.POSITIVE_INFINITY`, which is `Integer.MAX_VALUE`. The model takes the first truck unconditionally. The two agree as long as every route is shorter than 2^31 - 1.
- The source does the `get_best` scan, the deposit of each truck and the deposit loop in line. The model splits these, and the try loop of `visit_random_depot`, the setup loop of `setup_trucks` and the first half of a generation, into helper methods (`BestIndex`, `DistanceOf`, `TryPicks`, `NewTrucks`, `Populate`, `Breed`, `DepositTruck`, `DepositValue`, `DepositRoute`, `Evaporate`, `DepositAll`, `MoveTruck`). In the source the fresh best truck is allocated before the scan; here it is allocated only when there is no truck. No caller can tell the difference.
