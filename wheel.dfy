/** The probabilistic move of a truck: candidate weights from pheromone
    and distance, their normalisation into a probability list, and the
    roulette wheel that picks one entry of that list for a given draw. */
module Wheel {
  import opened Problem
  import opened Route

  /** One entry of the roulette wheel: a node and its probability. */
  datatype DepotProb = DepotProb(idx: int, prob: real)

  function SumReals(s: seq<real>): real {
    if |s| == 0 then 0.0 else SumReals(s[..|s| - 1]) + s[|s| - 1]
  }

  /** Appending x adds x to the sum. */
  lemma SumRealsSnoc(s: seq<real>, x: real)
    ensures SumReals(s + [x]) == SumReals(s) + x
  {
    assert (s + [x])[..|s|] == s;
  }

  /** Sum of the probabilities of the entries of ps. */
  function ProbSum(ps: seq<DepotProb>): real {
    if |ps| == 0 then 0.0 else ProbSum(ps[..|ps| - 1]) + ps[|ps| - 1].prob
  }

  /** Entry i catches the draw: what is left of the draw once the entries
      before i are subtracted is below the probability of entry i. */
  predicate Hit(ps: seq<DepotProb>, draw: real, i: nat)
    requires i < |ps|
  {
    draw - ProbSum(ps[..i]) < ps[i].prob
  }

  /** The first entry at or after i that catches the draw, or |ps| if none. */
  function FirstHitFrom(ps: seq<DepotProb>, draw: real, i: nat): (k: nat)
    requires i <= |ps|
    ensures i <= k <= |ps|
    ensures k < |ps| ==> Hit(ps, draw, k)
    ensures forall j :: i <= j < k ==> !Hit(ps, draw, j)
    decreases |ps| - i
  {
    if i == |ps| then |ps|
    else if Hit(ps, draw, i) then i
    else FirstHitFrom(ps, draw, i + 1)
  }

  /** The entry the roulette wheel selects: the first entry that catches
      the draw, otherwise the first entry. */
  function SelectIndex(ps: seq<DepotProb>, draw: real): (k: nat)
    requires |ps| > 0
    ensures k < |ps|
    ensures forall j :: 0 <= j < k ==> !Hit(ps, draw, j)
    ensures Hit(ps, draw, k) || (k == 0 && forall j :: 0 <= j < |ps| ==> !Hit(ps, draw, j))
  {
    var h := FirstHitFrom(ps, draw, 0);
    if h < |ps| then h else 0
  }

  /** The wheel loop of the source: subtract the probabilities in list
      order until one exceeds what is left of the draw. */
  method SpinWheel(ps: seq<DepotProb>, draw: real) returns (selected: int)
    requires |ps| > 0
    ensures selected == ps[SelectIndex(ps, draw)].idx
  {
    selected := -1;
    var remaining := draw;
    var found := false;
    ghost var at: nat := 0;
    for i := 0 to |ps|
      invariant !found ==> remaining == draw - ProbSum(ps[..i])
      invariant !found ==> forall j :: 0 <= j < i ==> !Hit(ps, draw, j)
      invariant found ==> at < i && selected == ps[at].idx && Hit(ps, draw, at)
      invariant found ==> forall j :: 0 <= j < at ==> !Hit(ps, draw, j)
    {
      if !found {
        assert ps[..i + 1][..i] == ps[..i];
        if remaining < ps[i].prob {
          selected := ps[i].idx;
          found := true;
          at := i;
        } else {
          remaining := remaining - ps[i].prob;
        }
      }
    }
    if !found {
      selected := ps[0].idx;
    }
  }

  /** Unnormalised weight of a candidate: pheromone to the power ALPHA
      times inverse distance to the power BETA. */
  function Weight(pheromone: real, distance: int): real
    requires distance != 0
  {
    Power(pheromone, ALPHA) * Power(Inverse(distance), BETA)
  }

  function Inverse(distance: int): real
    requires distance != 0
  {
    1.0 / distance as real
  }

  /** The weights of the candidates seen from node cur, in candidate order. */
  function Weights(inst: Instance, pher: array2<real>, cur: int, cands: seq<int>): (w: seq<real>)
    reads pher
    requires inst.Valid() && pher.Length0 == inst.Size() && pher.Length1 == inst.Size()
    requires 0 <= cur < inst.Size() && forall k :: 0 <= k < |cands| ==> 0 <= cands[k] < inst.Size() && cands[k] != cur
    ensures |w| == |cands|
    ensures forall k :: 0 <= k < |w| ==> w[k] == Weight(pher[cur, cands[k]], inst.dist[cur][cands[k]])
  {
    if |cands| == 0 then []
    else
      var c := cands[|cands| - 1];
      Weights(inst, pher, cur, cands[..|cands| - 1]) + [Weight(pher[cur, c], inst.dist[cur][c])]
  }

  /** Weighing one more candidate appends its weight. */
  lemma WeightsSnoc(inst: Instance, pher: array2<real>, cur: int, cands: seq<int>, k: nat)
    requires inst.Valid() && pher.Length0 == inst.Size() && pher.Length1 == inst.Size()
    requires 0 <= cur < inst.Size() && forall j :: 0 <= j < |cands| ==> 0 <= cands[j] < inst.Size() && cands[j] != cur
    requires k < |cands|
    ensures Weights(inst, pher, cur, cands[..k + 1]) ==
      Weights(inst, pher, cur, cands[..k]) + [Weight(pher[cur, cands[k]], inst.dist[cur][cands[k]])]
  {
    assert cands[..k + 1][..k] == cands[..k];
  }

  /** The weights scaled by their total. A zero total gives probability 0
      to every entry (the source divides 0 by 0 there, and the wheel then
      falls back to the first entry either way). */
  function Normalize(cands: seq<int>, w: seq<real>, total: real): (ps: seq<DepotProb>)
    requires |w| == |cands|
    ensures |ps| == |cands| && forall k :: 0 <= k < |ps| ==> ps[k].idx == cands[k]
    ensures total != 0.0 ==> forall k :: 0 <= k < |ps| ==> ps[k].prob * total == w[k]
    ensures total == 0.0 ==> forall k :: 0 <= k < |ps| ==> ps[k].prob == 0.0
  {
    seq(|cands|, k requires 0 <= k < |cands| => DepotProb(cands[k], if total == 0.0 then 0.0 else w[k] / total))
  }

  /** Normalising one more entry appends its scaled weight. */
  lemma NormalizeSnoc(cands: seq<int>, w: seq<real>, total: real, k: nat)
    requires |w| == |cands| && k < |cands|
    ensures Normalize(cands[..k + 1], w[..k + 1], total) ==
      Normalize(cands[..k], w[..k], total) + [DepotProb(cands[k], if total == 0.0 then 0.0 else w[k] / total)]
  {
  }

  /** The weighing loop of the roulette list: the weight of each candidate
      seen from node cur, and their running total. */
  method WeighCandidates(inst: Instance, pher: array2<real>, cur: int, cands: seq<int>)
    returns (weights: seq<real>, total: real)
    requires inst.Valid() && pher.Length0 == inst.Size() && pher.Length1 == inst.Size()
    requires 0 <= cur < inst.Size() && forall k :: 0 <= k < |cands| ==> 0 <= cands[k] < inst.Size() && cands[k] != cur
    ensures weights == Weights(inst, pher, cur, cands)
    ensures total == SumReals(weights)
  {
    weights, total := [], 0.0;
    for k := 0 to |cands|
      invariant weights == Weights(inst, pher, cur, cands[..k])
      invariant total == SumReals(weights)
    {
      WeightsSnoc(inst, pher, cur, cands, k);
      var w := Weight(pher[cur, cands[k]], inst.dist[cur][cands[k]]);
      SumRealsSnoc(weights, w);
      weights := weights + [w];
      total := total + w;
    }
    assert cands[..|cands|] == cands;
  }

  /** The normalising loop of the roulette list: each candidate with its
      weight divided by the total. */
  method NormalizeWeights(cands: seq<int>, weights: seq<real>, total: real) returns (probs: seq<DepotProb>)
    requires |weights| == |cands|
    ensures probs == Normalize(cands, weights, total)
  {
    probs := [];
    for k := 0 to |cands|
      invariant probs == Normalize(cands[..k], weights[..k], total)
    {
      NormalizeSnoc(cands, weights, total, k);
      var actual := if total == 0.0 then 0.0 else weights[k] / total;
      probs := probs + [DepotProb(cands[k], actual)];
    }
    assert cands[..|cands|] == cands && weights[..|cands|] == weights;
  }

  /** The roulette list of a truck: its candidates with their normalised
      weights, or the home depot with probability 1 when it has none. */
  function DepotProbs(inst: Instance, pher: array2<real>, s: TruckState): (ps: seq<DepotProb>)
    reads pher
    requires Inv(inst, s) && pher.Length0 == inst.Size() && pher.Length1 == inst.Size()
    ensures Candidates(inst, s) == [] ==> ps == [DepotProb(0, 1.0)]
    ensures Candidates(inst, s) != [] ==>
      |ps| == |Candidates(inst, s)| && forall k :: 0 <= k < |ps| ==> ps[k].idx == Candidates(inst, s)[k]
  {
    var cands := Candidates(inst, s);
    if cands == [] then [DepotProb(0, 1.0)]
    else
      CandidatesAvoidCurrent(inst, s);
      var w := Weights(inst, pher, Last(s.route), cands);
      Normalize(cands, w, SumReals(w))
  }

  /** The node a probabilistic move heads for: always a node, the home
      depot exactly when there is no candidate, and otherwise a candidate
      whose move is accepted. */
  function ProbabilisticChoice(inst: Instance, pher: array2<real>, s: TruckState, draw: real): (d: int)
    reads pher
    requires Inv(inst, s) && pher.Length0 == inst.Size() && pher.Length1 == inst.Size()
    ensures 0 <= d < inst.Size()
    ensures d == 0 <==> Candidates(inst, s) == []
    ensures d != 0 ==> d in Candidates(inst, s) && Accepts(inst, s, d)
  {
    CandidatesAccepted(inst, s);
    var ps := DepotProbs(inst, pher, s);
    var k := SelectIndex(ps, draw);
    assert ps[k].idx in Candidates(inst, s) || Candidates(inst, s) == [];
    ps[k].idx
  }

  // ---------------------------------------------------------------------------
  // Lemmas

  lemma {:induction false} PowerPositive(x: real, e: nat)
    requires x > 0.0
    ensures Power(x, e) > 0.0
  {
    if e > 0 {
      PowerPositive(x, e - 1);
    }
  }

  lemma {:induction false} SumPositive(w: seq<real>)
    requires |w| > 0 && forall k :: 0 <= k < |w| ==> w[k] > 0.0
    ensures SumReals(w) > 0.0
  {
    if |w| > 1 {
      SumPositive(w[..|w| - 1]);
    }
  }

  /** With positive pheromones every candidate has a positive weight. */
  lemma WeightsPositive(inst: Instance, pher: array2<real>, cur: int, cands: seq<int>)
    requires inst.Valid() && pher.Length0 == inst.Size() && pher.Length1 == inst.Size()
    requires 0 <= cur < inst.Size() && forall k :: 0 <= k < |cands| ==> 0 <= cands[k] < inst.Size() && cands[k] != cur
    requires forall i, j :: 0 <= i < inst.Size() && 0 <= j < inst.Size() ==> pher[i, j] > 0.0
    ensures forall k :: 0 <= k < |cands| ==> Weights(inst, pher, cur, cands)[k] > 0.0
  {
    forall k | 0 <= k < |cands| ensures Weights(inst, pher, cur, cands)[k] > 0.0 {
      var c := cands[k];
      var d := inst.dist[cur][c];
      assert d > 0;
      PowerPositive(pher[cur, c], ALPHA);
      assert Inverse(d) > 0.0;
      PowerPositive(Inverse(d), BETA);
      ProductPositive(Power(pher[cur, c], ALPHA), Power(Inverse(d), BETA));
    }
  }

  lemma ProductPositive(a: real, b: real)
    requires a > 0.0 && b > 0.0
    ensures a * b > 0.0
  {
  }

  /** Normalising divides the sum of the weights by the total. */
  lemma {:induction false} NormalizeSum(cands: seq<int>, w: seq<real>, total: real)
    requires |w| == |cands| && total != 0.0
    ensures ProbSum(Normalize(cands, w, total)) == SumReals(w) / total
  {
    var ps := Normalize(cands, w, total);
    if |cands| > 0 {
      var n := |cands| - 1;
      NormalizeSum(cands[..n], w[..n], total);
      assert ps[..n] == Normalize(cands[..n], w[..n], total);
      assert ProbSum(ps) == ProbSum(ps[..n]) + w[n] / total;
      AddQuotients(SumReals(w[..n]), w[n], total);
    }
  }

  /** Quotients by the same divisor add up. */
  lemma AddQuotients(x: real, y: real, t: real)
    requires t != 0.0
    ensures x / t + y / t == (x + y) / t
  {
  }

  /** Positive weights normalised by their sum add up to 1. */
  lemma NormalizedSumIsOne(cands: seq<int>, w: seq<real>)
    requires |w| == |cands| > 0 && forall k :: 0 <= k < |w| ==> w[k] > 0.0
    ensures ProbSum(Normalize(cands, w, SumReals(w))) == 1.0
  {
    var total := SumReals(w);
    SumPositive(w);
    NormalizeSum(cands, w, total);
    SelfQuotient(total);
  }

  lemma SelfQuotient(x: real)
    requires x > 0.0
    ensures x / x == 1.0
  {
  }

  /** With positive pheromones the roulette list is a probability
      distribution: its probabilities add up to 1. */
  lemma ProbsSumToOne(inst: Instance, pher: array2<real>, s: TruckState)
    requires Inv(inst, s) && pher.Length0 == inst.Size() && pher.Length1 == inst.Size()
    requires forall i, j :: 0 <= i < inst.Size() && 0 <= j < inst.Size() ==> pher[i, j] > 0.0
    ensures ProbSum(DepotProbs(inst, pher, s)) == 1.0
  {
    var cands := Candidates(inst, s);
    if cands == [] {
      assert DepotProbs(inst, pher, s)[..0] == [];
    } else {
      CandidatesAvoidCurrent(inst, s);
      var cur := Last(s.route);
      var w := Weights(inst, pher, cur, cands);
      WeightsPositive(inst, pher, cur, cands);
      NormalizedSumIsOne(cands, w);
      assert DepotProbs(inst, pher, s) == Normalize(cands, w, SumReals(w));
    }
  }

  /** The roulette wheel on the list 0.5, 0.3, 0.2 sends the draws 0.1, 0.6
      and 0.95 to the first, second and third entry. */
  lemma WheelExample()
    ensures var ps := [DepotProb(1, 0.5), DepotProb(2, 0.3), DepotProb(3, 0.2)];
      SelectIndex(ps, 0.1) == 0 && SelectIndex(ps, 0.6) == 1 && SelectIndex(ps, 0.95) == 2
  {
    var ps := [DepotProb(1, 0.5), DepotProb(2, 0.3), DepotProb(3, 0.2)];
    assert ps[..0] == [];
    assert ps[..1] == [ps[0]] && ps[..1][..0] == [];
    assert ps[..2][..1] == ps[..1];
    assert Hit(ps, 0.1, 0);
    assert !Hit(ps, 0.6, 0) && Hit(ps, 0.6, 1);
    assert !Hit(ps, 0.95, 0) && !Hit(ps, 0.95, 1) && Hit(ps, 0.95, 2);
  }
}
