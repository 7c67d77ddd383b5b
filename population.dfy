/** A population: evaluation of every member, and the three ways the engine
    draws individuals from it (tournament, roulette wheel, elitism). Every
    drawn individual is a fresh copy. */
module Populations {
  import opened PyBase
  import opened Genes
  import opened Individuals

  /** What evaluate writes on one individual given its evaluator's outcome:
      missing keys fall back to 0, a missing detected_bug to `failures > 0`,
      and an evaluator that raises leaves zero scores and a detected bug. */
  function Evaluated(s: IndState, o: Outcome): (r: IndState)
    ensures r.genes == s.genes && r.fitness.Some?
    ensures o.Raised? ==> r.detectedBug && Score(r) == 0.0 && r.coverage == 0.0 && r.failures == 0
    ensures o.Returned? ==> Score(r) == o.report.fitness.GetOr(0.0)
    ensures o.Returned? && o.report.detectedBug.None? ==> (r.detectedBug <==> r.failures > 0)
  {
    match o
    case Raised =>
      s.(fitness := Some(0.0), coverage := 0.0, failures := 0, detectedBug := true)
    case Returned(rep) =>
      var failures := rep.failures.GetOr(0);
      s.(fitness := Some(rep.fitness.GetOr(0.0)), coverage := rep.coverage.GetOr(0.0),
         failures := failures, detectedBug := rep.detectedBug.GetOr(failures > 0))
  }

  /** Position of the first maximum, the item Python's `max` returns: a later
      item replaces the best so far only when it is strictly larger. */
  function FirstMax(xs: seq<real>): (k: nat)
    requires |xs| > 0
    ensures k < |xs|
    ensures forall i :: 0 <= i < |xs| ==> xs[i] <= xs[k]
    ensures forall i :: 0 <= i < k ==> xs[i] < xs[k]
  {
    if |xs| == 1 then 0
    else
      var k := FirstMax(xs[..|xs| - 1]);
      if xs[|xs| - 1] > xs[k] then |xs| - 1 else k
  }

  /** t distinct positions in a population of n, as `random.sample` draws them. */
  predicate IsSample(sample: seq<int>, n: int, t: int) {
    |sample| == t &&
    (forall i :: 0 <= i < |sample| ==> 0 <= sample[i] < n) &&
    (forall i, j :: 0 <= i < j < |sample| ==> sample[i] != sample[j])
  }

  function SampleScores(scores: seq<real>, sample: seq<int>): (r: seq<real>)
    requires forall i :: 0 <= i < |sample| ==> 0 <= sample[i] < |scores|
    ensures |r| == |sample| && forall i :: 0 <= i < |sample| ==> r[i] == scores[sample[i]]
  {
    seq(|sample|, i requires 0 <= i < |sample| => scores[sample[i]])
  }

  /** The tournament winner: the first sampled individual with the highest score. */
  function Winner(scores: seq<real>, sample: seq<int>): (w: int)
    requires |sample| > 0 && forall i :: 0 <= i < |sample| ==> 0 <= sample[i] < |scores|
    ensures 0 <= w < |scores| && w in sample
    ensures forall i :: 0 <= i < |sample| ==> scores[sample[i]] <= scores[w]
  {
    sample[FirstMax(SampleScores(scores, sample))]
  }

  /** Distinct positions below m are at most m in number. */
  lemma {:induction false} DistinctBelow(s: seq<int>, m: nat)
    requires forall i :: 0 <= i < |s| ==> 0 <= s[i] < m
    requires forall i, j :: 0 <= i < j < |s| ==> s[i] != s[j]
    ensures |s| <= m
  {
    assert |s| > 0 ==> 0 <= s[0] < m;
    if m == 0 {
      // no position lies below 0, so s is empty
    } else if k :| 0 <= k < |s| && s[k] == m - 1 {
      var rest := s[..k] + s[k + 1..];
      assert forall i :: 0 <= i < |rest| ==> rest[i] == if i < k then s[i] else s[i + 1];
      DistinctBelow(rest, m - 1);
    } else {
      DistinctBelow(s, m - 1);
    }
  }

  /** A sample of all n positions draws every one of them. */
  lemma FullSampleCoversAll(sample: seq<int>, n: nat, p: int)
    requires IsSample(sample, n, n) && 0 <= p < n
    ensures p in sample
  {
    if p !in sample {
      var squeezed := seq(|sample|, i requires 0 <= i < |sample| => if sample[i] > p then sample[i] - 1 else sample[i]);
      DistinctBelow(squeezed, n - 1);
    }
  }

  /** A tournament as large as the population picks a member of top score. */
  lemma FullTournamentPicksBest(scores: seq<real>, sample: seq<int>)
    requires |scores| > 0 && IsSample(sample, |scores|, |scores|)
    ensures forall i :: 0 <= i < |scores| ==> scores[i] <= scores[Winner(scores, sample)]
  {
    forall i | 0 <= i < |scores|
      ensures scores[i] <= scores[Winner(scores, sample)]
    {
      FullSampleCoversAll(sample, |scores|, i);
      var q :| 0 <= q < |sample| && sample[q] == i;
    }
  }

  function Sum(xs: seq<real>): real {
    if |xs| == 0 then 0.0 else Sum(xs[..|xs| - 1]) + xs[|xs| - 1]
  }

  /** The running total through position i. */
  function Running(xs: seq<real>, i: int): real
    requires 0 <= i < |xs|
  {
    Sum(xs[..i + 1])
  }

  /** Where a wheel spun to `pick` stops: the first position whose running
      total reaches pick, if any does. */
  function Reach(xs: seq<real>, pick: real): (r: Option<nat>)
    ensures r.Some? ==> r.value < |xs| && Running(xs, r.value) >= pick
    ensures r.Some? ==> forall i :: 0 <= i < r.value ==> Running(xs, i) < pick
    ensures r.None? ==> forall i :: 0 <= i < |xs| ==> Running(xs, i) < pick
  {
    if |xs| == 0 then None
    else
      var front := xs[..|xs| - 1];
      assert forall i :: 0 <= i < |front| ==> Running(front, i) == Running(xs, i) by {
        forall i | 0 <= i < |front| ensures Running(front, i) == Running(xs, i) {
          assert front[..i + 1] == xs[..i + 1];
        }
      }
      match Reach(front, pick)
      case Some(i) => Some(i)
      case None =>
        assert xs[..|xs|] == xs;
        if Sum(xs) >= pick then Some(|xs| - 1) else None
  }

  /** `random.uniform(0, total)` lands between 0 and total, either way round. */
  predicate Between(pick: real, total: real) {
    if 0.0 <= total then 0.0 <= pick <= total else total <= pick <= 0.0
  }

  /** With no negative scores the running totals never fall. */
  lemma {:induction false} SumMono(xs: seq<real>, i: int, j: int)
    requires forall p :: 0 <= p < |xs| ==> xs[p] >= 0.0
    requires 0 <= i <= j <= |xs|
    ensures Sum(xs[..i]) <= Sum(xs[..j])
    decreases j - i
  {
    if i < j {
      SumMono(xs, i, j - 1);
      assert xs[..j][..j - 1] == xs[..j - 1];
    }
  }

  /** With no negative scores, the wheel gives each individual the slice
      (running total before it, running total through it]: a pick above 0
      stops at i exactly when it falls in i's slice. */
  lemma ReachIsSlot(xs: seq<real>, pick: real, i: int)
    requires forall p :: 0 <= p < |xs| ==> xs[p] >= 0.0
    requires 0.0 < pick && 0 <= i < |xs|
    ensures Reach(xs, pick) == Some(i) <==> Sum(xs[..i]) < pick <= Sum(xs[..i + 1])
  {
    var r := Reach(xs, pick);
    assert Running(xs, i) == Sum(xs[..i + 1]);
    if Sum(xs[..i]) < pick <= Sum(xs[..i + 1]) && r.Some? && r.value < i {
      SumMono(xs, r.value + 1, i);
    }
    if r == Some(i) && i > 0 {
      assert Running(xs, i - 1) == Sum(xs[..i]) by {
        assert xs[..i - 1 + 1] == xs[..i];
      }
    }
  }

  /** With no negative scores and a non-zero total, every spin stops somewhere. */
  lemma ReachFindsOne(xs: seq<real>, pick: real)
    requires forall p :: 0 <= p < |xs| ==> xs[p] >= 0.0
    requires Sum(xs) != 0.0 && Between(pick, Sum(xs))
    ensures Reach(xs, pick).Some?
  {
    if |xs| == 0 {
      assert false;
    }
    SumMono(xs, 0, |xs|);
    assert xs[..|xs|] == xs;
    assert Running(xs, |xs| - 1) >= Sum(xs[..0]);
  }

  /** The positions 0, 1, ..., m - 1. */
  function Positions(m: nat): (r: seq<nat>)
    ensures |r| == m && forall p :: 0 <= p < m ==> r[p] == p
  {
    if m == 0 then [] else Positions(m - 1) + [m - 1]
  }

  /** What `sorted(key=score, reverse=True)` promises of an order of positions:
      scores never rise, and equal scores keep their original order. */
  predicate StableDescending(order: seq<nat>, scores: seq<real>) {
    (forall p :: 0 <= p < |order| ==> order[p] < |scores|) &&
    forall p, q :: 0 <= p < q < |order| ==>
      scores[order[p]] > scores[order[q]] ||
      (scores[order[p]] == scores[order[q]] && order[p] < order[q])
  }

  /** Puts position i after everything scoring at least as much. */
  function InsertByScore(order: seq<nat>, scores: seq<real>, i: nat): (r: seq<nat>)
    requires i < |scores| && forall p :: 0 <= p < |order| ==> order[p] < |scores|
    ensures multiset(r) == multiset(order) + multiset{i}
  {
    if |order| == 0 then [i]
    else if scores[order[0]] < scores[i] then [i] + order
    else
      assert order == [order[0]] + order[1..];
      [order[0]] + InsertByScore(order[1..], scores, i)
  }

  /** The order in which `sorted(..., reverse=True)` lists the first m
      individuals: an insertion sort, each newcomer after its equals. */
  function EliteOrder(scores: seq<real>, m: nat): (r: seq<nat>)
    requires m <= |scores|
    ensures |r| == m && forall p :: 0 <= p < |r| ==> r[p] < m
  {
    if m == 0 then []
    else
      var r := InsertByScore(EliteOrder(scores, m - 1), scores, m - 1);
      assert forall p :: 0 <= p < |r| ==> r[p] in multiset(r);
      assert |multiset(r)| == m;
      r
  }

  lemma {:induction false} InsertKeepsOrder(order: seq<nat>, scores: seq<real>, i: nat)
    requires i < |scores| && StableDescending(order, scores)
    requires forall p :: 0 <= p < |order| ==> order[p] < i
    ensures StableDescending(InsertByScore(order, scores, i), scores)
  {
    var r := InsertByScore(order, scores, i);
    if |order| > 0 && scores[order[0]] >= scores[i] {
      var rest := InsertByScore(order[1..], scores, i);
      InsertKeepsOrder(order[1..], scores, i);
      assert r == [order[0]] + rest;
      forall q | 0 <= q < |rest|
        ensures scores[order[0]] > scores[rest[q]] ||
                (scores[order[0]] == scores[rest[q]] && order[0] < rest[q])
      {
        assert rest[q] in multiset(rest);
        assert rest[q] in multiset(order[1..]) + multiset{i};
        if rest[q] != i {
          assert rest[q] in order[1..];
        }
      }
    }
  }

  /** EliteOrder lists every position once, best score first, ties in their
      original order: exactly the list a stable descending sort produces. */
  lemma EliteOrderSorted(scores: seq<real>, m: nat)
    requires m <= |scores|
    ensures StableDescending(EliteOrder(scores, m), scores)
    ensures multiset(EliteOrder(scores, m)) == multiset(Positions(m))
  {
    EliteOrderDescends(scores, m);
    EliteOrderPermutes(scores, m);
  }

  lemma {:induction false} EliteOrderDescends(scores: seq<real>, m: nat)
    requires m <= |scores|
    ensures StableDescending(EliteOrder(scores, m), scores)
  {
    if m > 0 {
      var prev := EliteOrder(scores, m - 1);
      EliteOrderDescends(scores, m - 1);
      InsertKeepsOrder(prev, scores, m - 1);
    }
  }

  lemma {:induction false} EliteOrderPermutes(scores: seq<real>, m: nat)
    requires m <= |scores|
    ensures multiset(EliteOrder(scores, m)) == multiset(Positions(m))
  {
    if m > 0 {
      EliteOrderPermutes(scores, m - 1);
      assert EliteOrder(scores, m) == InsertByScore(EliteOrder(scores, m - 1), scores, m - 1);
    }
  }

  /** The inner loop of select_roulette: add up the scores until the running
      total reaches pick, and stop at that individual. */
  method Spin(fitnesses: seq<real>, pick: real) returns (stop: Option<nat>)
    ensures stop == Reach(fitnesses, pick)
  {
    var current := 0.0;
    for i := 0 to |fitnesses|
      invariant current == Sum(fitnesses[..i])
      invariant forall p :: 0 <= p < i ==> Running(fitnesses, p) < pick
    {
      assert fitnesses[..i + 1][..i] == fitnesses[..i];
      current := current + fitnesses[i];
      assert current == Running(fitnesses, i);
      if current >= pick {
        return Some(i);
      }
    }
    return None;
  }

  /** s is the state of the winner of some tournament of t distinct members of states. */
  ghost predicate WonBy(s: IndState, states: seq<IndState>, t: int) {
    0 < t &&
    exists sample :: IsSample(sample, |states|, t) && s == states[Winner(Scores(states), sample)]
  }

  /** s is the state of the member some spin of the wheel over states stops at. */
  ghost predicate SpunTo(s: IndState, states: seq<IndState>) {
    var fitnesses := Scores(states);
    exists pick :: Between(pick, Sum(fitnesses)) && Reach(fitnesses, pick).Some? &&
      s == states[Reach(fitnesses, pick).value]
  }

  class Population {
    var individuals: seq<Individual>

    constructor (individuals: seq<Individual>)
      ensures this.individuals == individuals
    {
      this.individuals := individuals;
    }

    /** evaluate: runs the evaluator on every member and stores its scores,
        member by member, as Evaluated describes; genes are never touched. */
    method Evaluate(evaluator: IndState -> Outcome)
      requires Distinct(individuals)
      modifies individuals
      ensures forall i :: 0 <= i < |individuals| ==>
        individuals[i].State() == Evaluated(old(individuals[i].State()), evaluator(old(individuals[i].State())))
      ensures forall i :: 0 <= i < |individuals| ==>
        individuals[i].genes == old(individuals[i].genes) && individuals[i].fitness.Some?
    {
      for i := 0 to |individuals|
        invariant forall j :: 0 <= j < i ==>
          individuals[j].State() == Evaluated(old(individuals[j].State()), evaluator(old(individuals[j].State())))
        invariant forall j :: i <= j < |individuals| ==> individuals[j].State() == old(individuals[j].State())
      {
        var ind := individuals[i];
        match evaluator(ind.State())
        case Returned(rep) =>
          ind.fitness := Some(rep.fitness.GetOr(0.0));
          ind.coverage := rep.coverage.GetOr(0.0);
          ind.failures := rep.failures.GetOr(0);
          ind.detectedBug := rep.detectedBug.GetOr(ind.failures > 0);
        case Raised =>
          ind.fitness := Some(0.0);
          ind.coverage := 0.0;
          ind.failures := 0;
          ind.detectedBug := true;
      }
    }

    /** select_tournament: k rounds, each a copy of the best of t members drawn
        without replacement; a draw that cannot be made raises ValueError. */
    method SelectTournament(k: int, t: int) returns (r: Result<seq<Individual>>)
      ensures r.Failure? <==> 0 < k && !(0 < t <= |individuals|)
      ensures r.Failure? ==> r.error == ValueError
      ensures r.Success? ==> |r.value| == Max(k, 0) && Distinct(r.value)
      ensures r.Success? ==> forall j :: 0 <= j < |r.value| ==>
        fresh(r.value[j]) &&
        WonBy(r.value[j].State(), States(individuals), t)
    {
      if k <= 0 {
        return Success([]);
      }
      if !(0 < t <= |individuals|) {
        return Failure(ValueError);
      }
      var scores := Fitnesses();
      ghost var states := States(individuals);
      var selected: seq<Individual> := [];
      for round := 0 to k
        invariant |selected| == round && Distinct(selected)
        invariant forall j :: 0 <= j < round ==>
          fresh(selected[j]) && WonBy(selected[j].State(), states, t)
      {
        var winner := Tournament(scores, states, t);
        DistinctSnoc(selected, winner);
        selected := selected + [winner];
      }
      return Success(selected);
    }

    /** One round: `random.sample` of t distinct members, and a copy of the
        first of them with the highest score. */
    method Tournament(scores: seq<real>, ghost states: seq<IndState>, t: int) returns (winner: Individual)
      requires states == States(individuals) && scores == Scores(states) && 0 < t <= |individuals|
      ensures fresh(winner) && WonBy(winner.State(), states, t)
    {
      ghost var first := Positions(t);
      assert IsSample(first, |individuals|, t);
      var sample :| IsSample(sample, |individuals|, t);
      assert IsSample(sample, |individuals|, t);
      winner := individuals[Winner(scores, sample)].Copy();
      assert WonBy(winner.State(), states, t);
    }

    /** The scores `ind.fitness or 0` of the members, in order. */
    function Fitnesses(): (r: seq<real>)
      reads this, individuals
      ensures |r| == |individuals|
      ensures forall i :: 0 <= i < |individuals| ==> r[i] == Score(individuals[i].State())
    {
      Scores(States(individuals))
    }

    /** select_roulette: k spins of a wheel whose slices are the scores. With
        a zero total it copies k members at random instead (IndexError from an
        empty population); otherwise a spin that reaches no slice adds nothing,
        which cannot happen when no score is negative. */
    method SelectRoulette(k: int) returns (r: Result<seq<Individual>>)
      ensures r.Failure? <==> 0 < k && |individuals| == 0
      ensures r.Failure? ==> r.error == IndexError
      ensures r.Success? ==> |r.value| <= Max(k, 0) && Distinct(r.value)
      ensures r.Success? ==> forall j :: 0 <= j < |r.value| ==> fresh(r.value[j])
      ensures r.Success? && Sum(Fitnesses()) == 0.0 ==>
        |r.value| == Max(k, 0) &&
        forall j :: 0 <= j < |r.value| ==> r.value[j].State() in States(individuals)
      ensures r.Success? && Sum(Fitnesses()) != 0.0 ==>
        forall j :: 0 <= j < |r.value| ==> SpunTo(r.value[j].State(), States(individuals))
      ensures r.Success? && (forall i :: 0 <= i < |individuals| ==> Score(individuals[i].State()) >= 0.0) ==>
        |r.value| == Max(k, 0)
    {
      var fitnesses := Fitnesses();
      if k <= 0 {
        return Success([]);
      }
      if Sum(fitnesses) == 0.0 {
        if |individuals| == 0 {
          return Failure(IndexError);
        }
        var selected := RandomCopies(k);
        return Success(selected);
      }
      var selected := Spins(k, States(individuals));
      return Success(selected);
    }

    /** The zero-total fallback of select_roulette: `random.choice`, k times. */
    method RandomCopies(k: nat) returns (selected: seq<Individual>)
      requires |individuals| > 0
      ensures |selected| == k && Distinct(selected)
      ensures forall j :: 0 <= j < k ==> fresh(selected[j]) && selected[j].State() in States(individuals)
    {
      ghost var states := States(individuals);
      selected := [];
      for round := 0 to k
        invariant |selected| == round && Distinct(selected)
        invariant forall j :: 0 <= j < round ==> fresh(selected[j]) && selected[j].State() in states
      {
        var i :| 0 <= i < |individuals|;
        var c := individuals[i].Copy();
        assert c.State() == states[i];
        DistinctSnoc(selected, c);
        selected := selected + [c];
      }
    }

    /** The main loop of select_roulette: k spins, each adding a copy of the
        member it stops at, if any. */
    method Spins(k: nat, ghost states: seq<IndState>) returns (selected: seq<Individual>)
      requires states == States(individuals) && Sum(Scores(states)) != 0.0
      ensures |selected| <= k && Distinct(selected)
      ensures forall j :: 0 <= j < |selected| ==> fresh(selected[j]) && SpunTo(selected[j].State(), states)
      ensures (forall i :: 0 <= i < |states| ==> Score(states[i]) >= 0.0) ==> |selected| == k
    {
      var fitnesses := Fitnesses();
      assert fitnesses == Scores(states);
      selected := [];
      for round := 0 to k
        invariant |selected| <= round && Distinct(selected)
        invariant (forall i :: 0 <= i < |states| ==> Score(states[i]) >= 0.0) ==> |selected| == round
        invariant forall j :: 0 <= j < |selected| ==> fresh(selected[j]) && SpunTo(selected[j].State(), states)
      {
        var c := SpinOnce(fitnesses, states);
        if c.Some? {
          DistinctSnoc(selected, c.value);
          selected := selected + [c.value];
        }
      }
    }

    /** One spin: a pick in [0, total], and a copy of the member it stops at, if any. */
    method SpinOnce(fitnesses: seq<real>, ghost states: seq<IndState>) returns (c: Option<Individual>)
      requires states == States(individuals) && fitnesses == Scores(states) && Sum(fitnesses) != 0.0
      ensures c.Some? ==> fresh(c.value) && SpunTo(c.value.State(), states)
      ensures (forall i :: 0 <= i < |states| ==> Score(states[i]) >= 0.0) ==> c.Some?
    {
      var total := Sum(fitnesses);
      assert Between(0.0, total);
      var pick :| Between(pick, total);
      if forall i :: 0 <= i < |states| ==> Score(states[i]) >= 0.0 {
        ReachFindsOne(fitnesses, pick);
      }
      var stop := Spin(fitnesses, pick);
      if stop.Some? {
        var copy := individuals[stop.value].Copy();
        assert SpunTo(copy.State(), states);
        return Some(copy);
      }
      return None;
    }

    /** `max(individuals, key=fitness or 0)`: the position of the first
        member of top score. */
    function Best(): (k: nat)
      requires |individuals| > 0
      reads this, individuals
      ensures k < |individuals|
      ensures forall i :: 0 <= i < |individuals| ==> Score(individuals[i].State()) <= Score(individuals[k].State())
      ensures forall i :: 0 <= i < k ==> Score(individuals[i].State()) < Score(individuals[k].State())
      ensures k == FirstMax(Scores(States(individuals)))
    {
      FirstMax(Fitnesses())
    }

    /** get_elite: copies of the first n members (a Python slice, so a
        negative n drops members from the end) of the population sorted by
        score, best first, ties in population order. */
    method GetElite(n: int) returns (elites: seq<Individual>)
      ensures |elites| == SliceLen(|individuals|, n) && Distinct(elites)
      ensures forall j :: 0 <= j < |elites| ==>
        fresh(elites[j]) &&
        elites[j].State() == individuals[EliteOrder(Fitnesses(), |individuals|)[j]].State()
    {
      var order := EliteOrder(Fitnesses(), |individuals|);
      ghost var states := States(individuals);
      elites := [];
      for j := 0 to SliceLen(|individuals|, n)
        invariant |elites| == j && Distinct(elites)
        invariant forall p :: 0 <= p < j ==> fresh(elites[p]) && elites[p].State() == states[order[p]]
      {
        var c := individuals[order[j]].Copy();
        DistinctSnoc(elites, c);
        elites := elites + [c];
      }
    }
  }
}
