/** The genetic algorithm's main loop: evaluate the population, keep the
    elites, pick parents by tournament, breed them by crossover and
    mutation, evaluate the new population and record its statistics. */
module Engine {
  import opened PyBase
  import opened Genes
  import opened Individuals
  import opened Populations
  import opened CoverageUtils
  import opened Operators

  /** The keys of the config dict the engine reads; None marks a missing key. */
  datatype Config<O> = Config(elitism: Option<int>, tournamentSize: Option<int>,
                              problemMap: Option<map<string, Target<O>>>)

  /** One history entry. `population` holds the very objects of that
      generation, which the next generation's first evaluation rescores. */
  datatype GenStats = GenStats(generation: int, bestFitness: Option<real>, bestCoverage: real,
                               avgFitness: real, avgCoverage: real, bugDetections: nat,
                               population: seq<Individual>)

  datatype RunOutput = RunOutput(best: Individual, history: seq<GenStats>)

  function Coverages(states: seq<IndState>): (r: seq<real>)
    ensures |r| == |states| && forall i :: 0 <= i < |states| ==> r[i] == states[i].coverage
  {
    seq(|states|, i requires 0 <= i < |states| => states[i].coverage)
  }

  /** The number of individuals flagged with a detected bug. */
  function BugCount(states: seq<IndState>): (c: nat)
    ensures c <= |states|
    ensures c == 0 <==> forall i :: 0 <= i < |states| ==> !states[i].detectedBug
  {
    if |states| == 0 then 0
    else BugCount(states[..|states| - 1]) + (if states[|states| - 1].detectedBug then 1 else 0)
  }

  /** A sum of n numbers none above m is at most n * m. */
  lemma {:induction false} SumAtMost(xs: seq<real>, m: real)
    requires forall i :: 0 <= i < |xs| ==> xs[i] <= m
    ensures Sum(xs) <= |xs| as real * m
  {
    if |xs| > 0 {
      SumAtMost(xs[..|xs| - 1], m);
    }
  }

  /** The average of non-empty numbers is at most their maximum. */
  lemma AverageAtMost(xs: seq<real>, m: real)
    requires |xs| > 0 && forall i :: 0 <= i < |xs| ==> xs[i] <= m
    ensures Sum(xs) / |xs| as real <= m
  {
    SumAtMost(xs, m);
    var n := |xs| as real;
    assert Sum(xs) / n * n == Sum(xs);
  }

  /** The statistics a generation records about its individuals `pop`,
      whose states are `states`: the first state of top score, the averages
      over the population (a missing fitness counting as 0), and the bug
      count. The average fitness never exceeds the best. */
  function Summary(gen: int, states: seq<IndState>, pop: seq<Individual>): (r: GenStats)
    requires |states| > 0
    ensures r.generation == gen && r.population == pop && r.bugDetections <= |states|
    ensures r.avgFitness <= r.bestFitness.GetOr(0.0)
    ensures var k := FirstMax(Scores(states));
      r.bestFitness == states[k].fitness && r.bestCoverage == states[k].coverage
    ensures r.avgFitness == Sum(Scores(states)) / |states| as real
    ensures r.avgCoverage == Sum(Coverages(states)) / |states| as real
    ensures r.bugDetections == BugCount(states)
  {
    var scores := Scores(states);
    var k := FirstMax(scores);
    assert states[k].fitness.GetOr(0.0) == scores[k];
    AverageAtMost(scores, scores[k]);
    GenStats(gen, states[k].fitness, states[k].coverage,
             Sum(scores) / |states| as real, Sum(Coverages(states)) / |states| as real,
             BugCount(states), pop)
  }

  /** What every recorded generation shows, whatever happened to its
      objects afterwards. */
  predicate Recorded(st: GenStats, gen: int, n: nat) {
    st.generation == gen && |st.population| == n && st.bugDetections <= n &&
    st.avgFitness <= st.bestFitness.GetOr(0.0)
  }

  /** Entry g of a history records generation g of n individuals. */
  predicate Chronicle(h: seq<GenStats>, n: nat) {
    forall g :: 0 <= g < |h| ==> Recorded(h[g], g, n)
  }

  lemma ChronicleSnoc(h: seq<GenStats>, st: GenStats, n: nat)
    requires Chronicle(h, n) && Recorded(st, |h|, n)
    ensures Chronicle(h + [st], n)
  {
    forall g | 0 <= g < |h| + 1
      ensures Recorded((h + [st])[g], g, n)
    {
      if g < |h| {
        assert (h + [st])[g] == h[g];
      }
    }
  }

  /** The best fitness recorded is that of a member of the population, and
      no member scores higher. */
  predicate Describes(st: GenStats, pop: seq<Individual>)
    reads pop
  {
    (exists k :: 0 <= k < |pop| && st.bestFitness == pop[k].fitness) &&
    forall i :: 0 <= i < |pop| ==> Score(pop[i].State()) <= st.bestFitness.GetOr(0.0)
  }

  /** The statistics of a population record it as its generation and
      describe its best member. */
  lemma SummaryRecords(gen: int, pop: seq<Individual>)
    requires |pop| > 0
    ensures Recorded(Summary(gen, States(pop), pop), gen, |pop|)
    ensures Describes(Summary(gen, States(pop), pop), pop)
  {
    var st := Summary(gen, States(pop), pop);
    var k := FirstMax(Scores(States(pop)));
    assert st.bestFitness == pop[k].fitness;
  }

  /** The initial population: population_size fresh random individuals
      (none when the size is not positive, as `range` gives). */
  method InitialPopulation(problemId: string, size: int) returns (inds: seq<Individual>)
    ensures |inds| == Max(size, 0) && Distinct(inds)
    ensures forall i :: 0 <= i < |inds| ==>
      fresh(inds[i]) && Newborn(problemId, inds[i].State()) && inds[i].fitness.None?
  {
    inds := [];
    for i := 0 to Max(size, 0)
      invariant |inds| == i && Distinct(inds)
      invariant forall j :: 0 <= j < i ==>
        fresh(inds[j]) && Newborn(problemId, inds[j].State()) && inds[j].fitness.None?
    {
      var ind := InitRandomIndividual(problemId);
      inds := inds + [ind];
    }
  }

  /** Which parent the parent at even position i is paired with: the next
      one, or the first when i is the last. */
  function Partner(n: nat, i: nat): (j: nat)
    requires i < n
    ensures j < n && (j == i + 1 || j == 0)
  {
    if i + 1 < n then i + 1 else 0
  }

  /** Two children bred from parents a and b: their genes crossed (or
      copied) and then mutated, every other field copied from the parent
      on the same side. */
  ghost predicate Offspring(a: IndState, b: IndState, c1: IndState, c2: IndState) {
    c1 == a.(genes := c1.genes) && c2 == b.(genes := c2.genes) &&
    exists x1, x2 :: Crossed(a.genes, b.genes, x1, x2) && GenomeMutated(x1, c1.genes) && GenomeMutated(x2, c2.genes)
  }

  /** One pair of children: crossover with probability crossoverProb (a
      plain copy of both parents otherwise), then mutation of each. Dicts
      with the same keys, at most two and all different, never make
      crossover_structured fail. */
  method BreedPair(a: Individual, b: Individual, keys: seq<string>, crossoverProb: real)
    returns (c1: Individual, c2: Individual)
    requires |keys| <= 2 && forall i, j :: 0 <= i < j < |keys| ==> keys[i] != keys[j]
    requires Keys(a.genes) == keys && Keys(b.genes) == keys
    ensures fresh(c1) && fresh(c2) && c1 != c2
    ensures Keys(c1.genes) == keys && Keys(c2.genes) == keys
    ensures Offspring(a.State(), b.State(), c1.State(), c2.State())
  {
    var u: real :| 0.0 <= u < 1.0;
    var x1: Individual, x2: Individual;
    if u < crossoverProb {
      assert DistinctKeys(a.genes) by {
        assert forall p :: 0 <= p < |a.genes| ==> a.genes[p].0 == keys[p];
      }
      assert KeysCovered(a.genes, b.genes) by {
        assert forall p :: 0 <= p < |a.genes| ==> a.genes[p].0 == Keys(b.genes)[p];
      }
      var crossed := CrossoverStructured(a, b);
      assert crossed.Success?;
      x1, x2 := crossed.value.0, crossed.value.1;
    } else {
      x1 := a.Copy();
      x2 := b.Copy();
    }
    CrossedKeys(a.genes, b.genes, x1.genes, x2.genes);
    c1 := Mutate(x1);
    c2 := Mutate(x2);
  }

  /** Each pair of children so far came from the parent at its position and
      that parent's partner. */
  ghost predicate PairsBred(ps: seq<IndState>, cs: seq<IndState>) {
    forall p :: 0 <= p < |ps| && p + 1 < |cs| && p % 2 == 0 ==>
      Offspring(ps[p], ps[Partner(|ps|, p)], cs[p], cs[p + 1])
  }

  lemma ExtendPairs(ps: seq<IndState>, cs: seq<IndState>, s1: IndState, s2: IndState)
    requires |cs| % 2 == 0 && |cs| < |ps| && PairsBred(ps, cs)
    requires Offspring(ps[|cs|], ps[Partner(|ps|, |cs|)], s1, s2)
    ensures PairsBred(ps, cs + [s1, s2])
  {
    var next := cs + [s1, s2];
    forall p | 0 <= p < |ps| && p + 1 < |next| && p % 2 == 0
      ensures Offspring(ps[p], ps[Partner(|ps|, p)], next[p], next[p + 1])
    {
      if p < |cs| {
        assert p + 1 < |cs|;
        assert next[p] == cs[p] && next[p + 1] == cs[p + 1];
      }
    }
  }

  /** The children of all parents, two per pair, pairs taken in order
      (the parent at each even position with its partner). */
  method Breed(parents: seq<Individual>, keys: seq<string>, crossoverProb: real) returns (children: seq<Individual>)
    requires |keys| <= 2 && forall i, j :: 0 <= i < j < |keys| ==> keys[i] != keys[j]
    requires Keyed(parents, keys)
    ensures |children| == |parents| + |parents| % 2 && Distinct(children) && Keyed(children, keys)
    ensures forall j :: 0 <= j < |children| ==> fresh(children[j])
    ensures PairsBred(States(parents), States(children))
  {
    children := [];
    // one round per even position of range(0, len(parents), 2)
    for q := 0 to (|parents| + 1) / 2
      invariant |children| == 2 * q
      invariant Distinct(children) && Keyed(children, keys)
      invariant forall j :: 0 <= j < |children| ==> fresh(children[j])
      invariant PairsBred(States(parents), States(children))
    {
      children := BreedNext(parents, children, keys, crossoverProb);
    }
  }

  /** The children so far, followed by the pair bred from the next parent
      and its partner. */
  method BreedNext(parents: seq<Individual>, children: seq<Individual>, keys: seq<string>, crossoverProb: real)
    returns (next: seq<Individual>)
    requires |keys| <= 2 && forall i, j :: 0 <= i < j < |keys| ==> keys[i] != keys[j]
    requires Keyed(parents, keys) && |children| % 2 == 0 && |children| < |parents|
    requires Distinct(children) && Keyed(children, keys)
    requires PairsBred(States(parents), States(children))
    ensures |next| == |children| + 2 && next[..|children|] == children
    ensures fresh(next[|children|]) && fresh(next[|children| + 1])
    ensures Distinct(next) && Keyed(next, keys)
    ensures PairsBred(States(parents), States(next))
  {
    var i := |children|;
    var c1, c2 := BreedPair(parents[i], parents[Partner(|parents|, i)], keys, crossoverProb);
    ExtendPairs(States(parents), States(children), c1.State(), c2.State());
    AppendPair(children, c1, c2, keys);
    next := children + [c1, c2];
  }

  /** Appending two new, different children with the right keys. */
  lemma AppendPair(children: seq<Individual>, c1: Individual, c2: Individual, keys: seq<string>)
    requires Distinct(children) && Keyed(children, keys)
    requires c1 !in children && c2 !in children && c1 != c2
    requires Keys(c1.genes) == keys && Keys(c2.genes) == keys
    ensures Distinct(children + [c1, c2]) && Keyed(children + [c1, c2], keys)
    ensures States(children + [c1, c2]) == States(children) + [c1.State(), c2.State()]
  {
  }

  /** Every individual's genes have exactly the given keys, in order. */
  predicate Keyed(inds: seq<Individual>, keys: seq<string>)
    reads inds
  {
    forall i :: 0 <= i < |inds| ==> Keys(inds[i].genes) == keys
  }

  /** The first places of next hold copies of the elites get_elite picks
      among individuals in the states scored: the first n by score (a Python
      slice), best first, ties in population order. */
  predicate ElitesLead(next: seq<IndState>, scored: seq<IndState>, n: int) {
    var order := EliteOrder(Scores(scored), |scored|);
    SliceLen(|scored|, n) <= |next| &&
    forall j :: 0 <= j < SliceLen(|scored|, n) ==> next[j] == scored[order[j]]
  }

  /** Elites at the head of a list stay at the head of any list that
      starts with them. */
  lemma LeadingPrefix(elites: seq<Individual>, next: seq<Individual>, scored: seq<IndState>, n: int)
    requires ElitesLead(States(elites), scored, n)
    requires |elites| <= |next| && next[..|elites|] == elites
    ensures ElitesLead(States(next), scored, n)
  {
    assert forall j :: 0 <= j < |elites| ==> next[j] == elites[j];
  }

  /** Joining two lists of different objects. */
  lemma Join(a: seq<Individual>, b: seq<Individual>, keys: seq<string>)
    requires Distinct(a) && Distinct(b) && forall i, j :: 0 <= i < |a| && 0 <= j < |b| ==> a[i] != b[j]
    requires Keyed(a, keys) && Keyed(b, keys)
    ensures Distinct(a + b) && Keyed(a + b, keys)
  {
  }

  /** Each state of `now` is the one at the same place in `before`, scored
      by the evaluator. */
  predicate ScoredFrom(now: seq<IndState>, before: seq<IndState>, evaluator: IndState -> Outcome) {
    |now| == |before| &&
    forall i :: 0 <= i < |now| ==> now[i] == Evaluated(before[i], evaluator(before[i]))
  }

  /** The last entry of a history holds the given individuals and the
      summary of their current states. */
  predicate Closes(h: seq<GenStats>, last: seq<Individual>, states: seq<IndState>) {
    |h| > 0 && |states| > 0 && h[|h| - 1].population == last &&
    h[|h| - 1] == Summary(|h| - 1, states, last)
  }

  /** The last entry of a history that closes on a population describes it. */
  lemma ClosingDescribes(h: seq<GenStats>, last: seq<Individual>)
    requires Closes(h, last, States(last))
    ensures Describes(h[|h| - 1], last)
  {
    SummaryRecords(|h| - 1, last);
  }

  /** What run returns as best once the history closes on the last
      population: its first member of top score. */
  predicate Crowned(best: Individual, h: seq<GenStats>, last: seq<Individual>)
    reads last
  {
    Closes(h, last, States(last)) && best == last[FirstMax(Scores(States(last)))]
  }

  /** The crowned individual belongs to the last population, no member
      outscores it, and its score is the best fitness the last entry
      records. */
  lemma CrownedBest(best: Individual, h: seq<GenStats>, last: seq<Individual>)
    requires Crowned(best, h, last)
    ensures best in last && Score(best.State()) == h[|h| - 1].bestFitness.GetOr(0.0)
    ensures forall i :: 0 <= i < |last| ==> Score(last[i].State()) <= Score(best.State())
  {
    var k := FirstMax(Scores(States(last)));
    assert best == last[k];
  }

  /** A new population of the given individuals, scored by the evaluator,
      and its statistics. */
  method Assess(inds: seq<Individual>, keys: seq<string>, evaluator: IndState -> Outcome, gen: int)
    returns (population: Population, stats: GenStats)
    requires |inds| > 0 && Distinct(inds) && Keyed(inds, keys)
    modifies inds
    ensures population.individuals == inds && Keyed(inds, keys)
    ensures forall i :: 0 <= i < |inds| ==> inds[i].genes == old(inds[i].genes)
    ensures ScoredFrom(States(inds), old(States(inds)), evaluator)
    ensures stats == Summary(gen, States(inds), inds)
    ensures Recorded(stats, gen, |inds|) && stats.population == inds && Describes(stats, inds)
  {
    population := Scored(inds, keys, evaluator);
    stats := Summary(gen, States(population.individuals), population.individuals);
    SummaryRecords(gen, inds);
  }

  /** A new population of the given individuals, each scored by the
      evaluator; genes, and so their keys, are left as they were. */
  method Scored(inds: seq<Individual>, keys: seq<string>, evaluator: IndState -> Outcome)
    returns (population: Population)
    requires Distinct(inds) && Keyed(inds, keys)
    modifies inds
    ensures population.individuals == inds && Keyed(inds, keys)
    ensures forall i :: 0 <= i < |inds| ==>
      inds[i].genes == old(inds[i].genes) &&
      inds[i].State() == Evaluated(old(inds[i].State()), evaluator(old(inds[i].State())))
  {
    population := new Population(inds);
    population.Evaluate(evaluator);
    forall i | 0 <= i < |inds|
      ensures Keys(inds[i].genes) == keys
    {
      assert inds[i].genes == old(inds[i].genes);
    }
  }

  class GAEngine<O(==)> {
    var problemId: string
    var populationSize: int
    var generations: int
    var crossoverProb: real
    var mutationProb: real
    /** Called with an individual's fields, the problem id and the problem map. */
    var evaluator: (IndState, string, Option<map<string, Target<O>>>) -> Outcome
    var config: Config<O>

    constructor (problemId: string, populationSize: int, generations: int, crossoverProb: real,
                 mutationProb: real, evaluator: (IndState, string, Option<map<string, Target<O>>>) -> Outcome,
                 config: Config<O>)
      ensures this.problemId == problemId && this.populationSize == populationSize
      ensures this.generations == generations && this.crossoverProb == crossoverProb
      ensures this.mutationProb == mutationProb && this.evaluator == evaluator && this.config == config
    {
      this.problemId := problemId;
      this.populationSize := populationSize;
      this.generations := generations;
      this.crossoverProb := crossoverProb;
      this.mutationProb := mutationProb;
      this.evaluator := evaluator;
      this.config := config;
    }

    function EliteCount(): int
      reads this
    {
      config.elitism.GetOr(2)
    }

    /** The engine's evaluator bound to its problem id and problem map. */
    function EngineEvaluator(): IndState -> Outcome
      reads this
    {
      var ev, pid, problems := evaluator, problemId, config.problemMap;
      (s: IndState) => ev(s, pid, problems)
    }

    function TournamentSize(): int
      reads this
    {
      config.tournamentSize.GetOr(5)
    }

    /** The tournament cannot draw its samples: parents are wanted beyond
        the elites, but the tournament size is not in 1..population_size. */
    predicate TournamentFails()
      reads this
    {
      var n := Max(populationSize, 0);
      populationSize - SliceLen(n, EliteCount()) > 0 && !(0 < TournamentSize() <= n)
    }

    /** The individuals of the next generation, before they are scored:
        evaluate with evaluate_individual, keep the elites, hold the
        tournament for the remaining places, breed, and put the elites
        first. The population keeps its size. */
    method Reproduce(population: Population) returns (r: Result<seq<Individual>>, ghost scored: seq<IndState>)
      requires |population.individuals| == Max(populationSize, 0) && Distinct(population.individuals)
      requires Keyed(population.individuals, KeysFor(problemId))
      modifies population.individuals
      ensures r.Failure? <==> TournamentFails()
      ensures r.Failure? ==> r.error == ValueError
      ensures r.Success? ==>
        |r.value| == Max(populationSize, 0) && Distinct(r.value) && Keyed(r.value, KeysFor(problemId))
      ensures r.Success? ==> forall i :: 0 <= i < |r.value| ==> fresh(r.value[i])
      ensures r.Success? ==> ElitesLead(States(r.value), scored, EliteCount())
      ensures ScoredFrom(scored, old(States(population.individuals)), CoverageEvaluator(config.problemMap, problemId))
      ensures States(population.individuals) == scored
    {
      KeysForDistinct(problemId);
      var elites;
      elites, scored := Elites(population);
      label chosen:
      r := Replenish(population, elites);
      StatesKept@chosen(population.individuals);
      if r.Success? {
        LeadingPrefix(elites, r.value, scored, EliteCount());
        forall i | 0 <= i < |elites| ensures fresh(r.value[i]) {
          assert r.value[i] == r.value[..|elites|][i];
        }
      }
    }

    /** get_elite on the population scored by evaluate_individual: copies of
        the first elitism individuals by score, best first. */
    method Elites(population: Population) returns (elites: seq<Individual>, ghost scored: seq<IndState>)
      requires |population.individuals| == Max(populationSize, 0) && Distinct(population.individuals)
      requires Keyed(population.individuals, KeysFor(problemId))
      modifies population.individuals
      ensures |population.individuals| == Max(populationSize, 0)
      ensures Keyed(population.individuals, KeysFor(problemId))
      ensures |elites| == SliceLen(Max(populationSize, 0), EliteCount()) && Distinct(elites)
      ensures Keyed(elites, KeysFor(problemId))
      ensures forall i :: 0 <= i < |elites| ==> fresh(elites[i])
      ensures ElitesLead(States(elites), scored, EliteCount())
      ensures ScoredFrom(scored, old(States(population.individuals)), CoverageEvaluator(config.problemMap, problemId))
      ensures States(population.individuals) == scored
    {
      population.Evaluate(CoverageEvaluator(config.problemMap, problemId));
      label evaluated:
      scored := States(population.individuals);
      elites := population.GetElite(EliteCount());
      StatesKept@evaluated(population.individuals);
      assert population.Fitnesses() == Scores(scored);
    }

    /** The places after the elites: a tournament for each, then breeding of
        the winners, cut to the places left; the elites come first. */
    method Replenish(population: Population, elites: seq<Individual>) returns (r: Result<seq<Individual>>)
      requires |population.individuals| == Max(populationSize, 0)
      requires |elites| == SliceLen(Max(populationSize, 0), EliteCount()) && Distinct(elites)
      requires Keyed(population.individuals, KeysFor(problemId)) && Keyed(elites, KeysFor(problemId))
      requires forall i, j :: 0 <= i < j < |KeysFor(problemId)| ==> KeysFor(problemId)[i] != KeysFor(problemId)[j]
      ensures r.Failure? <==> TournamentFails()
      ensures r.Failure? ==> r.error == ValueError
      ensures r.Success? ==>
        |r.value| == Max(populationSize, 0) && Distinct(r.value) && Keyed(r.value, KeysFor(problemId))
      ensures r.Success? ==> r.value[..|elites|] == elites
      ensures r.Success? ==> forall i :: |elites| <= i < |r.value| ==> fresh(r.value[i])
    {
      var size, keys := populationSize, KeysFor(problemId);
      var selected := population.SelectTournament(size - |elites|, TournamentSize());
      if selected.Failure? {
        return Failure(selected.error);
      }
      var parents := selected.value;
      assert Keyed(parents, keys);
      var children := Breed(parents, keys, crossoverProb);
      var kept := children[..SliceLen(|children|, size - |elites|)];
      forall j | 0 <= j < |kept| ensures kept[j] == children[j] && Keys(kept[j].genes) == keys {
      }
      Join(elites, kept, keys);
      r := Success(elites + kept);
      assert r.value[..|elites|] == elites;
      forall i | |elites| <= i < |r.value| ensures fresh(r.value[i]) {
        assert r.value[i] == children[i - |elites|];
      }
    }

    /** One generation: the current population scored by
        evaluate_individual (`scored`: its states then), the next
        individuals (`bred`: their states before scoring, the elites first)
        scored by the engine's evaluator, and the statistics recorded for
        them; `max` of an empty population raises ValueError. */
    method Generation(population: Population, gen: int)
      returns (r: Result<(Population, GenStats)>, ghost scored: seq<IndState>, ghost bred: seq<IndState>)
      requires |population.individuals| == Max(populationSize, 0) && Distinct(population.individuals)
      requires Keyed(population.individuals, KeysFor(problemId))
      modifies population.individuals
      ensures r.Failure? <==> TournamentFails() || populationSize <= 0
      ensures r.Failure? ==> r.error == ValueError
      ensures ScoredFrom(scored, old(States(population.individuals)),
                         CoverageEvaluator(config.problemMap, problemId))
      ensures r.Success? ==>
        var (next, stats) := r.value;
        |next.individuals| == populationSize && Distinct(next.individuals) &&
        Keyed(next.individuals, KeysFor(problemId)) &&
        (forall i :: 0 <= i < |next.individuals| ==> fresh(next.individuals[i])) &&
        Recorded(stats, gen, populationSize) && stats.population == next.individuals &&
        Describes(stats, next.individuals)
      ensures r.Success? ==>
        var (next, stats) := r.value;
        stats == Summary(gen, States(next.individuals), next.individuals) &&
        ElitesLead(bred, scored, EliteCount()) &&
        ScoredFrom(States(next.individuals), bred, EngineEvaluator())
    {
      var next;
      next, scored := Reproduce(population);
      if next.Failure? {
        return Failure(next.error), scored, [];
      }
      if |next.value| == 0 {
        // evaluating no individuals changes nothing; `max` then raises
        return Failure(ValueError), scored, [];
      }
      bred := States(next.value);
      var nextPopulation, stats := Assess(next.value, KeysFor(problemId), EngineEvaluator(), gen);
      return Success((nextPopulation, stats)), scored, bred;
    }

    /** run: ValueError when the population is empty (`max` of nothing) or
        when the tournament cannot be held; otherwise one history entry per
        generation and the first individual of top score in the last
        population, which is the one the last entry describes. Crossover
        never raises, since every genome has the problem's keys. */
    method Run() returns (r: Result<RunOutput>)
      ensures r.Failure? <==> populationSize <= 0 || (generations > 0 && TournamentFails())
      ensures r.Failure? ==> r.error == ValueError
      ensures r.Success? ==>
        var h := r.value.history;
        |h| == Max(generations, 0) &&
        Chronicle(h, Max(populationSize, 0)) &&
        fresh(r.value.best) && Keys(r.value.best.genes) == KeysFor(problemId)
      ensures r.Success? && generations <= 0 ==>
        r.value.best.fitness.None? && Newborn(problemId, r.value.best.State())
      ensures r.Success? && generations > 0 ==>
        Crowned(r.value.best, r.value.history, r.value.history[generations - 1].population)
    {
      var evolved, states := Grow();
      if evolved.Failure? {
        return Failure(evolved.error);
      }
      r := Finish(evolved.value.0, evolved.value.1, states);
    }

    /** The end of run: `max` raises ValueError on an empty population;
        otherwise the first individual of top score in the last population,
        which the last history entry describes. */
    method Finish(last: Population, history: seq<GenStats>, ghost states: seq<IndState>)
      returns (r: Result<RunOutput>)
      requires |last.individuals| == Max(populationSize, 0) && Keyed(last.individuals, KeysFor(problemId))
      requires States(last.individuals) == states
      requires generations > 0 ==> |history| == generations && Closes(history, last.individuals, states)
      requires generations <= 0 ==> AllNewborn(problemId, states)
      ensures r.Failure? <==> populationSize <= 0
      ensures r.Failure? ==> r.error == ValueError
      ensures r.Success? ==>
        r.value.history == history && r.value.best in last.individuals &&
        Keys(r.value.best.genes) == KeysFor(problemId) &&
        r.value.best == last.individuals[FirstMax(Scores(States(last.individuals)))]
      ensures r.Success? && generations <= 0 ==>
        r.value.best.fitness.None? && Newborn(problemId, r.value.best.State())
      ensures r.Success? && generations > 0 ==>
        Crowned(r.value.best, r.value.history, r.value.history[generations - 1].population)
    {
      if |last.individuals| == 0 {
        return Failure(ValueError);
      }
      var k := last.Best();
      if generations <= 0 {
        NewbornMember(problemId, states, k);
      }
      r := Success(RunOutput(last.individuals[k], history));
    }

    /** The first population of run: population_size fresh, unscored
        individuals carrying the problem's keys. */
    method Seed() returns (population: Population)
      ensures fresh(population) && |population.individuals| == Max(populationSize, 0)
      ensures Distinct(population.individuals) && Keyed(population.individuals, KeysFor(problemId))
      ensures forall i :: 0 <= i < |population.individuals| ==>
        fresh(population.individuals[i]) && population.individuals[i].fitness.None?
      ensures AllNewborn(problemId, States(population.individuals))
    {
      var initial := InitialPopulation(problemId, populationSize);
      population := new Population(initial);
      EveryNewborn(problemId, States(population.individuals));
    }

    /** The first half of run: seed the population and evolve it. The last
        population is fresh; with no generation it is the seeded one. */
    method Grow() returns (r: Result<(Population, seq<GenStats>)>, ghost states: seq<IndState>)
      ensures r.Failure? <==> generations > 0 && (populationSize <= 0 || TournamentFails())
      ensures r.Failure? ==> r.error == ValueError
      ensures r.Success? ==>
        var (last, h) := r.value;
        |h| == Max(generations, 0) && Chronicle(h, Max(populationSize, 0)) &&
        |last.individuals| == Max(populationSize, 0) && Keyed(last.individuals, KeysFor(problemId)) &&
        forall i :: 0 <= i < |last.individuals| ==> fresh(last.individuals[i])
      ensures r.Success? ==> States(r.value.0.individuals) == states
      ensures r.Success? && generations > 0 ==> Closes(r.value.1, r.value.0.individuals, states)
      ensures r.Success? && generations <= 0 ==> AllNewborn(problemId, states)
    {
      KeysForDistinct(problemId);
      var population := Seed();
      r := Evolve(population);
      states := if r.Success? then States(r.value.0.individuals) else [];
    }

    /** The generation loop of run, from a population of unscored
        individuals with the problem's keys. */
    method Evolve(population: Population) returns (r: Result<(Population, seq<GenStats>)>)
      requires |population.individuals| == Max(populationSize, 0) && Distinct(population.individuals)
      requires Keyed(population.individuals, KeysFor(problemId))
      requires forall i :: 0 <= i < |population.individuals| ==> population.individuals[i].fitness.None?
      requires AllNewborn(problemId, States(population.individuals))
      requires forall i, j :: 0 <= i < j < |KeysFor(problemId)| ==> KeysFor(problemId)[i] != KeysFor(problemId)[j]
      modifies population.individuals
      ensures r.Failure? <==> generations > 0 && (populationSize <= 0 || TournamentFails())
      ensures r.Failure? ==> r.error == ValueError
      ensures r.Success? ==>
        var (last, h) := r.value;
        |h| == Max(generations, 0) && Chronicle(h, Max(populationSize, 0)) &&
        |last.individuals| == Max(populationSize, 0) && Keyed(last.individuals, KeysFor(problemId))
      ensures r.Success? && generations <= 0 ==>
        r.value.0.individuals == population.individuals &&
        (forall i :: 0 <= i < |population.individuals| ==> population.individuals[i].fitness.None?) &&
        AllNewborn(problemId, States(population.individuals))
      ensures r.Success? && generations > 0 ==>
        var (last, h) := r.value;
        (forall i :: 0 <= i < |last.individuals| ==> fresh(last.individuals[i])) &&
        Closes(h, last.individuals, States(last.individuals))
    {
      if generations <= 0 {
        // range(generations) is empty: nothing is evaluated
        return Success((population, []));
      }
      var current := population;
      var history: seq<GenStats> := [];
      var n := Max(populationSize, 0);
      ghost var lastStates: seq<IndState> := [];
      for gen := 0 to generations
        invariant |current.individuals| == n && Distinct(current.individuals)
        invariant Keyed(current.individuals, KeysFor(problemId))
        invariant gen == 0 ==> current == population
        invariant gen > 0 ==> forall i :: 0 <= i < n ==> fresh(current.individuals[i])
        invariant |history| == gen && Chronicle(history, n)
        invariant gen > 0 ==> n > 0 && !TournamentFails()
        invariant gen > 0 ==> States(current.individuals) == lastStates && Closes(history, current.individuals, lastStates)
      {
        var step;
        step, lastStates := Advance(current, history, gen);
        if step.Failure? {
          return Failure(step.error);
        }
        current, history := step.value.0, step.value.1;
      }
      return Success((current, history));
    }
  
    /** One pass of the generation loop: generation gen, its entry
        appended to the history of the earlier ones. */
    method Advance(current: Population, history: seq<GenStats>, gen: int)
      returns (r: Result<(Population, seq<GenStats>)>, ghost states: seq<IndState>)
      requires |current.individuals| == Max(populationSize, 0) && Distinct(current.individuals)
      requires Keyed(current.individuals, KeysFor(problemId))
      requires |history| == gen && Chronicle(history, Max(populationSize, 0))
      modifies current.individuals
      ensures r.Failure? <==> TournamentFails() || populationSize <= 0
      ensures r.Failure? ==> r.error == ValueError
      ensures r.Success? ==>
        var (next, h) := r.value;
        |next.individuals| == Max(populationSize, 0) && Distinct(next.individuals) &&
        Keyed(next.individuals, KeysFor(problemId)) &&
        (forall i :: 0 <= i < |next.individuals| ==> fresh(next.individuals[i])) &&
        |h| == gen + 1 && Chronicle(h, Max(populationSize, 0)) &&
        States(next.individuals) == states && Closes(h, next.individuals, states)
    {
      var step, _, _ := Generation(current, gen);
      if step.Failure? {
        return Failure(step.error), [];
      }
      var (next, stats) := step.value;
      states := States(next.individuals);
      ChronicleSnoc(history, stats, Max(populationSize, 0));
      r := Success((next, history + [stats]));
    }
  }
}
