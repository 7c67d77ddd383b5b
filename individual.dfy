/** A candidate test input: its genes and the scores the last evaluation
    left on it. */
module Individuals {
  import opened PyBase
  import opened Genes

  /** A snapshot of an individual's fields. */
  datatype IndState = IndState(genes: Genome, fitness: Option<real>, coverage: real,
                               failures: int, detectedBug: bool)

  /** `ind.fitness or 0`, the key every selection and statistic ranks by. */
  function Score(s: IndState): real {
    s.fitness.GetOr(0.0)
  }

  /** `a < b`: compares fitness, and Python refuses `None < x` with a TypeError. */
  function Less(a: IndState, b: IndState): (r: Result<bool>)
    ensures r.Failure? <==> a.fitness.None? || b.fitness.None?
    ensures r.Failure? ==> r.error == TypeError
    ensures r.Success? ==> (r.value <==> Score(a) < Score(b))
  {
    if a.fitness.None? || b.fitness.None? then Failure(TypeError)
    else Success(a.fitness.value < b.fitness.value)
  }

  /** Wherever it is defined, `<` is a strict order that looks at fitness only. */
  lemma LessIsStrictOrder(a: IndState, b: IndState, c: IndState)
    ensures Less(a, a) != Success(true)
    ensures Less(a, b) == Success(true) ==> Less(b, a) == Success(false)
    ensures Less(a, b) == Success(true) && Less(b, c) == Success(true) ==> Less(a, c) == Success(true)
    ensures Less(a, b) == Less(a.(genes := c.genes, coverage := c.coverage, failures := c.failures,
                                  detectedBug := c.detectedBug), b)
  {
  }

  /** The dict an evaluator returns; None marks a missing key. */
  datatype Report = Report(fitness: Option<real>, coverage: Option<real>,
                           failures: Option<int>, detectedBug: Option<bool>)

  /** An evaluator either returns a report or raises. */
  datatype Outcome = Returned(report: Report) | Raised

  class Individual {
    var genes: Genome
    var fitness: Option<real>
    var coverage: real
    var failures: int
    var detectedBug: bool

    function State(): IndState
      reads this
    {
      IndState(genes, fitness, coverage, failures, detectedBug)
    }

    /** A fresh individual: not yet scored, no coverage, no failures. */
    constructor (genes: Genome)
      ensures State() == IndState(genes, None, 0.0, 0, false)
    {
      this.genes := genes;
      fitness := None;
      coverage := 0.0;
      failures := 0;
      detectedBug := false;
    }

    /** `copy` (and its alias `clone`): a deep copy, a new object with the same
        fields; the genes are a value, so nothing is shared with the original. */
    method Copy() returns (c: Individual)
      ensures fresh(c) && c.State() == State()
    {
      c := new Individual(genes);
      c.fitness := fitness;
      c.coverage := coverage;
      c.failures := failures;
      c.detectedBug := detectedBug;
    }
  }

  /** The fields of a list of individuals. */
  function States(inds: seq<Individual>): (r: seq<IndState>)
    reads inds
    ensures |r| == |inds| && forall i :: 0 <= i < |inds| ==> r[i] == inds[i].State()
  {
    seq(|inds|, i reads inds requires 0 <= i < |inds| => inds[i].State())
  }

  /** Individuals none of whose fields changed keep their states. */
  twostate lemma StatesKept(inds: seq<Individual>)
    requires unchanged(inds)
    ensures States(inds) == old(States(inds))
  {
  }

  function Scores(states: seq<IndState>): (r: seq<real>)
    ensures |r| == |states| && forall i :: 0 <= i < |states| ==> r[i] == Score(states[i])
  {
    seq(|states|, i requires 0 <= i < |states| => Score(states[i]))
  }

  /** No object appears twice in the list. */
  predicate Distinct(inds: seq<Individual>) {
    forall i, j :: 0 <= i < j < |inds| ==> inds[i] != inds[j]
  }

  /** Appending an object not yet in a list keeps the list free of repeats. */
  lemma DistinctSnoc(inds: seq<Individual>, c: Individual)
    requires Distinct(inds) && c !in inds
    ensures Distinct(inds + [c])
  {
  }
}
