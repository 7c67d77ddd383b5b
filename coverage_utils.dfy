/** The fitness function: run the function under test on an individual's
    genes under coverage measurement, compare its output with the problem's
    oracle, and score coverage plus a large bonus for a failure. */
module CoverageUtils {
  import opened PyBase
  import opened Genes
  import opened Individuals
  import opened Populations

  /** What run_with_coverage reports about one call of the function under test. */
  datatype RunReport<O> = RunReport(output: O, execSuccess: bool, percent: real)

  /** One problem_map entry: the oracle (None when it raises) and the
      measured run of the defective implementation. */
  datatype Target<O> = Target(oracle: seq<Value> -> Option<O>, run: seq<Value> -> RunReport<O>)

  const FailureWeight: real := 50.0

  /** The coverage percentage and failure count evaluate_individual settles
      on for the arguments `args` (the genes' values, passed positionally). */
  function Classify<O(==)>(problems: Option<map<string, Target<O>>>, problemId: string,
                           args: seq<Value>): (r: (real, int))
    ensures r.1 == 0 || r.1 == 1
    // No problem map, or no entry for the problem: one failure, no coverage.
    ensures problems.None? || problemId !in problems.value ==> r == (0.0, 1)
    ensures problems.Some? && problemId in problems.value ==>
      var target := problems.value[problemId];
      var run := target.run(args);
      r.0 == run.percent &&
      // A crash of the function under test is a failure, whatever the oracle says.
      (!run.execSuccess ==> r.1 == 1) &&
      // An oracle that raises cannot show a wrong answer.
      (run.execSuccess && target.oracle(args).None? ==> r.1 == 0) &&
      (run.execSuccess && target.oracle(args).Some? ==> (r.1 == 1 <==> run.output != target.oracle(args).value))
  {
    if problems.None? || problemId !in problems.value then (0.0, 1)
    else
      var target := problems.value[problemId];
      var expected := target.oracle(args);
      var result := target.run(args);
      var failures :=
        if !result.execSuccess then 1
        else if expected.Some? && result.execSuccess && result.output != expected.value then 1
        else 0;
      (result.percent, failures)
  }

  /** The dict evaluate_individual returns for genes g. */
  function EvaluationReport<O(==)>(problems: Option<map<string, Target<O>>>, problemId: string,
                                   g: Genome): (r: Report)
    ensures r.fitness.Some? && r.coverage.Some? && r.failures.Some? && r.detectedBug.Some?
    ensures r.fitness.value == r.coverage.value + FailureWeight * r.failures.value as real
    ensures r.detectedBug.value <==> r.failures.value == 1
  {
    var (coverage, failures) := Classify(problems, problemId, Values(g));
    Report(Some(coverage + FailureWeight * failures as real), Some(coverage), Some(failures), Some(failures > 0))
  }

  /** evaluate_individual: scores ind, writes fitness, coverage and
      detected_bug on it (but not failures) and returns the scores as a dict. */
  method EvaluateIndividual<O(==)>(ind: Individual, problemId: string,
                                   problems: Option<map<string, Target<O>>>) returns (r: Report)
    modifies ind
    ensures r == EvaluationReport(problems, problemId, old(ind.genes))
    ensures ind.State() == old(ind.State()).(fitness := r.fitness, coverage := r.coverage.value,
                                             detectedBug := r.detectedBug.value)
  {
    var args := Values(ind.genes);
    var coverage: real, failures: int;
    if problems.None? || problemId !in problems.value {
      coverage, failures := 0.0, 1;
    } else {
      var target := problems.value[problemId];
      var expected := target.oracle(args);
      var result := target.run(args);
      coverage := result.percent;
      if !result.execSuccess {
        failures := 1;
      } else if expected.Some? && result.execSuccess && result.output != expected.value {
        failures := 1;
      } else {
        failures := 0;
      }
    }
    var fitness := coverage + FailureWeight * failures as real;
    ind.fitness := Some(fitness);
    ind.coverage := coverage;
    ind.detectedBug := failures > 0;
    r := Report(Some(fitness), Some(coverage), Some(failures), Some(failures > 0));
  }

  /** The evaluator the engine hands to evaluate first: evaluate_individual
      seen through the dict it returns. */
  function CoverageEvaluator<O(==)>(problems: Option<map<string, Target<O>>>, problemId: string): IndState -> Outcome {
    (s: IndState) => Returned(EvaluationReport(problems, problemId, s.genes))
  }

  /** The fields evaluate_individual writes itself are overwritten by
      evaluate from the dict it returns, so evaluating an individual with it
      ends in the same state whether or not those first writes happened;
      the result is the classification: fitness is the coverage, plus 50
      exactly when a failure was seen, and the bug flag marks that failure. */
  lemma CoverageEvaluation<O>(problems: Option<map<string, Target<O>>>, problemId: string,
                                  s: IndState, written: IndState)
    requires written == s.(fitness := EvaluationReport(problems, problemId, s.genes).fitness,
                           coverage := EvaluationReport(problems, problemId, s.genes).coverage.value,
                           detectedBug := EvaluationReport(problems, problemId, s.genes).detectedBug.value)
    ensures Evaluated(written, CoverageEvaluator(problems, problemId)(written))
         == Evaluated(s, CoverageEvaluator(problems, problemId)(s))
    ensures var e := Evaluated(s, CoverageEvaluator(problems, problemId)(s));
            var (coverage, failures) := Classify(problems, problemId, Values(s.genes));
            e.genes == s.genes && e.coverage == coverage && e.failures == failures &&
            (e.detectedBug <==> failures == 1) &&
            e.fitness == Some(if failures == 1 then coverage + 50.0 else coverage)
  {
  }
}
