/** Genomes: the keyword arguments an individual hands to the function under
    test, as a Python dict from parameter names to values, kept in insertion
    order because the evaluator passes the values positionally. */
module Genes {
  import opened PyBase

  /** The gene values the generators and operators produce. */
  datatype Value = Int(i: int) | Str(s: string) | List(items: seq<Value>) | Tuple(items: seq<Value>)

  /** A dict from parameter names to values, in insertion order. */
  type Genome = seq<(string, Value)>

  function Keys(g: Genome): seq<string> {
    seq(|g|, i requires 0 <= i < |g| => g[i].0)
  }

  /** `genes.values()`, in key order. */
  function Values(g: Genome): seq<Value> {
    seq(|g|, i requires 0 <= i < |g| => g[i].1)
  }

  predicate DistinctKeys(g: Genome) {
    forall i, j :: 0 <= i < j < |g| ==> g[i].0 != g[j].0
  }

  /** Where key k sits in the dict, if it is there. */
  function Find(g: Genome, k: string): (r: Option<nat>)
    ensures r.Some? ==> r.value < |g| && g[r.value].0 == k
    ensures r.None? <==> forall i :: 0 <= i < |g| ==> g[i].0 != k
    ensures r.None? <==> k !in Keys(g)
  {
    if |g| == 0 then None
    else if g[0].0 == k then assert Keys(g)[0] == k; Some(0)
    else match Find(g[1..], k)
      case Some(i) => assert Keys(g)[i + 1] == k; Some(i + 1)
      case None => None
  }

  /** `g[k]`: the value under key k, or KeyError. */
  function Lookup(g: Genome, k: string): (r: Result<Value>)
    ensures r.Failure? <==> k !in Keys(g)
    ensures r.Failure? ==> r.error == KeyError
    ensures r.Success? ==> exists i :: 0 <= i < |g| && g[i] == (k, r.value)
  {
    match Find(g, k)
    case Some(i) => Success(g[i].1)
    case None => Failure(KeyError)
  }

  /** With distinct keys, the value at position i is what key g[i].0 looks up. */
  lemma LookupAt(g: Genome, i: int)
    requires DistinctKeys(g) && 0 <= i < |g|
    ensures Lookup(g, g[i].0) == Success(g[i].1)
  {
    assert g[i].0 in Keys(g) by {
      assert Keys(g)[i] == g[i].0;
    }
    var j := Find(g, g[i].0).value;
    assert j == i;
  }
}
