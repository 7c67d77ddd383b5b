/** The genetic operators: building a random individual for a problem,
    crossover of two parents, and mutation of one. Every `random.*` call is
    a choice left open (`:|`), so each contract holds whatever is drawn. */
module Operators {
  import opened PyBase
  import opened Genes
  import opened Individuals
  import opened RandomGenerator

  /** The argument names of each problem's function under test, in order;
      any other problem id gets the single key "value". */
  function KeysFor(problemId: string): (ks: seq<string>)
    ensures 1 <= |ks| <= 2
  {
    match problemId
    case "edit_distance" => ["word1", "word2"]
    case "maximal_rectangle" => ["matrix"]
    case "reverse_pairs" => ["nums"]
    case "median_two_arrays" => ["nums1", "nums2"]
    case "search_rotated" => ["nums", "target"]
    case "decode_ways" => ["s"]
    case _ => ["value"]
  }

  /** The problems init_random_individual has a generator for; note that
      "test_branch" is not among them and falls back to {"value": ...}. */
  const InitProblems: set<string> := {"edit_distance", "maximal_rectangle", "reverse_pairs",
    "median_two_arrays", "search_rotated", "decode_ways"}

  /** A genome init_random_individual can build for the problem. */
  predicate Initial(problemId: string, g: Genome) {
    Keys(g) == KeysFor(problemId) &&
    (problemId in InitProblems ==> Generated(problemId, Values(g))) &&
    (problemId !in InitProblems ==> g[0].1.Int? && 0 <= g[0].1.i <= 100)
  }

  /** What init_random_individual returns: an initial genome for the problem
      and the fields the constructor sets, with nothing scored yet. */
  predicate Newborn(problemId: string, s: IndState) {
    Initial(problemId, s.genes) && s == IndState(s.genes, None, 0.0, 0, false)
  }

  /** A population as init_random_individual built it, untouched since. */
  predicate AllNewborn(problemId: string, states: seq<IndState>)
    decreases |states|
  {
    |states| == 0 || (Newborn(problemId, states[0]) && AllNewborn(problemId, states[1..]))
  }

  lemma {:induction false} NewbornMember(problemId: string, states: seq<IndState>, k: int)
    requires AllNewborn(problemId, states) && 0 <= k < |states|
    ensures Newborn(problemId, states[k])
  {
    if k > 0 {
      NewbornMember(problemId, states[1..], k - 1);
    }
  }

  lemma {:induction false} EveryNewborn(problemId: string, states: seq<IndState>)
    requires forall i :: 0 <= i < |states| ==> Newborn(problemId, states[i])
    ensures AllNewborn(problemId, states)
  {
    if |states| > 0 {
      EveryNewborn(problemId, states[1..]);
    }
  }

  function Zip(keys: seq<string>, values: seq<Value>): (g: Genome)
    requires |keys| == |values|
    ensures Keys(g) == keys && Values(g) == values
  {
    seq(|keys|, i requires 0 <= i < |keys| => (keys[i], values[i]))
  }

  /** init_random_individual: a fresh, unscored individual whose genes name
      the problem's arguments and hold what that problem's generator drew
      (the branches call the same generators that RandomInput dispatches to). */
  method InitRandomIndividual(problemId: string) returns (ind: Individual)
    ensures fresh(ind)
    ensures ind.fitness == None && ind.coverage == 0.0 && ind.failures == 0 && !ind.detectedBug
    ensures Initial(problemId, ind.genes)
  {
    if problemId in InitProblems {
      var args := RandomInput(problemId);
      ind := new Individual(Zip(KeysFor(problemId), args));
    } else {
      var v :| 0 <= v <= 100;
      ind := new Individual(Zip(["value"], [Int(v)]));
    }
  }

  /** The problem genomes have distinct keys. */
  lemma KeysForDistinct(problemId: string)
    ensures forall i, j :: 0 <= i < j < |KeysFor(problemId)| ==> KeysFor(problemId)[i] != KeysFor(problemId)[j]
  {
  }

  /** Every key of A is a key of B: uniform crossover finds `B[key]`. */
  predicate KeysCovered(a: Genome, b: Genome) {
    forall i :: 0 <= i < |a| ==> a[i].0 in Keys(b)
  }

  /** The children of uniform crossover: in A's key order, each key takes A's
      value in one child and B's in the other. */
  predicate UniformChildren(a: Genome, b: Genome, c1: Genome, c2: Genome)
    requires KeysCovered(a, b)
  {
    |c1| == |a| && |c2| == |a| &&
    forall i :: 0 <= i < |a| ==>
      c1[i].0 == a[i].0 && c2[i].0 == a[i].0 &&
      ((c1[i].1 == a[i].1 && c2[i].1 == Lookup(b, a[i].0).value) ||
       (c1[i].1 == Lookup(b, a[i].0).value && c2[i].1 == a[i].1))
  }

  /** The genes crossover_structured can give its two children: the
      parents' own, or a uniform recombination. */
  predicate Crossed(a: Genome, b: Genome, c1: Genome, c2: Genome) {
    (c1 == a && c2 == b) || (KeysCovered(a, b) && UniformChildren(a, b, c1, c2))
  }

  /** Uniform crossover keeps A's keys, in A's order, in both children. */
  lemma {:induction false} CrossedKeys(a: Genome, b: Genome, c1: Genome, c2: Genome)
    requires Keys(b) == Keys(a) && Crossed(a, b, c1, c2)
    ensures Keys(c1) == Keys(a) && Keys(c2) == Keys(a)
  {
    if !(c1 == a && c2 == b) {
      assert forall i :: 0 <= i < |a| ==> Keys(c1)[i] == Keys(a)[i] && Keys(c2)[i] == Keys(a)[i];
    }
  }

  /** crossover_structured: copies of the parents keeping their scores, with
      genes recombined. Uniform crossover raises KeyError when a key of A is
      missing from B; the two-point path slices a dict, so it returns the
      plain copies when a parent has fewer than three genes and raises
      TypeError otherwise. */
  method CrossoverStructured(indA: Individual, indB: Individual) returns (r: Result<(Individual, Individual)>)
    requires DistinctKeys(indA.genes)
    ensures r.Success? ==> fresh(r.value.0) && fresh(r.value.1) && r.value.0 != r.value.1
    ensures r.Success? ==>
      r.value.0.State() == indA.State().(genes := r.value.0.genes) &&
      r.value.1.State() == indB.State().(genes := r.value.1.genes)
    ensures r.Success? ==> Crossed(indA.genes, indB.genes, r.value.0.genes, r.value.1.genes)
    ensures r.Failure? ==>
      (r.error == KeyError && !KeysCovered(indA.genes, indB.genes)) ||
      (r.error == TypeError && Min(|indA.genes|, |indB.genes|) >= 3)
    ensures KeysCovered(indA.genes, indB.genes) && Min(|indA.genes|, |indB.genes|) < 3 ==> r.Success?
  {
    var a, b := indA.genes, indB.genes;
    var newA := indA.Copy();
    var newB := indB.Copy();
    var uniform: bool :| true;
    if uniform {
      var child1: Genome, child2: Genome := [], [];
      for i := 0 to |a|
        invariant |child1| == i && |child2| == i
        invariant forall j :: 0 <= j < i ==> a[j].0 in Keys(b)
        invariant forall j :: 0 <= j < i ==>
          child1[j].0 == a[j].0 && child2[j].0 == a[j].0 &&
          ((child1[j].1 == a[j].1 && child2[j].1 == Lookup(b, a[j].0).value) ||
           (child1[j].1 == Lookup(b, a[j].0).value && child2[j].1 == a[j].1))
      {
        var key := a[i].0;
        var fromB := Lookup(b, key);
        if fromB.Failure? {
          return Failure(KeyError);
        }
        var keep: bool :| true;
        if keep {
          child1, child2 := child1 + [(key, a[i].1)], child2 + [(key, fromB.value)];
        } else {
          child1, child2 := child1 + [(key, fromB.value)], child2 + [(key, a[i].1)];
        }
      }
      newA.genes, newB.genes := child1, child2;
      return Success((newA, newB));
    }
    if Min(|a|, |b|) < 3 {
      return Success((newA, newB));
    }
    return Failure(TypeError);
  }

  /** The characters mutation writes into strings. */
  const Alphabet: string := "abcdefghijklmnopqrstuvwxyz0123456789"

  /** An integer gene after mutation: redrawn from [-100, 100], or moved by
      at most 20. */
  predicate IntMutated(v: int, w: int) {
    -100 <= w <= 100 || v - 20 <= w <= v + 20
  }

  /** A string after mutation: one character more or less at most, never
      emptied, and every character kept or drawn from the alphabet. */
  predicate StrMutated(s: string, t: string) {
    |s| - 1 <= |t| <= |s| + 1 && (|s| > 0 ==> |t| > 0) &&
    forall k :: 0 <= k < |t| ==> t[k] in s || t[k] in Alphabet
  }

  /** The list after the optional append of an integer from [-50, 50]. */
  function Grown(l: seq<Value>, x: Option<int>): (r: seq<Value>)
    ensures |r| == |l| + (if x.Some? then 1 else 0) && r[..|l|] == l
  {
    if x.Some? then l + [Int(x.value)] else l
  }

  /** The list after the optional pop at position p. */
  function Popped(a: seq<Value>, p: Option<int>): (r: seq<Value>)
    requires p.Some? ==> 0 <= p.value < |a|
    ensures |r| == |a| - (if p.Some? then 1 else 0)
  {
    if p.Some? then a[..p.value] + a[p.value + 1..] else a
  }

  /** The draws the resizing can make: an appended integer in [-50, 50], and a
      pop only while more than one item is left. */
  predicate Resizing(l: seq<Value>, x: Option<int>, p: Option<int>) {
    (x.Some? ==> -50 <= x.value <= 50) &&
    (p.Some? ==> |Grown(l, x)| > 1 && 0 <= p.value < |Grown(l, x)|)
  }

  /** A nested list after the list branch: the same length, and at most one
      position changed, an integer moved by at most 10. */
  predicate NestedMutated(l: seq<Value>, m: seq<Value>) {
    |m| == |l| &&
    (forall j :: 0 <= j < |l| ==>
      m[j] == l[j] || (l[j].Int? && m[j].Int? && l[j].i - 10 <= m[j].i <= l[j].i + 10)) &&
    forall j, j' :: 0 <= j < j' < |l| ==> m[j] == l[j] || m[j'] == l[j']
  }

  /** One item after the list branch's loop: an integer stays an integer,
      kept or mutated; a nested list changes as NestedMutated says; anything
      else is kept. */
  predicate ItemMutated(v: Value, w: Value) {
    if v.Int? then w.Int? && IntMutated(v.i, w.i)
    else if v.List? then w.List? && NestedMutated(v.items, w.items)
    else w == v
  }

  /** A list after mutation: the list resized by the optional append and
      pop, then each of its items mutated in place. */
  ghost predicate ListMutated(l: seq<Value>, m: seq<Value>) {
    exists x: Option<int>, p: Option<int> ::
      Resizing(l, x, p) && ListItemsMutated(Popped(Grown(l, x), p), m)
  }

  /** Position by position, each item of m is the item of r mutated. */
  predicate ListItemsMutated(r: seq<Value>, m: seq<Value>) {
    |m| == |r| && forall k :: 0 <= k < |r| ==> ItemMutated(r[k], m[k])
  }

  /** A nested list never grows: [[0, 0]] cannot become [[1000, -1000, 7]]. */
  lemma NestedListKeepsLength()
    ensures !ListMutated([List([Int(0), Int(0)])], [List([Int(1000), Int(-1000), Int(7)])])
  {
    var l := [List([Int(0), Int(0)])];
    var m := [List([Int(1000), Int(-1000), Int(7)])];
    forall x: Option<int>, p: Option<int> | Resizing(l, x, p)
      ensures !ListItemsMutated(Popped(Grown(l, x), p), m)
    {
      var r := Popped(Grown(l, x), p);
      if |r| == 1 {
        if x.Some? && p == Some(0) {
          assert r[0] == Int(x.value);
        } else {
          assert r[0] == l[0];
          assert !NestedMutated(l[0].items, m[0].items);
        }
      }
    }
  }

  /** A pop shifts items, so a string item can give way to the appended
      integer: append 40, pop "a", redraw 99. */
  lemma PopCanShiftKinds()
    ensures Mutated(List([Str("a")]), List([Int(99)]))
  {
    var l := [Str("a")];
    assert Resizing(l, Some(40), Some(0));
    assert Popped(Grown(l, Some(40)), Some(0)) == [Int(40)];
    assert ListItemsMutated(Popped(Grown(l, Some(40)), Some(0)), [Int(99)]);
  }

  /** A tuple after mutation: same arity, integers mutated, the rest kept. */
  predicate TupleMutated(l: seq<Value>, m: seq<Value>) {
    |m| == |l| &&
    forall k :: 0 <= k < |l| ==>
      if l[k].Int? then m[k].Int? && IntMutated(l[k].i, m[k].i) else m[k] == l[k]
  }

  /** A gene after mutate: of the same type, changed as its type allows. */
  ghost predicate Mutated(v: Value, w: Value) {
    match v
    case Int(i) => w.Int? && IntMutated(i, w.i)
    case Str(s) => w.Str? && StrMutated(s, w.s)
    case List(l) => w.List? && ListMutated(l, w.items)
    case Tuple(l) => w.Tuple? && TupleMutated(l, w.items)
  }

  method MutateInt(v: int) returns (w: int)
    ensures IntMutated(v, w)
  {
    var radical: bool :| true;
    if radical {
      w :| -100 <= w <= 100;
    } else {
      var d :| -20 <= d <= 20;
      w := v + d;
    }
  }

  /** The string branch: maybe insert a character, maybe pop one (when more
      than one is left), then redraw each character or not. */
  method MutateStr(s: string) returns (t: string)
    ensures StrMutated(s, t)
  {
    t := s;
    var insert: bool :| true;
    if insert {
      var pos :| 0 <= pos <= |t|;
      var c :| 0 <= c < |Alphabet|;
      t := t[..pos] + [Alphabet[c]] + t[pos..];
    }
    assert forall k :: 0 <= k < |t| ==> t[k] in s || t[k] in Alphabet;
    var pop: bool :| true;
    if |t| > 1 && pop {
      var pos :| 0 <= pos < |t|;
      t := t[..pos] + t[pos + 1..];
    }
    ghost var kept := t;
    for k := 0 to |t|
      invariant |t| == |kept| && forall j :: 0 <= j < |t| ==> t[j] == kept[j] || t[j] in Alphabet
    {
      var redraw: bool :| true;
      if redraw {
        var c :| 0 <= c < |Alphabet|;
        t := t[k := Alphabet[c]];
      }
    }
  }

  /** One item in the list branch's loop: an integer is mutated (or not); in
      a non-empty list one position is picked and, if it holds an integer,
      moved by at most 10; anything else stays. */
  method MutateItem(v: Value) returns (w: Value)
    ensures ItemMutated(v, w)
  {
    w := v;
    var touch: bool :| true;
    if v.Int? && touch {
      var i := MutateInt(v.i);
      w := Int(i);
    } else if v.List? && |v.items| > 0 && touch {
      var j :| 0 <= j < |v.items|;
      if v.items[j].Int? {
        var d :| -10 <= d <= 10;
        w := List(v.items[j := Int(v.items[j].i + d)]);
      }
    }
  }

  /** The list branch: maybe append an integer from [-50, 50], maybe pop an
      item (when more than one is left), then mutate the items one by one. */
  method MutateList(l: seq<Value>) returns (m: seq<Value>)
    ensures ListMutated(l, m)
  {
    m := l;
    ghost var x: Option<int> := None;
    var append: bool :| true;
    if append {
      var y :| -50 <= y <= 50;
      m := m + [Int(y)];
      x := Some(y);
    }
    ghost var p: Option<int> := None;
    var pop: bool :| true;
    if |m| > 1 && pop {
      var pos :| 0 <= pos < |m|;
      m := m[..pos] + m[pos + 1..];
      p := Some(pos);
    }
    assert Resizing(l, x, p) && m == Popped(Grown(l, x), p);
    ghost var resized := m;
    for k := 0 to |m|
      invariant |m| == |resized|
      invariant forall j :: k <= j < |m| ==> m[j] == resized[j]
      invariant forall j :: 0 <= j < k ==> ItemMutated(resized[j], m[j])
    {
      var w := MutateItem(m[k]);
      m := m[k := w];
    }
    assert ListItemsMutated(resized, m);
  }

  /** The tuple branch: each integer item is mutated or not, the rest kept. */
  method MutateTuple(l: seq<Value>) returns (m: seq<Value>)
    ensures TupleMutated(l, m)
  {
    m := l;
    for k := 0 to |l|
      invariant |m| == |l|
      invariant forall j :: 0 <= j < |l| ==>
        if l[j].Int? then m[j].Int? && (j >= k ==> m[j] == l[j]) && (m[j] == l[j] || IntMutated(l[j].i, m[j].i))
        else m[j] == l[j]
    {
      var touch: bool :| true;
      if l[k].Int? && touch {
        var i := MutateInt(l[k].i);
        m := m[k := Int(i)];
      }
    }
  }

  method MutateValue(v: Value) returns (w: Value)
    ensures Mutated(v, w)
  {
    match v
    case Int(i) =>
      var j := MutateInt(i);
      w := Int(j);
    case Str(s) =>
      var t := MutateStr(s);
      w := Str(t);
    case List(l) =>
      var m := MutateList(l);
      w := List(m);
    case Tuple(l) =>
      var m := MutateTuple(l);
      w := Tuple(m);
  }

  /** Genes after mutate: same keys in the same order, each value kept or
      mutated as its type allows. */
  ghost predicate GenomeMutated(g: Genome, h: Genome) {
    Keys(h) == Keys(g) &&
    forall i :: 0 <= i < |g| ==> h[i] == g[i] || Mutated(g[i].1, h[i].1)
  }

  /** mutate: a copy of ind, scores included, whose genes keep their keys,
      order and types; each gene is left alone or mutated as its type allows. */
  method Mutate(ind: Individual) returns (m: Individual)
    ensures fresh(m)
    ensures m.State() == ind.State().(genes := m.genes)
    ensures GenomeMutated(ind.genes, m.genes)
  {
    m := ind.Copy();
    for i := 0 to |m.genes|
      invariant |m.genes| == |ind.genes| && Keys(m.genes) == Keys(ind.genes)
      invariant m.State() == ind.State().(genes := m.genes)
      invariant forall j :: 0 <= j < |ind.genes| ==> m.genes[j] == ind.genes[j] || Mutated(ind.genes[j].1, m.genes[j].1)
      invariant forall j :: i <= j < |ind.genes| ==> m.genes[j] == ind.genes[j]
    {
      var skip: bool :| true;
      if !skip {
        var w := MutateValue(m.genes[i].1);
        m.genes := m.genes[i := (m.genes[i].0, w)];
      }
    }
  }
}
