/**
 * The satisfiability solver the resolver drives (sat4j's `ISolver`), as an
 * oracle over clauses of DIMACS literals: variable `v` is the literal `v`,
 * its negation `-v`.
 *
 * Satisfiability is the existence of a satisfying assignment. When asked, the
 * solver picks one such assignment and reports it as a model. When a
 * constraint is added, it reports a contradiction as sat4j does at the top
 * level: when every literal of the new clause is already false under the
 * unit facts it holds.
 */
module Sat {
  import opened Wrappers

  type Clause = seq<int>

  /** The variable of a literal. */
  function Var(l: int): nat
  {
    if l < 0 then -l else l
  }

  /** Literal `l` holds when exactly the variables in `m` are true. */
  predicate LitTrue(m: set<int>, l: int)
  {
    if l > 0 then l in m else -l !in m
  }

  predicate ClauseTrue(m: set<int>, c: Clause)
  {
    exists l :: l in c && LitTrue(m, l)
  }

  predicate AllTrue(m: set<int>, cs: seq<Clause>)
  {
    forall i :: 0 <= i < |cs| ==> ClauseTrue(m, cs[i])
  }

  /** `m` satisfies every clause and makes every assumption true. */
  predicate Satisfies(m: set<int>, cs: seq<Clause>, assumptions: seq<int>)
  {
    AllTrue(m, cs) && forall i :: 0 <= i < |assumptions| ==> LitTrue(m, assumptions[i])
  }

  /** The variables that occur in the clauses or the assumptions. */
  function Occurring(cs: seq<Clause>, assumptions: seq<int>): set<int>
  {
    (set c, l | c in cs && l in c :: Var(l)) + (set l | l in assumptions :: Var(l))
  }

  /**
   * `isSatisfiable(assumptions)`: some assignment satisfies the clauses under
   * the assumptions. Only variables that occur matter, so the search is
   * bounded by them (see SatisfiableIff).
   */
  predicate Satisfiable(cs: seq<Clause>, assumptions: seq<int>)
  {
    exists m | m <= Occurring(cs, assumptions) :: Satisfies(m, cs, assumptions)
  }

  lemma RestrictToOccurring(m: set<int>, cs: seq<Clause>, assumptions: seq<int>)
    requires Satisfies(m, cs, assumptions)
    ensures Satisfies(m * Occurring(cs, assumptions), cs, assumptions)
  {
    var o := Occurring(cs, assumptions);
    var m' := m * o;
    forall i | 0 <= i < |cs|
      ensures ClauseTrue(m', cs[i])
    {
      var l :| l in cs[i] && LitTrue(m, l);
      assert Var(l) in o;
      assert LitTrue(m', l);
    }
    forall i | 0 <= i < |assumptions|
      ensures LitTrue(m', assumptions[i])
    {
      assert Var(assumptions[i]) in o;
    }
  }

  /** Satisfiability is exactly the existence of a satisfying assignment. */
  lemma SatisfiableIff(cs: seq<Clause>, assumptions: seq<int>)
    ensures Satisfiable(cs, assumptions) <==> exists m :: Satisfies(m, cs, assumptions)
  {
    if m :| Satisfies(m, cs, assumptions) {
      RestrictToOccurring(m, cs, assumptions);
    }
  }

  lemma AllTrueConcat(m: set<int>, a: seq<Clause>, b: seq<Clause>)
    ensures AllTrue(m, a + b) <==> AllTrue(m, a) && AllTrue(m, b)
  {
    if AllTrue(m, a) && AllTrue(m, b) {
      forall i | 0 <= i < |a + b|
        ensures ClauseTrue(m, (a + b)[i])
      {
        if i >= |a| {
          assert (a + b)[i] == b[i - |a|];
        }
      }
    }
    if AllTrue(m, a + b) {
      forall i | 0 <= i < |a|
        ensures ClauseTrue(m, a[i])
      {
        assert (a + b)[i] == a[i];
      }
      forall i | 0 <= i < |b|
        ensures ClauseTrue(m, b[i])
      {
        assert (a + b)[|a| + i] == b[i];
      }
    }
  }

  /** For a literal other than 0, exactly one of it and its negation holds. */
  lemma Complementary(m: set<int>, l: int)
    requires l != 0
    ensures LitTrue(m, -l) <==> !LitTrue(m, l)
  {
  }

  /**
   * A model as sat4j reports it: one literal per variable 1..n, positive
   * when the variable is true.
   */
  function ModelOf(m: set<int>, n: nat): (r: seq<int>)
    ensures |r| == n
    ensures forall i :: 0 <= i < n ==> r[i] == (if i + 1 in m then i + 1 else -(i + 1))
  {
    seq(n, i requires 0 <= i < n => if i + 1 in m then i + 1 else -(i + 1))
  }

  /** Every assignment that satisfies `cs` makes each literal of `units` true. */
  ghost predicate UnitsForced(cs: seq<Clause>, units: set<int>)
  {
    forall m :: AllTrue(m, cs) ==> forall l :: l in units ==> LitTrue(m, l)
  }

  class Solver {
    var nVars: nat
    var clauses: seq<Clause>
    /** Literals fixed at the top level by unit clauses. */
    var units: set<int>
    /** The model found by the last satisfiability check, if that check succeeded. */
    var model: Option<seq<int>>

    ghost predicate Valid()
      reads this
    {
      UnitsForced(clauses, units)
    }

    constructor ()
      ensures Valid()
      ensures nVars == 0 && clauses == [] && units == {} && model == None
    {
      nVars, clauses, units, model := 0, [], {}, None;
    }

    /** `newVar(n)`: declares variables 1..n. */
    method NewVar(n: nat)
      requires Valid()
      modifies this
      ensures Valid()
      ensures nVars == n
      ensures clauses == old(clauses) && units == old(units) && model == old(model)
    {
      nVars := n;
    }

    /**
     * `addClause`. Literals already false under the unit facts are set
     * aside; if none is left the clause is a contradiction, and if one is
     * left it becomes a unit fact.
     */
    method AddClause(c: Clause) returns (ok: bool)
      requires Valid()
      requires forall l :: l in c ==> l != 0
      modifies this
      ensures Valid()
      ensures clauses == old(clauses) + [c]
      ensures nVars == old(nVars) && model == old(model)
      ensures ok <==> exists l :: l in c && -l !in old(units)
      ensures !ok ==> forall m :: !AllTrue(m, clauses)
    {
      var open := set l | l in c && -l !in units;
      ghost var before := clauses;
      clauses := clauses + [c];
      forall m | AllTrue(m, clauses)
        ensures AllTrue(m, before) && ClauseTrue(m, c)
      {
        AllTrueConcat(m, before, [c]);
        assert clauses[|before|] == c;
      }
      if open == {} {
        ok := false;
        forall l | l in c
          ensures -l in units
        {
          assert l !in open;
        }
        forall m
          ensures !AllTrue(m, clauses)
        {
          if AllTrue(m, clauses) {
            var l :| l in c && LitTrue(m, l);
            assert l !in open;
            assert LitTrue(m, -l);
            Complementary(m, l);
          }
        }
      } else {
        ok := true;
        ghost var w :| w in open;
        assert w in c && -w !in old(units);
        if |open| == 1 {
          var u :| u in open;
          assert open == {u} by {
            assert |open - {u}| == 0;
          }
          forall m | AllTrue(m, clauses)
            ensures LitTrue(m, u)
          {
            var l :| l in c && LitTrue(m, l);
            if l != u {
              assert l !in open;
              assert LitTrue(m, -l);
              Complementary(m, l);
            }
          }
          units := units + {u};
        }
      }
    }

    /** Adds `[-a, -b]` for each `b` of `bs`, stopping at the first contradiction. */
    method AddPairs(a: int, bs: seq<int>) returns (ok: bool)
      requires Valid()
      requires a > 0 && forall j :: 0 <= j < |bs| ==> bs[j] > 0
      modifies this
      ensures Valid()
      ensures ok ==> clauses == old(clauses) + PairsWith(a, bs)
      ensures clauses <= old(clauses) + PairsWith(a, bs)
      ensures old(clauses) <= clauses
      ensures nVars == old(nVars) && model == old(model)
      ensures !ok ==> forall m :: !AllTrue(m, clauses)
    {
      ok := true;
      var j := 0;
      while j < |bs|
        invariant 0 <= j <= |bs|
        invariant Valid()
        invariant clauses == old(clauses) + PairsWith(a, bs[..j])
        invariant nVars == old(nVars) && model == old(model)
      {
        ok := AddClause([-a, -bs[j]]);
        if !ok {
          assert PairsWith(a, bs[..j + 1]) == PairsWith(a, bs[..j]) + [[-a, -bs[j]]];
          PairsWithPrefix(a, bs, j + 1);
          PrefixExtend(old(clauses), PairsWith(a, bs[..j + 1]), PairsWith(a, bs));
          return;
        }
        assert PairsWith(a, bs[..j + 1]) == PairsWith(a, bs[..j]) + [[-a, -bs[j]]];
        j := j + 1;
      }
      assert bs[..j] == bs;
    }

    /** `addAtMost(vs, 1)`: no two of the variables `vs` are true. */
    method AddAtMostOne(vs: seq<int>) returns (ok: bool)
      requires Valid()
      requires forall i :: 0 <= i < |vs| ==> vs[i] > 0
      modifies this
      ensures Valid()
      ensures ok ==> clauses == old(clauses) + AtMostOneClauses(vs)
      ensures clauses <= old(clauses) + AtMostOneClauses(vs)
      ensures old(clauses) <= clauses
      ensures nVars == old(nVars) && model == old(model)
      ensures !ok ==> forall m :: !AllTrue(m, clauses)
    {
      ok := true;
      var i := 0;
      while i < |vs|
        invariant 0 <= i <= |vs|
        invariant Valid()
        invariant clauses == old(clauses) + AtMostOneUpTo(vs, i)
        invariant nVars == old(nVars) && model == old(model)
      {
        ghost var before := clauses;
        ok := AddPairs(vs[i], vs[i + 1..]);
        if !ok {
          AtMostOnePartialPrefix(old(clauses), before, vs, i, clauses);
          return;
        }
        i := i + 1;
      }
    }

    /** `addExactly(vs, 1)`: exactly one of the variables `vs` is true. */
    method AddExactlyOne(vs: seq<int>) returns (ok: bool)
      requires Valid()
      requires forall i :: 0 <= i < |vs| ==> vs[i] > 0
      modifies this
      ensures Valid()
      ensures ok ==> clauses == old(clauses) + ExactlyOneClauses(vs)
      ensures clauses <= old(clauses) + ExactlyOneClauses(vs)
      ensures old(clauses) <= clauses
      ensures nVars == old(nVars) && model == old(model)
      ensures !ok ==> forall m :: !AllTrue(m, clauses)
    {
      ok := AddAtMostOne(vs);
      assert old(clauses) + AtMostOneClauses(vs) <= old(clauses) + ExactlyOneClauses(vs);
      if ok {
        ok := AddClause(vs);
        assert old(clauses) + AtMostOneClauses(vs) + [vs] == old(clauses) + ExactlyOneClauses(vs);
      }
    }

    /**
     * `isSatisfiable(assumptions)`. On success the model is that of some
     * satisfying assignment over the occurring variables; on failure the
     * previous model is forgotten.
     */
    method IsSatisfiable(assumptions: seq<int>) returns (sat: bool)
      requires Valid()
      modifies this
      ensures Valid()
      ensures clauses == old(clauses) && units == old(units) && nVars == old(nVars)
      ensures sat == Satisfiable(clauses, assumptions)
      ensures sat ==> model.Some? && exists m ::
        m <= Occurring(clauses, assumptions) && Satisfies(m, clauses, assumptions) && model.value == ModelOf(m, nVars)
      ensures !sat ==> model == None
    {
      sat := Satisfiable(clauses, assumptions);
      if sat {
        var m :| m <= Occurring(clauses, assumptions) && Satisfies(m, clauses, assumptions);
        model := Some(ModelOf(m, nVars));
      } else {
        model := None;
      }
    }
  }

  /** The clauses `[-a, -b]` for each `b` of `bs`, in order. */
  function PairsWith(a: int, bs: seq<int>): (r: seq<Clause>)
    ensures |r| == |bs|
    ensures forall j :: 0 <= j < |bs| ==> r[j] == [-a, -bs[j]]
  {
    if bs == [] then [] else PairsWith(a, bs[..|bs| - 1]) + [[-a, -bs[|bs| - 1]]]
  }

  /** The pairs `[-vs[i], -vs[j]]` for every i < k and j > i, in the order the loops emit them. */
  function AtMostOneUpTo(vs: seq<int>, k: nat): seq<Clause>
    requires k <= |vs|
  {
    if k == 0 then [] else AtMostOneUpTo(vs, k - 1) + PairsWith(vs[k - 1], vs[k..])
  }

  lemma PairsWithPrefix(a: int, bs: seq<int>, k: nat)
    requires k <= |bs|
    ensures PairsWith(a, bs[..k]) <= PairsWith(a, bs)
  {
    assert PairsWith(a, bs[..k]) == PairsWith(a, bs)[..k];
  }

  /** Emitting fewer rows of pairs gives a prefix of the clauses. */
  lemma {:induction false} AtMostOneUpToPrefix(vs: seq<int>, i: nat, j: nat)
    requires i <= j <= |vs|
    ensures AtMostOneUpTo(vs, i) <= AtMostOneUpTo(vs, j)
  {
    if i < j {
      AtMostOneUpToPrefix(vs, i, j - 1);
    }
  }

  /** Clauses added while emitting row `i` of the pairs are a prefix of all of them. */
  lemma AtMostOnePartialPrefix(start: seq<Clause>, before: seq<Clause>, vs: seq<int>, i: nat, cur: seq<Clause>)
    requires i < |vs| && before == start + AtMostOneUpTo(vs, i)
    requires cur <= before + PairsWith(vs[i], vs[i + 1..])
    ensures cur <= start + AtMostOneClauses(vs)
  {
    var x, y := AtMostOneUpTo(vs, i), PairsWith(vs[i], vs[i + 1..]);
    var mid := start + (x + y);
    ConcatAssoc(start, x, y);
    assert mid <= start + AtMostOneClauses(vs) by {
      assert AtMostOneUpTo(vs, i + 1) == x + y;
      AtMostOneUpToPrefix(vs, i + 1, |vs|);
      PrefixExtend(start, x + y, AtMostOneClauses(vs));
    }
    PrefixTrans(cur, mid, start + AtMostOneClauses(vs));
  }

  lemma ConcatAssoc<T>(a: seq<T>, b: seq<T>, c: seq<T>)
    ensures (a + b) + c == a + (b + c)
  {
  }

  lemma PrefixExtend<T>(c: seq<T>, a: seq<T>, b: seq<T>)
    requires a <= b
    ensures c + a <= c + b
  {
    assert (c + b)[..|c + a|] == c + b[..|a|];
  }

  lemma PrefixTrans<T>(a: seq<T>, b: seq<T>, c: seq<T>)
    requires a <= b && b <= c
    ensures a <= c
  {
    assert c[..|a|] == c[..|b|][..|a|];
  }

  /** The pairwise encoding of "at most one of `vs`": `[-vs[i], -vs[j]]` for every i < j. */
  function AtMostOneClauses(vs: seq<int>): seq<Clause>
  {
    AtMostOneUpTo(vs, |vs|)
  }

  function ExactlyOneClauses(vs: seq<int>): seq<Clause>
  {
    AtMostOneClauses(vs) + [vs]
  }

  /** No two of the variables `vs` are true in `m`. */
  predicate AtMostOneTrue(m: set<int>, vs: seq<int>)
  {
    forall i, j :: 0 <= i < j < |vs| ==> !(vs[i] in m && vs[j] in m)
  }

  /** Some variable of `vs` is true in `m`. */
  predicate SomeTrue(m: set<int>, vs: seq<int>)
  {
    exists i :: 0 <= i < |vs| && vs[i] in m
  }

  predicate Positive(vs: seq<int>)
  {
    forall i :: 0 <= i < |vs| ==> vs[i] > 0
  }

  lemma PairTrue(m: set<int>, a: int, b: int)
    requires a > 0 && b > 0
    ensures ClauseTrue(m, [-a, -b]) <==> !(a in m && b in m)
  {
    if a !in m {
      assert -a in [-a, -b] && LitTrue(m, -a);
    } else if b !in m {
      assert -b in [-a, -b] && LitTrue(m, -b);
    }
  }

  /** The pairs with `a` hold iff `a` is false or every `b` is. */
  lemma PairsWithMeaning(m: set<int>, a: int, bs: seq<int>)
    requires a > 0 && Positive(bs)
    ensures AllTrue(m, PairsWith(a, bs)) <==> (a in m ==> forall j :: 0 <= j < |bs| ==> bs[j] !in m)
  {
    forall j | 0 <= j < |bs|
      ensures ClauseTrue(m, PairsWith(a, bs)[j]) <==> !(a in m && bs[j] in m)
    {
      PairTrue(m, a, bs[j]);
    }
  }

  lemma {:induction false} AtMostOneUpToMeaning(m: set<int>, vs: seq<int>, k: nat)
    requires k <= |vs| && Positive(vs)
    ensures AllTrue(m, AtMostOneUpTo(vs, k)) <==>
      forall i, j :: 0 <= i < k && i < j < |vs| ==> !(vs[i] in m && vs[j] in m)
  {
    if k > 0 {
      AtMostOneUpToMeaning(m, vs, k - 1);
      AllTrueConcat(m, AtMostOneUpTo(vs, k - 1), PairsWith(vs[k - 1], vs[k..]));
      PairsWithMeaning(m, vs[k - 1], vs[k..]);
      if AllTrue(m, AtMostOneUpTo(vs, k)) {
        forall i, j | 0 <= i < k && i < j < |vs|
          ensures !(vs[i] in m && vs[j] in m)
        {
          if i == k - 1 {
            assert vs[k..][j - k] == vs[j];
          }
        }
      }
      if forall i, j :: 0 <= i < k && i < j < |vs| ==> !(vs[i] in m && vs[j] in m) {
        forall j | 0 <= j < |vs[k..]|
          ensures !(vs[k - 1] in m && vs[k..][j] in m)
        {
          assert vs[k..][j] == vs[k + j];
        }
      }
    }
  }

  /** The pairwise clauses hold exactly when at most one of `vs` is true. */
  lemma AtMostOneMeaning(m: set<int>, vs: seq<int>)
    requires Positive(vs)
    ensures AllTrue(m, AtMostOneClauses(vs)) <==> AtMostOneTrue(m, vs)
  {
    AtMostOneUpToMeaning(m, vs, |vs|);
  }

  /** A clause of variables holds exactly when one of them is true. */
  lemma PositiveClauseMeaning(m: set<int>, vs: seq<int>)
    requires Positive(vs)
    ensures ClauseTrue(m, vs) <==> SomeTrue(m, vs)
  {
    if SomeTrue(m, vs) {
      var i :| 0 <= i < |vs| && vs[i] in m;
      assert LitTrue(m, vs[i]);
    }
    if ClauseTrue(m, vs) {
      var l :| l in vs && LitTrue(m, l);
      var i :| 0 <= i < |vs| && vs[i] == l;
    }
  }

  /** The exactly-one clauses hold exactly when one and only one of `vs` is true. */
  lemma ExactlyOneMeaning(m: set<int>, vs: seq<int>)
    requires Positive(vs)
    ensures AllTrue(m, ExactlyOneClauses(vs)) <==> AtMostOneTrue(m, vs) && SomeTrue(m, vs)
  {
    AtMostOneMeaning(m, vs);
    PositiveClauseMeaning(m, vs);
    AllTrueConcat(m, AtMostOneClauses(vs), [vs]);
    assert [vs][0] == vs;
    assert AllTrue(m, [vs]) <==> ClauseTrue(m, vs);
  }

  /** Every literal of `cs` names a variable of 1..n. */
  predicate Bounded(cs: seq<Clause>, n: int)
  {
    forall i, l :: 0 <= i < |cs| && l in cs[i] ==> 1 <= Var(l) <= n
  }

  lemma BoundedConcat(a: seq<Clause>, b: seq<Clause>, n: int)
    requires Bounded(a, n) && Bounded(b, n)
    ensures Bounded(a + b, n)
  {
    forall i, l | 0 <= i < |a + b| && l in (a + b)[i]
      ensures 1 <= Var(l) <= n
    {
      if i < |a| {
        assert (a + b)[i] == a[i];
      } else {
        assert (a + b)[i] == b[i - |a|];
      }
    }
  }

  lemma {:induction false} AtMostOneBounded(vs: seq<int>, k: nat, n: int)
    requires k <= |vs|
    requires forall i :: 0 <= i < |vs| ==> 1 <= vs[i] <= n
    ensures Bounded(AtMostOneUpTo(vs, k), n)
  {
    if k > 0 {
      AtMostOneBounded(vs, k - 1, n);
      BoundedConcat(AtMostOneUpTo(vs, k - 1), PairsWith(vs[k - 1], vs[k..]), n);
    }
  }

  lemma ExactlyOneBounded(vs: seq<int>, n: int)
    requires forall i :: 0 <= i < |vs| ==> 1 <= vs[i] <= n
    ensures Bounded(ExactlyOneClauses(vs), n)
  {
    AtMostOneBounded(vs, |vs|, n);
    BoundedConcat(AtMostOneClauses(vs), [vs], n);
  }

  /** Bounded clauses and assumptions mention only variables of 1..n. */
  lemma OccurringBounded(cs: seq<Clause>, assumptions: seq<int>, n: int)
    requires Bounded(cs, n)
    requires forall i :: 0 <= i < |assumptions| ==> 1 <= Var(assumptions[i]) <= n
    ensures forall v :: v in Occurring(cs, assumptions) ==> 1 <= v <= n
  {
    forall v | v in Occurring(cs, assumptions)
      ensures 1 <= v <= n
    {
      if v !in (set l | l in assumptions :: Var(l)) {
        var c, l :| c in cs && l in c && v == Var(l);
        var i :| 0 <= i < |cs| && cs[i] == c;
      }
    }
  }
}
