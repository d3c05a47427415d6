/**
 * The clauses `findCompatibleSet` gives the solver, as functions of the
 * selectable candidates, and what an assignment satisfying them means:
 * at most one candidate per mod ID (exactly one for a mandatory ID), every
 * dependency of a chosen candidate met by a chosen candidate, and no chosen
 * candidate broken by another chosen one.
 */
module Encoding {
  import opened Versions
  import opened Sat

  /** The selectable candidates of each mod ID (`modCandidateMap`). */
  type Selection = map<string, seq<ModCandidate>>

  /** `vm` gives every selectable candidate a variable. */
  predicate VarsFor(sel: Selection, vm: map<ModCandidate, int>)
  {
    forall id, c :: id in sel && c in sel[id] ==> c in vm && vm[c] > 0
  }

  /** The variables of the candidates `cs`, in order. */
  function VarsOf(cs: seq<ModCandidate>, vm: map<ModCandidate, int>): (r: seq<int>)
    requires forall c :: c in cs ==> c in vm
    ensures |r| == |cs|
    ensures forall i :: 0 <= i < |cs| ==> r[i] == vm[cs[i]]
  {
    seq(|cs|, i requires 0 <= i < |cs| => vm[cs[i]])
  }

  lemma VarsOfPositive(cs: seq<ModCandidate>, vm: map<ModCandidate, int>)
    requires forall c :: c in cs ==> c in vm && vm[c] > 0
    ensures Positive(VarsOf(cs, vm))
  {
    forall i | 0 <= i < |cs|
      ensures VarsOf(cs, vm)[i] > 0
    {
      assert cs[i] in cs;
    }
  }

  /** The candidates of `cs` whose version `dep` accepts, in order. */
  function Filter(dep: Dependency, cs: seq<ModCandidate>, matches: Matcher): (r: seq<ModCandidate>)
    ensures forall c :: c in r <==> c in cs && matches(dep, c.info.version)
  {
    if cs == [] then []
    else
      var last := cs[|cs| - 1];
      Filter(dep, cs[..|cs| - 1], matches) + (if matches(dep, last.info.version) then [last] else [])
  }

  /**
   * The selectable candidates of the ID `dep` names whose version `dep`
   * accepts; none when that ID has no candidates (`getOrDefault` with an
   * empty list).
   */
  function Matching(dep: Dependency, sel: Selection, matches: Matcher): (r: seq<ModCandidate>)
    ensures forall c :: c in r <==> dep.modId in sel && c in sel[dep.modId] && matches(dep, c.info.version)
  {
    Filter(dep, if dep.modId in sel then sel[dep.modId] else [], matches)
  }

  function MatchingVars(dep: Dependency, sel: Selection, vm: map<ModCandidate, int>, matches: Matcher): seq<int>
    requires VarsFor(sel, vm)
  {
    VarsOf(Matching(dep, sel, matches), vm)
  }

  lemma MatchingVarsPositive(dep: Dependency, sel: Selection, vm: map<ModCandidate, int>, matches: Matcher)
    requires VarsFor(sel, vm)
    ensures Positive(MatchingVars(dep, sel, vm, matches))
  {
    VarsOfPositive(Matching(dep, sel, matches), vm);
  }

  /** The constraint on one ID's variables: exactly one if mandatory, at most one otherwise. */
  function CardinalityClause(id: string, sel: Selection, mandatory: set<string>, vm: map<ModCandidate, int>): seq<Clause>
    requires id in sel && VarsFor(sel, vm)
  {
    var vs := VarsOf(sel[id], vm);
    if id in mandatory then ExactlyOneClauses(vs) else AtMostOneClauses(vs)
  }

  function CardinalityClauses(ids: seq<string>, sel: Selection, mandatory: set<string>, vm: map<ModCandidate, int>): seq<Clause>
    requires forall k :: 0 <= k < |ids| ==> ids[k] in sel
    requires VarsFor(sel, vm)
  {
    if ids == [] then []
    else CardinalityClauses(ids[..|ids| - 1], sel, mandatory, vm) + CardinalityClause(ids[|ids| - 1], sel, mandatory, vm)
  }

  /** One clause per `depends` entry: the matching candidates' variables, then `-x`. */
  function DependsClauses(x: int, deps: seq<Dependency>, sel: Selection, vm: map<ModCandidate, int>, matches: Matcher): seq<Clause>
    requires VarsFor(sel, vm)
  {
    if deps == [] then []
    else DependsClauses(x, deps[..|deps| - 1], sel, vm, matches) + [MatchingVars(deps[|deps| - 1], sel, vm, matches) + [-x]]
  }

  /** For each `breaks` entry, a clause `[-x, -y]` per matching candidate's variable `y`. */
  function BreaksClauses(x: int, deps: seq<Dependency>, sel: Selection, vm: map<ModCandidate, int>, matches: Matcher): seq<Clause>
    requires VarsFor(sel, vm)
  {
    if deps == [] then []
    else BreaksClauses(x, deps[..|deps| - 1], sel, vm, matches) + PairsWith(x, MatchingVars(deps[|deps| - 1], sel, vm, matches))
  }

  /** The clauses for one candidate's `depends`, then its `breaks`. */
  function CandidateClauses(c: ModCandidate, sel: Selection, vm: map<ModCandidate, int>, matches: Matcher): seq<Clause>
    requires c in vm && VarsFor(sel, vm)
  {
    DependsClauses(vm[c], c.info.depends, sel, vm, matches) + BreaksClauses(vm[c], c.info.breaks, sel, vm, matches)
  }

  function DependencyClauses(cands: seq<ModCandidate>, sel: Selection, vm: map<ModCandidate, int>, matches: Matcher): seq<Clause>
    requires forall c :: c in cands ==> c in vm
    requires VarsFor(sel, vm)
  {
    if cands == [] then []
    else DependencyClauses(cands[..|cands| - 1], sel, vm, matches) + CandidateClauses(cands[|cands| - 1], sel, vm, matches)
  }

  /** The whole formula: the cardinality constraints of `ids`, then the clauses of `cands`. */
  function Encode(ids: seq<string>, sel: Selection, mandatory: set<string>, cands: seq<ModCandidate>,
                  vm: map<ModCandidate, int>, matches: Matcher): seq<Clause>
    requires forall k :: 0 <= k < |ids| ==> ids[k] in sel
    requires forall c :: c in cands ==> c in vm
    requires VarsFor(sel, vm)
  {
    CardinalityClauses(ids, sel, mandatory, vm) + DependencyClauses(cands, sel, vm, matches)
  }

  // ---------------------------------------------------------------------
  // What a satisfying assignment means

  /** ID `id` has at most one chosen candidate, and one if it is mandatory. */
  predicate IdHolds(m: set<int>, id: string, sel: Selection, mandatory: set<string>, vm: map<ModCandidate, int>)
    requires id in sel && VarsFor(sel, vm)
  {
    var vs := VarsOf(sel[id], vm);
    AtMostOneTrue(m, vs) && (id in mandatory ==> SomeTrue(m, vs))
  }

  predicate CardinalityHolds(m: set<int>, ids: seq<string>, sel: Selection, mandatory: set<string>, vm: map<ModCandidate, int>)
    requires forall k :: 0 <= k < |ids| ==> ids[k] in sel
    requires VarsFor(sel, vm)
  {
    forall k :: 0 <= k < |ids| ==> IdHolds(m, ids[k], sel, mandatory, vm)
  }

  /**
   * If candidate `c` is chosen, each of its `depends` has a chosen matching
   * candidate and none of its `breaks` has one.
   */
  predicate CandidateHolds(m: set<int>, c: ModCandidate, sel: Selection, vm: map<ModCandidate, int>, matches: Matcher)
    requires c in vm && VarsFor(sel, vm)
  {
    vm[c] in m ==>
      && (forall i :: 0 <= i < |c.info.depends| ==> SomeTrue(m, MatchingVars(c.info.depends[i], sel, vm, matches)))
      && (forall i :: 0 <= i < |c.info.breaks| ==> !SomeTrue(m, MatchingVars(c.info.breaks[i], sel, vm, matches)))
  }

  predicate DependenciesHold(m: set<int>, cands: seq<ModCandidate>, sel: Selection, vm: map<ModCandidate, int>, matches: Matcher)
    requires forall c :: c in cands ==> c in vm
    requires VarsFor(sel, vm)
  {
    forall k :: 0 <= k < |cands| ==> CandidateHolds(m, cands[k], sel, vm, matches)
  }

  lemma CardinalityClauseMeaning(m: set<int>, id: string, sel: Selection, mandatory: set<string>, vm: map<ModCandidate, int>)
    requires id in sel && VarsFor(sel, vm)
    ensures AllTrue(m, CardinalityClause(id, sel, mandatory, vm)) <==> IdHolds(m, id, sel, mandatory, vm)
  {
    var vs := VarsOf(sel[id], vm);
    VarsOfPositive(sel[id], vm);
    if id in mandatory {
      ExactlyOneMeaning(m, vs);
    } else {
      AtMostOneMeaning(m, vs);
    }
  }

  /** The cardinality clauses hold exactly when every ID has an admissible number of chosen candidates. */
  lemma {:induction false} CardinalityMeaning(m: set<int>, ids: seq<string>, sel: Selection, mandatory: set<string>, vm: map<ModCandidate, int>)
    requires forall k :: 0 <= k < |ids| ==> ids[k] in sel
    requires VarsFor(sel, vm)
    ensures AllTrue(m, CardinalityClauses(ids, sel, mandatory, vm)) <==> CardinalityHolds(m, ids, sel, mandatory, vm)
  {
    if ids != [] {
      var init, id := ids[..|ids| - 1], ids[|ids| - 1];
      CardinalityMeaning(m, init, sel, mandatory, vm);
      AllTrueConcat(m, CardinalityClauses(init, sel, mandatory, vm), CardinalityClause(id, sel, mandatory, vm));
      CardinalityClauseMeaning(m, id, sel, mandatory, vm);
      CardinalityHoldsSplit(m, ids, init, sel, mandatory, vm);
    }
  }

  lemma CardinalityHoldsSplit(m: set<int>, ids: seq<string>, init: seq<string>, sel: Selection, mandatory: set<string>,
                              vm: map<ModCandidate, int>)
    requires ids != [] && init == ids[..|ids| - 1]
    requires forall k :: 0 <= k < |ids| ==> ids[k] in sel
    requires VarsFor(sel, vm)
    ensures CardinalityHolds(m, ids, sel, mandatory, vm) <==>
      CardinalityHolds(m, init, sel, mandatory, vm) && IdHolds(m, ids[|ids| - 1], sel, mandatory, vm)
  {
    assert forall k :: 0 <= k < |init| ==> init[k] == ids[k];
  }

  lemma DependsClauseMeaning(m: set<int>, vs: seq<int>, x: int)
    requires Positive(vs) && x > 0
    ensures ClauseTrue(m, vs + [-x]) <==> (x in m ==> SomeTrue(m, vs))
  {
    var c := vs + [-x];
    if x !in m {
      assert c[|vs|] == -x && LitTrue(m, -x);
    } else if SomeTrue(m, vs) {
      var i :| 0 <= i < |vs| && vs[i] in m;
      assert c[i] == vs[i] && LitTrue(m, vs[i]);
    }
    if ClauseTrue(m, c) && x in m {
      var l :| l in c && LitTrue(m, l);
      var i :| 0 <= i < |c| && c[i] == l;
      assert i < |vs| && vs[i] in m;
    }
  }

  lemma {:induction false} DependsClausesMeaning(m: set<int>, x: int, deps: seq<Dependency>, sel: Selection, vm: map<ModCandidate, int>, matches: Matcher)
    requires VarsFor(sel, vm) && x > 0
    ensures AllTrue(m, DependsClauses(x, deps, sel, vm, matches)) <==>
      (x in m ==> forall i :: 0 <= i < |deps| ==> SomeTrue(m, MatchingVars(deps[i], sel, vm, matches)))
  {
    if deps != [] {
      var init, d := deps[..|deps| - 1], deps[|deps| - 1];
      var vs := MatchingVars(d, sel, vm, matches);
      DependsClausesMeaning(m, x, init, sel, vm, matches);
      AllTrueConcat(m, DependsClauses(x, init, sel, vm, matches), [vs + [-x]]);
      MatchingVarsPositive(d, sel, vm, matches);
      DependsClauseMeaning(m, vs, x);
      assert [vs + [-x]][0] == vs + [-x];
      DependsMetSplit(m, deps, init, sel, vm, matches);
    }
  }

  lemma DependsMetSplit(m: set<int>, deps: seq<Dependency>, init: seq<Dependency>, sel: Selection, vm: map<ModCandidate, int>, matches: Matcher)
    requires deps != [] && init == deps[..|deps| - 1] && VarsFor(sel, vm)
    ensures (forall i :: 0 <= i < |deps| ==> SomeTrue(m, MatchingVars(deps[i], sel, vm, matches))) <==>
      && (forall i :: 0 <= i < |init| ==> SomeTrue(m, MatchingVars(init[i], sel, vm, matches)))
      && SomeTrue(m, MatchingVars(deps[|deps| - 1], sel, vm, matches))
  {
    assert forall i :: 0 <= i < |init| ==> init[i] == deps[i];
  }

  lemma BreaksMetSplit(m: set<int>, deps: seq<Dependency>, init: seq<Dependency>, sel: Selection, vm: map<ModCandidate, int>, matches: Matcher)
    requires deps != [] && init == deps[..|deps| - 1] && VarsFor(sel, vm)
    ensures (forall i :: 0 <= i < |deps| ==> !SomeTrue(m, MatchingVars(deps[i], sel, vm, matches))) <==>
      && (forall i :: 0 <= i < |init| ==> !SomeTrue(m, MatchingVars(init[i], sel, vm, matches)))
      && !SomeTrue(m, MatchingVars(deps[|deps| - 1], sel, vm, matches))
  {
    assert forall i :: 0 <= i < |init| ==> init[i] == deps[i];
  }

  lemma {:induction false} BreaksClausesMeaning(m: set<int>, x: int, deps: seq<Dependency>, sel: Selection, vm: map<ModCandidate, int>, matches: Matcher)
    requires VarsFor(sel, vm) && x > 0
    ensures AllTrue(m, BreaksClauses(x, deps, sel, vm, matches)) <==>
      (x in m ==> forall i :: 0 <= i < |deps| ==> !SomeTrue(m, MatchingVars(deps[i], sel, vm, matches)))
  {
    if deps != [] {
      var init, d := deps[..|deps| - 1], deps[|deps| - 1];
      var vs := MatchingVars(d, sel, vm, matches);
      BreaksClausesMeaning(m, x, init, sel, vm, matches);
      AllTrueConcat(m, BreaksClauses(x, init, sel, vm, matches), PairsWith(x, vs));
      MatchingVarsPositive(d, sel, vm, matches);
      PairsWithMeaning(m, x, vs);
      BreaksMetSplit(m, deps, init, sel, vm, matches);
    }
  }

  lemma CandidateClausesMeaning(m: set<int>, c: ModCandidate, sel: Selection, vm: map<ModCandidate, int>, matches: Matcher)
    requires c in vm && vm[c] > 0 && VarsFor(sel, vm)
    ensures AllTrue(m, CandidateClauses(c, sel, vm, matches)) <==> CandidateHolds(m, c, sel, vm, matches)
  {
    DependsClausesMeaning(m, vm[c], c.info.depends, sel, vm, matches);
    BreaksClausesMeaning(m, vm[c], c.info.breaks, sel, vm, matches);
    AllTrueConcat(m, DependsClauses(vm[c], c.info.depends, sel, vm, matches), BreaksClauses(vm[c], c.info.breaks, sel, vm, matches));
  }

  /** The dependency clauses hold exactly when every chosen candidate's depends and breaks are respected. */
  lemma {:induction false} DependencyMeaning(m: set<int>, cands: seq<ModCandidate>, sel: Selection, vm: map<ModCandidate, int>, matches: Matcher)
    requires forall c :: c in cands ==> c in vm && vm[c] > 0
    requires VarsFor(sel, vm)
    ensures AllTrue(m, DependencyClauses(cands, sel, vm, matches)) <==> DependenciesHold(m, cands, sel, vm, matches)
  {
    if cands != [] {
      var init, c := cands[..|cands| - 1], cands[|cands| - 1];
      DependenciesHoldSplit(m, cands, sel, vm, matches);
      DependencyMeaning(m, init, sel, vm, matches);
      AllTrueConcat(m, DependencyClauses(init, sel, vm, matches), CandidateClauses(c, sel, vm, matches));
      CandidateClausesMeaning(m, c, sel, vm, matches);
    }
  }

  lemma DependenciesHoldSplit(m: set<int>, cands: seq<ModCandidate>, sel: Selection, vm: map<ModCandidate, int>, matches: Matcher)
    requires cands != [] && forall c :: c in cands ==> c in vm
    requires VarsFor(sel, vm)
    ensures DependenciesHold(m, cands, sel, vm, matches) <==>
      DependenciesHold(m, cands[..|cands| - 1], sel, vm, matches) && CandidateHolds(m, cands[|cands| - 1], sel, vm, matches)
  {
    var init := cands[..|cands| - 1];
    assert forall k :: 0 <= k < |init| ==> init[k] == cands[k];
  }

  /** An assignment satisfies the formula exactly when it is an admissible, consistent choice of candidates. */
  lemma EncodingMeaning(m: set<int>, ids: seq<string>, sel: Selection, mandatory: set<string>, cands: seq<ModCandidate>,
                        vm: map<ModCandidate, int>, matches: Matcher)
    requires forall k :: 0 <= k < |ids| ==> ids[k] in sel
    requires forall c :: c in cands ==> c in vm && vm[c] > 0
    requires VarsFor(sel, vm)
    ensures AllTrue(m, Encode(ids, sel, mandatory, cands, vm, matches)) <==>
      CardinalityHolds(m, ids, sel, mandatory, vm) && DependenciesHold(m, cands, sel, vm, matches)
  {
    CardinalityMeaning(m, ids, sel, mandatory, vm);
    DependencyMeaning(m, cands, sel, vm, matches);
    AllTrueConcat(m, CardinalityClauses(ids, sel, mandatory, vm), DependencyClauses(cands, sel, vm, matches));
  }

  /** With no mandatory ID the formula is satisfied by choosing nothing. */
  lemma NothingChosenSatisfies(ids: seq<string>, sel: Selection, mandatory: set<string>, cands: seq<ModCandidate>,
                               vm: map<ModCandidate, int>, matches: Matcher)
    requires forall k :: 0 <= k < |ids| ==> ids[k] in sel && ids[k] !in mandatory
    requires forall c :: c in cands ==> c in vm && vm[c] > 0
    requires VarsFor(sel, vm)
    ensures AllTrue({}, Encode(ids, sel, mandatory, cands, vm, matches))
  {
    EncodingMeaning({}, ids, sel, mandatory, cands, vm, matches);
  }

  // ---------------------------------------------------------------------
  // Every literal names a numbered variable

  /** Every selectable candidate's variable is in 1..n. */
  predicate VarsWithin(sel: Selection, vm: map<ModCandidate, int>, n: int)
  {
    VarsFor(sel, vm) && forall id, c :: id in sel && c in sel[id] ==> vm[c] <= n
  }

  lemma MatchingVarsWithin(dep: Dependency, sel: Selection, vm: map<ModCandidate, int>, matches: Matcher, n: int)
    requires VarsWithin(sel, vm, n)
    ensures forall i :: 0 <= i < |MatchingVars(dep, sel, vm, matches)| ==> 1 <= MatchingVars(dep, sel, vm, matches)[i] <= n
  {
    var cs := Matching(dep, sel, matches);
    forall i | 0 <= i < |cs|
      ensures 1 <= vm[cs[i]] <= n
    {
      assert cs[i] in cs;
    }
  }

  lemma {:induction false} CardinalityBounded(ids: seq<string>, sel: Selection, mandatory: set<string>, vm: map<ModCandidate, int>, n: int)
    requires forall k :: 0 <= k < |ids| ==> ids[k] in sel
    requires VarsWithin(sel, vm, n)
    ensures Bounded(CardinalityClauses(ids, sel, mandatory, vm), n)
  {
    if ids != [] {
      var init, id := ids[..|ids| - 1], ids[|ids| - 1];
      CardinalityBounded(init, sel, mandatory, vm, n);
      var vs := VarsOf(sel[id], vm);
      forall i | 0 <= i < |vs|
        ensures 1 <= vs[i] <= n
      {
        assert sel[id][i] in sel[id];
      }
      ExactlyOneBounded(vs, n);
      AtMostOneBounded(vs, |vs|, n);
      BoundedConcat(CardinalityClauses(init, sel, mandatory, vm), CardinalityClause(id, sel, mandatory, vm), n);
    }
  }

  lemma {:induction false} DependsBounded(x: int, deps: seq<Dependency>, sel: Selection, vm: map<ModCandidate, int>, matches: Matcher, n: int)
    requires VarsWithin(sel, vm, n) && 1 <= x <= n
    ensures Bounded(DependsClauses(x, deps, sel, vm, matches), n)
  {
    if deps != [] {
      var init, d := deps[..|deps| - 1], deps[|deps| - 1];
      DependsBounded(x, init, sel, vm, matches, n);
      var vs := MatchingVars(d, sel, vm, matches);
      MatchingVarsWithin(d, sel, vm, matches, n);
      assert Bounded([vs + [-x]], n) by {
        forall l | l in vs + [-x]
          ensures 1 <= Var(l) <= n
        {
          var i :| 0 <= i < |vs + [-x]| && (vs + [-x])[i] == l;
          if i < |vs| {
            assert l == vs[i];
          }
        }
      }
      BoundedConcat(DependsClauses(x, init, sel, vm, matches), [vs + [-x]], n);
    }
  }

  lemma {:induction false} BreaksBounded(x: int, deps: seq<Dependency>, sel: Selection, vm: map<ModCandidate, int>, matches: Matcher, n: int)
    requires VarsWithin(sel, vm, n) && 1 <= x <= n
    ensures Bounded(BreaksClauses(x, deps, sel, vm, matches), n)
  {
    if deps != [] {
      var init, d := deps[..|deps| - 1], deps[|deps| - 1];
      BreaksBounded(x, init, sel, vm, matches, n);
      var vs := MatchingVars(d, sel, vm, matches);
      MatchingVarsWithin(d, sel, vm, matches, n);
      BoundedConcat(BreaksClauses(x, init, sel, vm, matches), PairsWith(x, vs), n);
    }
  }

  lemma {:induction false} DependencyBounded(cands: seq<ModCandidate>, sel: Selection, vm: map<ModCandidate, int>, matches: Matcher, n: int)
    requires forall c :: c in cands ==> c in vm && 1 <= vm[c] <= n
    requires VarsWithin(sel, vm, n)
    ensures Bounded(DependencyClauses(cands, sel, vm, matches), n)
  {
    if cands != [] {
      var init, c := cands[..|cands| - 1], cands[|cands| - 1];
      DependencyBounded(init, sel, vm, matches, n);
      DependsBounded(vm[c], c.info.depends, sel, vm, matches, n);
      BreaksBounded(vm[c], c.info.breaks, sel, vm, matches, n);
      BoundedConcat(DependsClauses(vm[c], c.info.depends, sel, vm, matches), BreaksClauses(vm[c], c.info.breaks, sel, vm, matches), n);
      BoundedConcat(DependencyClauses(init, sel, vm, matches), CandidateClauses(c, sel, vm, matches), n);
    }
  }

  /** Every literal of the formula names a variable of 1..n. */
  lemma EncodeBounded(ids: seq<string>, sel: Selection, mandatory: set<string>, cands: seq<ModCandidate>,
                      vm: map<ModCandidate, int>, matches: Matcher, n: int)
    requires forall k :: 0 <= k < |ids| ==> ids[k] in sel
    requires forall c :: c in cands ==> c in vm && 1 <= vm[c] <= n
    requires VarsWithin(sel, vm, n)
    ensures Bounded(Encode(ids, sel, mandatory, cands, vm, matches), n)
  {
    CardinalityBounded(ids, sel, mandatory, vm, n);
    DependencyBounded(cands, sel, vm, matches, n);
    BoundedConcat(CardinalityClauses(ids, sel, mandatory, vm), DependencyClauses(cands, sel, vm, matches), n);
  }
}
