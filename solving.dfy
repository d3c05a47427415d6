/**
 * The advanced branch of `findCompatibleSet`, step by step: number the
 * selectable candidates, hand the solver the clauses of the encoding, probe
 * assumptions ID by ID, and read the selection off the solver's model.
 */
module Solving {
  import opened Wrappers
  import opened Versions
  import opened Sat
  import opened Encoding
  import opened Probing
  import opened Numbering
  import opened ResolutionErrors

  // ---------------------------------------------------------------------
  // Numbering

  lemma FlattenStep(sel: Selection, ids: seq<string>, i: nat)
    requires i < |ids| && forall k :: 0 <= k < |ids| ==> ids[k] in sel
    ensures Flatten(sel, ids[..i + 1]) == Flatten(sel, ids[..i]) + sel[ids[i]]
  {
    assert ids[..i + 1][..i] == ids[..i];
  }

  lemma NumberedStep(cands: seq<ModCandidate>, c: ModCandidate)
    ensures Numbered(cands + [c]) == Numbered(cands)[c := |cands| + 1]
  {
    assert (cands + [c])[..|cands|] == cands;
  }

  /**
   * The numbering loop: walking the IDs in order and each ID's candidates
   * in order, the next candidate gets the next variable in
   * `candidateIntMap` and is appended to `intCandidateMap`, whose slot 0 is
   * empty. `varCount` ends one past the last variable, and `numbered`
   * lists the keys of `candidateIntMap` in the order they were put.
   */
  method NumberCandidates(sel: Selection, ids: seq<string>)
    returns (candidateIntMap: map<ModCandidate, int>, intCandidateMap: seq<Option<ModCandidate>>, varCount: int, numbered: seq<ModCandidate>)
    requires forall k :: 0 <= k < |ids| ==> ids[k] in sel
    ensures numbered == Flatten(sel, ids)
    ensures var cands := Flatten(sel, ids);
      && candidateIntMap == Numbered(cands)
      && |intCandidateMap| == |cands| + 1 && intCandidateMap[0] == None
      && (forall k :: 0 <= k < |cands| ==> intCandidateMap[k + 1] == Some(cands[k]))
      && varCount == |cands| + 1
  {
    varCount := 1;
    candidateIntMap := map[];
    intCandidateMap := [None];
    numbered := [];
    var i := 0;
    while i < |ids|
      invariant 0 <= i <= |ids|
      invariant numbered == Flatten(sel, ids[..i])
      invariant candidateIntMap == Numbered(numbered)
      invariant |intCandidateMap| == |numbered| + 1 && intCandidateMap[0] == None
      invariant forall k :: 0 <= k < |numbered| ==> intCandidateMap[k + 1] == Some(numbered[k])
      invariant varCount == |numbered| + 1
    {
      var m := sel[ids[i]];
      FlattenStep(sel, ids, i);
      ghost var start := numbered;
      var j := 0;
      while j < |m|
        invariant 0 <= j <= |m|
        invariant numbered == start + m[..j]
        invariant candidateIntMap == Numbered(numbered)
        invariant |intCandidateMap| == |numbered| + 1 && intCandidateMap[0] == None
        invariant forall k :: 0 <= k < |numbered| ==> intCandidateMap[k + 1] == Some(numbered[k])
        invariant varCount == |numbered| + 1
      {
        var candidate := m[j];
        NumberedStep(numbered, candidate);
        candidateIntMap := candidateIntMap[candidate := varCount];
        varCount := varCount + 1;
        intCandidateMap := intCandidateMap + [Some(candidate)];
        assert m[..j + 1] == m[..j] + [candidate];
        numbered := numbered + [candidate];
        j := j + 1;
      }
      assert m[..j] == m;
      i := i + 1;
    }
    assert ids[..i] == ids;
  }

  // ---------------------------------------------------------------------
  // Adding the clauses

  /** Clauses added before a failure are a prefix of all the clauses. */
  lemma PartialPrefix(start: seq<Clause>, a: seq<Clause>, b: seq<Clause>, total: seq<Clause>, cur: seq<Clause>)
    requires cur <= (start + a) + b && a + b <= total
    ensures cur <= start + total
  {
    ConcatAssoc(start, a, b);
    PrefixExtend(start, a + b, total);
    PrefixTrans(cur, start + (a + b), start + total);
  }

  lemma {:induction false} CardinalityPrefix(ids: seq<string>, sel: Selection, mandatory: set<string>, vm: map<ModCandidate, int>, i: nat)
    requires i <= |ids| && forall k :: 0 <= k < |ids| ==> ids[k] in sel
    requires VarsFor(sel, vm)
    ensures CardinalityClauses(ids[..i], sel, mandatory, vm) <= CardinalityClauses(ids, sel, mandatory, vm)
    decreases |ids|
  {
    if i < |ids| {
      var init := ids[..|ids| - 1];
      assert init[..i] == ids[..i];
      CardinalityPrefix(init, sel, mandatory, vm, i);
      PrefixTrans(CardinalityClauses(ids[..i], sel, mandatory, vm), CardinalityClauses(init, sel, mandatory, vm),
                  CardinalityClauses(ids, sel, mandatory, vm));
    } else {
      assert ids[..i] == ids;
    }
  }

  lemma CardinalityStep(ids: seq<string>, sel: Selection, mandatory: set<string>, vm: map<ModCandidate, int>, i: nat)
    requires i < |ids| && forall k :: 0 <= k < |ids| ==> ids[k] in sel
    requires VarsFor(sel, vm)
    ensures CardinalityClauses(ids[..i + 1], sel, mandatory, vm)
      == CardinalityClauses(ids[..i], sel, mandatory, vm) + CardinalityClause(ids[i], sel, mandatory, vm)
  {
    assert ids[..i + 1][..i] == ids[..i];
  }

  lemma CardinalityPartial(start: seq<Clause>, ids: seq<string>, sel: Selection, mandatory: set<string>, vm: map<ModCandidate, int>,
                           i: nat, cur: seq<Clause>)
    requires i < |ids| && forall k :: 0 <= k < |ids| ==> ids[k] in sel
    requires VarsFor(sel, vm)
    requires cur <= (start + CardinalityClauses(ids[..i], sel, mandatory, vm)) + CardinalityClause(ids[i], sel, mandatory, vm)
    ensures cur <= start + CardinalityClauses(ids, sel, mandatory, vm)
  {
    CardinalityStep(ids, sel, mandatory, vm, i);
    CardinalityPrefix(ids, sel, mandatory, vm, i + 1);
    PartialPrefix(start, CardinalityClauses(ids[..i], sel, mandatory, vm),
                  CardinalityClause(ids[i], sel, mandatory, vm), CardinalityClauses(ids, sel, mandatory, vm), cur);
  }

  /** One ID's constraint: "exactly one" of its candidates if it is mandatory, "at most one" otherwise. */
  method AddIdConstraint(solver: Solver, id: string, sel: Selection, mandatory: set<string>, vm: map<ModCandidate, int>)
    returns (ok: bool)
    requires solver.Valid()
    requires id in sel && VarsFor(sel, vm)
    modifies solver
    ensures solver.Valid()
    ensures solver.nVars == old(solver.nVars) && solver.model == old(solver.model)
    ensures ok ==> solver.clauses == old(solver.clauses) + CardinalityClause(id, sel, mandatory, vm)
    ensures old(solver.clauses) <= solver.clauses <= old(solver.clauses) + CardinalityClause(id, sel, mandatory, vm)
    ensures !ok ==> forall m :: !AllTrue(m, solver.clauses)
  {
    var versionVec := VarsOf(sel[id], vm);
    VarsOfPositive(sel[id], vm);
    if id in mandatory {
      ok := solver.AddExactlyOne(versionVec);
    } else {
      ok := solver.AddAtMostOne(versionVec);
    }
  }

  /**
   * The cardinality loop: for each ID in turn, "exactly one" of its
   * candidates' variables if it is mandatory and "at most one" otherwise.
   * A contradiction ends the loop, naming the ID; the clauses added by then
   * begin the full list and are already unsatisfiable.
   */
  method AddCardinality(solver: Solver, ids: seq<string>, sel: Selection, mandatory: set<string>, vm: map<ModCandidate, int>)
    returns (err: Option<ResolutionError>)
    requires solver.Valid()
    requires forall k :: 0 <= k < |ids| ==> ids[k] in sel
    requires VarsFor(sel, vm)
    modifies solver
    ensures solver.Valid()
    ensures solver.nVars == old(solver.nVars) && solver.model == old(solver.model)
    ensures err.None? ==> solver.clauses == old(solver.clauses) + CardinalityClauses(ids, sel, mandatory, vm)
    ensures err.Some? ==>
      && solver.clauses <= old(solver.clauses) + CardinalityClauses(ids, sel, mandatory, vm)
      && (forall m :: !AllTrue(m, solver.clauses))
      && exists k :: 0 <= k < |ids|
           && err.value == Contradiction(AddingMod(ids[k]))
           && old(solver.clauses) + CardinalityClauses(ids[..k], sel, mandatory, vm) <= solver.clauses
           && solver.clauses <= old(solver.clauses) + CardinalityClauses(ids[..k], sel, mandatory, vm) + CardinalityClause(ids[k], sel, mandatory, vm)
  {
    var i := 0;
    while i < |ids|
      invariant 0 <= i <= |ids|
      invariant solver.Valid()
      invariant solver.nVars == old(solver.nVars) && solver.model == old(solver.model)
      invariant solver.clauses == old(solver.clauses) + CardinalityClauses(ids[..i], sel, mandatory, vm)
    {
      var id := ids[i];
      var ok := AddIdConstraint(solver, id, sel, mandatory, vm);
      if !ok {
        CardinalityPartial(old(solver.clauses), ids, sel, mandatory, vm, i, solver.clauses);
        assert old(solver.clauses) + CardinalityClauses(ids[..i], sel, mandatory, vm) <= solver.clauses
          <= old(solver.clauses) + CardinalityClauses(ids[..i], sel, mandatory, vm) + CardinalityClause(ids[i], sel, mandatory, vm);
        return Some(Contradiction(AddingMod(id)));
      }
      CardinalityStep(ids, sel, mandatory, vm, i);
      ConcatAssoc(old(solver.clauses), CardinalityClauses(ids[..i], sel, mandatory, vm), CardinalityClause(id, sel, mandatory, vm));
      i := i + 1;
    }
    assert ids[..i] == ids;
    return None;
  }

  lemma {:induction false} DependsPrefix(x: int, deps: seq<Dependency>, sel: Selection, vm: map<ModCandidate, int>, matches: Matcher, j: nat)
    requires j <= |deps| && VarsFor(sel, vm)
    ensures DependsClauses(x, deps[..j], sel, vm, matches) <= DependsClauses(x, deps, sel, vm, matches)
    decreases |deps|
  {
    if j < |deps| {
      var init := deps[..|deps| - 1];
      assert init[..j] == deps[..j];
      DependsPrefix(x, init, sel, vm, matches, j);
      PrefixTrans(DependsClauses(x, deps[..j], sel, vm, matches), DependsClauses(x, init, sel, vm, matches),
                  DependsClauses(x, deps, sel, vm, matches));
    } else {
      assert deps[..j] == deps;
    }
  }

  lemma {:induction false} BreaksPrefix(x: int, deps: seq<Dependency>, sel: Selection, vm: map<ModCandidate, int>, matches: Matcher, j: nat)
    requires j <= |deps| && VarsFor(sel, vm)
    ensures BreaksClauses(x, deps[..j], sel, vm, matches) <= BreaksClauses(x, deps, sel, vm, matches)
    decreases |deps|
  {
    if j < |deps| {
      var init := deps[..|deps| - 1];
      assert init[..j] == deps[..j];
      BreaksPrefix(x, init, sel, vm, matches, j);
      PrefixTrans(BreaksClauses(x, deps[..j], sel, vm, matches), BreaksClauses(x, init, sel, vm, matches),
                  BreaksClauses(x, deps, sel, vm, matches));
    } else {
      assert deps[..j] == deps;
    }
  }

  lemma {:induction false} DependencyPrefix(cands: seq<ModCandidate>, sel: Selection, vm: map<ModCandidate, int>, matches: Matcher, k: nat)
    requires k <= |cands| && (forall c :: c in cands ==> c in vm) && VarsFor(sel, vm)
    ensures DependencyClauses(cands[..k], sel, vm, matches) <= DependencyClauses(cands, sel, vm, matches)
    decreases |cands|
  {
    if k < |cands| {
      var init := cands[..|cands| - 1];
      assert init[..k] == cands[..k];
      DependencyPrefix(init, sel, vm, matches, k);
      PrefixTrans(DependencyClauses(cands[..k], sel, vm, matches), DependencyClauses(init, sel, vm, matches),
                  DependencyClauses(cands, sel, vm, matches));
    } else {
      assert cands[..k] == cands;
    }
  }

  lemma DependsStep(x: int, deps: seq<Dependency>, sel: Selection, vm: map<ModCandidate, int>, matches: Matcher, j: nat)
    requires j < |deps| && VarsFor(sel, vm)
    ensures DependsClauses(x, deps[..j + 1], sel, vm, matches)
      == DependsClauses(x, deps[..j], sel, vm, matches) + [MatchingVars(deps[j], sel, vm, matches) + [-x]]
  {
    assert deps[..j + 1][..j] == deps[..j];
  }

  lemma DependsPartial(start: seq<Clause>, x: int, deps: seq<Dependency>, sel: Selection, vm: map<ModCandidate, int>, matches: Matcher,
                       j: nat, cur: seq<Clause>)
    requires j < |deps| && VarsFor(sel, vm)
    requires cur <= (start + DependsClauses(x, deps[..j], sel, vm, matches)) + [MatchingVars(deps[j], sel, vm, matches) + [-x]]
    ensures cur <= start + DependsClauses(x, deps, sel, vm, matches)
  {
    DependsStep(x, deps, sel, vm, matches, j);
    DependsPrefix(x, deps, sel, vm, matches, j + 1);
    PartialPrefix(start, DependsClauses(x, deps[..j], sel, vm, matches), [MatchingVars(deps[j], sel, vm, matches) + [-x]],
                  DependsClauses(x, deps, sel, vm, matches), cur);
  }

  /**
   * The clauses after the clause of `deps[j]` clashed: the full clauses of
   * the entries before it, then that clause itself.
   */
  predicate DependsFailedAt(start: seq<Clause>, cur: seq<Clause>, x: int, deps: seq<Dependency>, j: nat,
                            sel: Selection, vm: map<ModCandidate, int>, matches: Matcher)
    requires j < |deps| && VarsFor(sel, vm)
  {
    cur == start + DependsClauses(x, deps[..j], sel, vm, matches) + [MatchingVars(deps[j], sel, vm, matches) + [-x]]
  }

  /** Where a contradiction met while adding the clauses of candidate `c` may be reported. */
  predicate SiteOf(c: ModCandidate, site: ContradictionSite)
  {
    || (site.Requires? && site.modId == c.info.id && site.dep in c.info.depends)
    || (site.Breaks? && site.modId == c.info.id && site.dep in c.info.breaks)
  }

  /** The clause of one `depends` entry: the variables of the candidates it accepts, or `-x`. */
  method AddDependsEntry(solver: Solver, x: int, dep: Dependency, sel: Selection, vm: map<ModCandidate, int>, matches: Matcher)
    returns (ok: bool)
    requires solver.Valid() && x > 0 && VarsFor(sel, vm)
    modifies solver
    ensures solver.Valid()
    ensures solver.nVars == old(solver.nVars) && solver.model == old(solver.model)
    ensures solver.clauses == old(solver.clauses) + [MatchingVars(dep, sel, vm, matches) + [-x]]
    ensures !ok ==> forall m :: !AllTrue(m, solver.clauses)
  {
    var matchingCandidates := MatchingVars(dep, sel, vm, matches);
    MatchingVarsPositive(dep, sel, vm, matches);
    ok := solver.AddClause(matchingCandidates + [-x]);
  }

  /**
   * For each `depends` entry of a candidate with variable `x`: the clause of
   * the variables of the selectable candidates it accepts, then `-x`.
   */
  method AddDependsOf(solver: Solver, c: ModCandidate, sel: Selection, vm: map<ModCandidate, int>, matches: Matcher)
    returns (err: Option<ResolutionError>)
    requires solver.Valid()
    requires c in vm && vm[c] > 0 && VarsFor(sel, vm)
    modifies solver
    ensures solver.Valid()
    ensures solver.nVars == old(solver.nVars) && solver.model == old(solver.model)
    ensures err.None? ==> solver.clauses == old(solver.clauses) + DependsClauses(vm[c], c.info.depends, sel, vm, matches)
    ensures solver.clauses <= old(solver.clauses) + DependsClauses(vm[c], c.info.depends, sel, vm, matches)
    ensures err.Some? ==>
      exists j {:trigger DependsFailedAt(old(solver.clauses), solver.clauses, vm[c], c.info.depends, j, sel, vm, matches)} ::
        && 0 <= j < |c.info.depends|
        && err.value == Contradiction(Requires(c.info.id, c.info.depends[j]))
        && DependsFailedAt(old(solver.clauses), solver.clauses, vm[c], c.info.depends, j, sel, vm, matches)
    ensures err.Some? ==> (forall m :: !AllTrue(m, solver.clauses)) && err.value.Contradiction? && SiteOf(c, err.value.site)
  {
    var x := vm[c];
    var deps := c.info.depends;
    var j := 0;
    while j < |deps|
      invariant 0 <= j <= |deps|
      invariant solver.Valid()
      invariant solver.nVars == old(solver.nVars) && solver.model == old(solver.model)
      invariant solver.clauses == old(solver.clauses) + DependsClauses(x, deps[..j], sel, vm, matches)
    {
      var ok := AddDependsEntry(solver, x, deps[j], sel, vm, matches);
      if !ok {
        assert DependsFailedAt(old(solver.clauses), solver.clauses, x, deps, j, sel, vm, matches);
        DependsPartial(old(solver.clauses), x, deps, sel, vm, matches, j, solver.clauses);
        return Some(Contradiction(Requires(c.info.id, deps[j])));
      }
      DependsStep(x, deps, sel, vm, matches, j);
      ConcatAssoc(old(solver.clauses), DependsClauses(x, deps[..j], sel, vm, matches),
                  [MatchingVars(deps[j], sel, vm, matches) + [-x]]);
      j := j + 1;
    }
    assert deps[..j] == deps;
    return None;
  }

  lemma BreaksStep(x: int, deps: seq<Dependency>, sel: Selection, vm: map<ModCandidate, int>, matches: Matcher, j: nat)
    requires j < |deps| && VarsFor(sel, vm)
    ensures BreaksClauses(x, deps[..j + 1], sel, vm, matches)
      == BreaksClauses(x, deps[..j], sel, vm, matches) + PairsWith(x, MatchingVars(deps[j], sel, vm, matches))
  {
    assert deps[..j + 1][..j] == deps[..j];
  }

  lemma BreaksPartial(start: seq<Clause>, x: int, deps: seq<Dependency>, sel: Selection, vm: map<ModCandidate, int>, matches: Matcher,
                      j: nat, cur: seq<Clause>)
    requires j < |deps| && VarsFor(sel, vm)
    requires cur <= (start + BreaksClauses(x, deps[..j], sel, vm, matches)) + PairsWith(x, MatchingVars(deps[j], sel, vm, matches))
    ensures cur <= start + BreaksClauses(x, deps, sel, vm, matches)
  {
    BreaksStep(x, deps, sel, vm, matches, j);
    BreaksPrefix(x, deps, sel, vm, matches, j + 1);
    PartialPrefix(start, BreaksClauses(x, deps[..j], sel, vm, matches), PairsWith(x, MatchingVars(deps[j], sel, vm, matches)),
                  BreaksClauses(x, deps, sel, vm, matches), cur);
  }

  /**
   * The clauses after a pair of `deps[j]` clashed: the full clauses of the
   * entries before it, then some of the pairs of `deps[j]` itself.
   */
  predicate BreaksFailedAt(start: seq<Clause>, cur: seq<Clause>, x: int, deps: seq<Dependency>, j: nat,
                           sel: Selection, vm: map<ModCandidate, int>, matches: Matcher)
    requires j < |deps| && VarsFor(sel, vm)
  {
    && start + BreaksClauses(x, deps[..j], sel, vm, matches) <= cur
    && cur <= start + BreaksClauses(x, deps[..j], sel, vm, matches) + PairsWith(x, MatchingVars(deps[j], sel, vm, matches))
  }

  /** The pairs of one `breaks` entry: `[-x, -y]` for each candidate variable `y` it accepts. */
  method AddBreaksEntry(solver: Solver, x: int, dep: Dependency, sel: Selection, vm: map<ModCandidate, int>, matches: Matcher)
    returns (ok: bool)
    requires solver.Valid() && x > 0 && VarsFor(sel, vm)
    modifies solver
    ensures solver.Valid()
    ensures solver.nVars == old(solver.nVars) && solver.model == old(solver.model)
    ensures ok ==> solver.clauses == old(solver.clauses) + PairsWith(x, MatchingVars(dep, sel, vm, matches))
    ensures old(solver.clauses) <= solver.clauses <= old(solver.clauses) + PairsWith(x, MatchingVars(dep, sel, vm, matches))
    ensures !ok ==> forall m :: !AllTrue(m, solver.clauses)
  {
    var matchingCandidates := MatchingVars(dep, sel, vm, matches);
    MatchingVarsPositive(dep, sel, vm, matches);
    ok := solver.AddPairs(x, matchingCandidates);
  }

  /**
   * For each `breaks` entry of a candidate with variable `x`: a clause
   * `[-x, -y]` for the variable `y` of each selectable candidate it accepts.
   */
  method AddBreaksOf(solver: Solver, c: ModCandidate, sel: Selection, vm: map<ModCandidate, int>, matches: Matcher)
    returns (err: Option<ResolutionError>)
    requires solver.Valid()
    requires c in vm && vm[c] > 0 && VarsFor(sel, vm)
    modifies solver
    ensures solver.Valid()
    ensures solver.nVars == old(solver.nVars) && solver.model == old(solver.model)
    ensures err.None? ==> solver.clauses == old(solver.clauses) + BreaksClauses(vm[c], c.info.breaks, sel, vm, matches)
    ensures solver.clauses <= old(solver.clauses) + BreaksClauses(vm[c], c.info.breaks, sel, vm, matches)
    ensures err.Some? ==> (forall m :: !AllTrue(m, solver.clauses)) && err.value.Contradiction? && SiteOf(c, err.value.site)
    ensures err.Some? ==>
      exists j {:trigger BreaksFailedAt(old(solver.clauses), solver.clauses, vm[c], c.info.breaks, j, sel, vm, matches)} ::
        && 0 <= j < |c.info.breaks|
        && err.value == Contradiction(Breaks(c.info.id, c.info.breaks[j]))
        && BreaksFailedAt(old(solver.clauses), solver.clauses, vm[c], c.info.breaks, j, sel, vm, matches)
  {
    var x := vm[c];
    var deps := c.info.breaks;
    var j := 0;
    while j < |deps|
      invariant 0 <= j <= |deps|
      invariant solver.Valid()
      invariant solver.nVars == old(solver.nVars) && solver.model == old(solver.model)
      invariant solver.clauses == old(solver.clauses) + BreaksClauses(x, deps[..j], sel, vm, matches)
    {
      var ok := AddBreaksEntry(solver, x, deps[j], sel, vm, matches);
      if !ok {
        assert BreaksFailedAt(old(solver.clauses), solver.clauses, x, deps, j, sel, vm, matches);
        BreaksPartial(old(solver.clauses), x, deps, sel, vm, matches, j, solver.clauses);
        return Some(Contradiction(Breaks(c.info.id, deps[j])));
      }
      BreaksStep(x, deps, sel, vm, matches, j);
      ConcatAssoc(old(solver.clauses), BreaksClauses(x, deps[..j], sel, vm, matches), PairsWith(x, MatchingVars(deps[j], sel, vm, matches)));
      j := j + 1;
    }
    assert deps[..j] == deps;
    return None;
  }

  /** All clauses of one candidate: its `depends`, then its `breaks`. */
  method AddCandidateClauses(solver: Solver, c: ModCandidate, sel: Selection, vm: map<ModCandidate, int>, matches: Matcher)
    returns (err: Option<ResolutionError>)
    requires solver.Valid()
    requires c in vm && vm[c] > 0 && VarsFor(sel, vm)
    modifies solver
    ensures solver.Valid()
    ensures solver.nVars == old(solver.nVars) && solver.model == old(solver.model)
    ensures err.None? ==> solver.clauses == old(solver.clauses) + CandidateClauses(c, sel, vm, matches)
    ensures solver.clauses <= old(solver.clauses) + CandidateClauses(c, sel, vm, matches)
    ensures err.Some? ==> (forall m :: !AllTrue(m, solver.clauses)) && err.value.Contradiction? && SiteOf(c, err.value.site)
  {
    var x := vm[c];
    ghost var depends := DependsClauses(x, c.info.depends, sel, vm, matches);
    ghost var breaks := BreaksClauses(x, c.info.breaks, sel, vm, matches);
    err := AddDependsOf(solver, c, sel, vm, matches);
    if err.Some? {
      PrefixExtend(old(solver.clauses), depends, depends + breaks);
      PrefixTrans(solver.clauses, old(solver.clauses) + depends, old(solver.clauses) + (depends + breaks));
      return;
    }
    err := AddBreaksOf(solver, c, sel, vm, matches);
    PartialPrefix(old(solver.clauses), depends, breaks, depends + breaks, solver.clauses);
    ConcatAssoc(old(solver.clauses), depends, breaks);
  }

  lemma DependencyStep(cands: seq<ModCandidate>, sel: Selection, vm: map<ModCandidate, int>, matches: Matcher, k: nat)
    requires k < |cands| && (forall c :: c in cands ==> c in vm) && VarsFor(sel, vm)
    ensures DependencyClauses(cands[..k + 1], sel, vm, matches)
      == DependencyClauses(cands[..k], sel, vm, matches) + CandidateClauses(cands[k], sel, vm, matches)
  {
    assert cands[..k + 1][..k] == cands[..k];
  }

  lemma DependencyPartial(start: seq<Clause>, cands: seq<ModCandidate>, sel: Selection, vm: map<ModCandidate, int>, matches: Matcher,
                          k: nat, cur: seq<Clause>)
    requires k < |cands| && (forall c :: c in cands ==> c in vm) && VarsFor(sel, vm)
    requires cur <= (start + DependencyClauses(cands[..k], sel, vm, matches)) + CandidateClauses(cands[k], sel, vm, matches)
    ensures cur <= start + DependencyClauses(cands, sel, vm, matches)
  {
    DependencyStep(cands, sel, vm, matches, k);
    DependencyPrefix(cands, sel, vm, matches, k + 1);
    PartialPrefix(start, DependencyClauses(cands[..k], sel, vm, matches), CandidateClauses(cands[k], sel, vm, matches),
                  DependencyClauses(cands, sel, vm, matches), cur);
  }

  /**
   * The dependency loop: the clauses of each numbered candidate in turn. A
   * contradiction ends it, naming the candidate's ID and the dependency
   * being added.
   */
  method AddDependencies(solver: Solver, cands: seq<ModCandidate>, sel: Selection, vm: map<ModCandidate, int>, matches: Matcher)
    returns (err: Option<ResolutionError>)
    requires solver.Valid()
    requires (forall c :: c in cands ==> c in vm && vm[c] > 0) && VarsFor(sel, vm)
    modifies solver
    ensures solver.Valid()
    ensures solver.nVars == old(solver.nVars) && solver.model == old(solver.model)
    ensures err.None? ==> solver.clauses == old(solver.clauses) + DependencyClauses(cands, sel, vm, matches)
    ensures solver.clauses <= old(solver.clauses) + DependencyClauses(cands, sel, vm, matches)
    ensures err.Some? ==>
      && (forall m :: !AllTrue(m, solver.clauses))
      && err.value.Contradiction? && exists k :: 0 <= k < |cands| && SiteOf(cands[k], err.value.site)
  {
    var k := 0;
    while k < |cands|
      invariant 0 <= k <= |cands|
      invariant solver.Valid()
      invariant solver.nVars == old(solver.nVars) && solver.model == old(solver.model)
      invariant solver.clauses == old(solver.clauses) + DependencyClauses(cands[..k], sel, vm, matches)
    {
      var mod := cands[k];
      err := AddCandidateClauses(solver, mod, sel, vm, matches);
      if err.Some? {
        DependencyPartial(old(solver.clauses), cands, sel, vm, matches, k, solver.clauses);
        return;
      }
      DependencyStep(cands, sel, vm, matches, k);
      ConcatAssoc(old(solver.clauses), DependencyClauses(cands[..k], sel, vm, matches), CandidateClauses(mod, sel, vm, matches));
      k := k + 1;
    }
    assert cands[..k] == cands;
    return None;
  }

  /**
   * The whole formula: the cardinality constraints, then the clauses of
   * every numbered candidate. On a contradiction the clauses added by then
   * begin the formula and are already unsatisfiable.
   */
  method AddConstraints(solver: Solver, ids: seq<string>, sel: Selection, mandatory: set<string>, cands: seq<ModCandidate>,
                        vm: map<ModCandidate, int>, matches: Matcher)
    returns (err: Option<ResolutionError>)
    requires solver.Valid()
    requires forall k :: 0 <= k < |ids| ==> ids[k] in sel
    requires (forall c :: c in cands ==> c in vm && vm[c] > 0) && VarsFor(sel, vm)
    modifies solver
    ensures solver.Valid()
    ensures solver.nVars == old(solver.nVars) && solver.model == old(solver.model)
    ensures err.None? ==> solver.clauses == old(solver.clauses) + Encode(ids, sel, mandatory, cands, vm, matches)
    ensures err.Some? ==>
      && solver.clauses <= old(solver.clauses) + Encode(ids, sel, mandatory, cands, vm, matches)
      && (forall m :: !AllTrue(m, solver.clauses))
      && err.value.Contradiction?
  {
    ghost var card := CardinalityClauses(ids, sel, mandatory, vm);
    ghost var deps := DependencyClauses(cands, sel, vm, matches);
    err := AddCardinality(solver, ids, sel, mandatory, vm);
    if err.Some? {
      PrefixExtend(old(solver.clauses), card, card + deps);
      PrefixTrans(solver.clauses, old(solver.clauses) + card, old(solver.clauses) + (card + deps));
      return;
    }
    err := AddDependencies(solver, cands, sel, vm, matches);
    PartialPrefix(old(solver.clauses), card, deps, card + deps, solver.clauses);
    ConcatAssoc(old(solver.clauses), card, deps);
  }

  // ---------------------------------------------------------------------
  // Probing

  /** The first satisfiable candidate is the one found by trying them in order. */
  lemma {:induction false} FirstSatisfiableAt(cls: seq<Clause>, asm: seq<int>, vs: seq<int>, k: nat, j: nat)
    requires k <= j < |vs| && Satisfiable(cls, asm + [vs[j]])
    requires forall t :: k <= t < j ==> !Satisfiable(cls, asm + [vs[t]])
    ensures FirstSatisfiable(cls, asm, vs, k) == Some(j)
    decreases j - k
  {
    var here := Satisfiable(cls, asm + [vs[k]]);
    if k < j {
      assert !here;
      FirstSatisfiableAt(cls, asm, vs, k + 1, j);
      assert FirstSatisfiable(cls, asm, vs, k) == FirstSatisfiable(cls, asm, vs, k + 1);
    } else {
      assert here;
    }
  }

  /** Probing an ID whose candidate `j` is the first to fit assumes it and goes on. */
  lemma ProbeStepFound(cls: seq<Clause>, ids: seq<string>, i: nat, sel: Selection, mandatory: set<string>,
                       vm: map<ModCandidate, int>, asm: seq<int>, lastSat: bool, j: nat)
    requires i < |ids| && forall k :: 0 <= k < |ids| ==> ids[k] in sel
    requires VarsFor(sel, vm)
    requires FirstSatisfiable(cls, asm, VarsOf(sel[ids[i]], vm), 0) == Some(j)
    ensures ProbeFrom(cls, ids[i..], sel, mandatory, vm, asm, lastSat)
      == ProbeFrom(cls, ids[i + 1..], sel, mandatory, vm, asm + [VarsOf(sel[ids[i]], vm)[j]], true)
  {
    assert ids[i..][0] == ids[i];
    assert ids[i..][1..] == ids[i + 1..];
  }

  /** Probing an ID none of whose candidates fits: stuck if it is mandatory, skipped otherwise. */
  lemma ProbeStepNone(cls: seq<Clause>, ids: seq<string>, i: nat, sel: Selection, mandatory: set<string>,
                      vm: map<ModCandidate, int>, asm: seq<int>, lastSat: bool)
    requires i < |ids| && forall k :: 0 <= k < |ids| ==> ids[k] in sel
    requires VarsFor(sel, vm)
    requires FirstSatisfiable(cls, asm, VarsOf(sel[ids[i]], vm), 0).None?
    ensures ids[i] in mandatory ==> ProbeFrom(cls, ids[i..], sel, mandatory, vm, asm, lastSat) == Stuck(ids[i])
    ensures ids[i] !in mandatory ==>
      ProbeFrom(cls, ids[i..], sel, mandatory, vm, asm, lastSat) == ProbeFrom(cls, ids[i + 1..], sel, mandatory, vm, asm, if sel[ids[i]] == [] then lastSat else false)
  {
    assert ids[i..][0] == ids[i];
    assert ids[i..][1..] == ids[i + 1..];
  }

  /**
   * The inner probing loop: the pushed slot `pos` of the assumptions is set
   * to each candidate's variable in order until the solver finds them
   * satisfiable. It succeeds exactly with the first candidate that keeps the
   * assumptions satisfiable, and then the solver holds a model;
   * otherwise every check made failed, so the solver holds a model only if
   * there was no candidate to check and it held one before.
   */
  method TryCandidates(solver: Solver, assumptions: seq<int>, candidates: seq<ModCandidate>, vm: map<ModCandidate, int>)
    returns (result: seq<int>, satisfied: bool)
    requires solver.Valid()
    requires |assumptions| > 0
    requires forall c :: c in candidates ==> c in vm
    modifies solver
    ensures solver.Valid()
    ensures solver.clauses == old(solver.clauses) && solver.units == old(solver.units) && solver.nVars == old(solver.nVars)
    ensures var pos := |assumptions| - 1;
      var first := FirstSatisfiable(solver.clauses, assumptions[..pos], VarsOf(candidates, vm), 0);
      && (satisfied <==> first.Some?)
      && (satisfied ==>
           && result == assumptions[..pos] + [VarsOf(candidates, vm)[first.value]]
           && solver.model.Some?)
      && (!satisfied ==>
           && |result| == |assumptions| && result[..pos] == assumptions[..pos]
           && solver.model == if candidates == [] then old(solver.model) else None)
  {
    ghost var cls := solver.clauses;
    var pos := |assumptions| - 1;
    ghost var asm := assumptions[..pos];
    ghost var vs := VarsOf(candidates, vm);
    result := assumptions;
    satisfied := false;
    var j := 0;
    while j < |candidates|
      invariant 0 <= j <= |candidates|
      invariant solver.Valid()
      invariant solver.clauses == cls && solver.units == old(solver.units) && solver.nVars == old(solver.nVars)
      invariant |result| == pos + 1 && result[..pos] == asm
      invariant forall t :: 0 <= t < j ==> !Satisfiable(cls, asm + [vs[t]])
      invariant j == 0 ==> solver.model == old(solver.model)
      invariant j > 0 ==> solver.model == None
    {
      result := result[pos := vm[candidates[j]]];
      assert result == asm + [vs[j]];
      var sat := solver.IsSatisfiable(result);
      if sat {
        satisfied := true;
        FirstSatisfiableAt(cls, asm, vs, 0, j);
        return;
      }
      assert !Satisfiable(cls, asm + [vs[j]]);
      j := j + 1;
    }
  }

  /**
   * The probing loop. For each ID in turn a slot is pushed onto the
   * assumptions and its candidates are tried; if none fits, a mandatory ID
   * ends resolution and any other ID's slot is popped. The outcome is
   * `ProbeFrom` of the formula, and the solver keeps a model exactly when
   * the last check it made succeeded.
   */
  method ProbeAssumptions(solver: Solver, ids: seq<string>, sel: Selection, mandatory: set<string>, vm: map<ModCandidate, int>)
    returns (r: Result<seq<int>, ResolutionError>)
    requires solver.Valid() && solver.model.None?
    requires forall k :: 0 <= k < |ids| ==> ids[k] in sel
    requires VarsFor(sel, vm)
    modifies solver
    ensures solver.Valid()
    ensures solver.clauses == old(solver.clauses) && solver.units == old(solver.units) && solver.nVars == old(solver.nVars)
    ensures var p := ProbeFrom(solver.clauses, ids, sel, mandatory, vm, [], false);
      && (r.Failure? <==> p.Stuck?)
      && (p.Stuck? ==> r.error == MandatoryUnresolvable(p.modId))
      && (p.Probed? ==> r.value == p.assumptions && (solver.model.Some? <==> p.lastSat))
  {
    ghost var cls := solver.clauses;
    ghost var outcome := ProbeFrom(cls, ids, sel, mandatory, vm, [], false);
    var assumptions: seq<int> := [];
    var i := 0;
    assert ids[0..] == ids;
    while i < |ids|
      invariant 0 <= i <= |ids|
      invariant solver.Valid()
      invariant solver.clauses == cls && solver.units == old(solver.units) && solver.nVars == old(solver.nVars)
      invariant ProbeFrom(cls, ids[i..], sel, mandatory, vm, assumptions, solver.model.Some?) == outcome
    {
      var mod := ids[i];
      ghost var asm := assumptions;
      ghost var lastSat := solver.model.Some?;
      ghost var first := FirstSatisfiable(cls, asm, VarsOf(sel[mod], vm), 0);
      var pos := |assumptions|;
      assumptions := assumptions + [0];
      assert assumptions[..pos] == asm;
      var satisfied;
      assumptions, satisfied := TryCandidates(solver, assumptions, sel[mod], vm);
      if !satisfied {
        ProbeStepNone(cls, ids, i, sel, mandatory, vm, asm, lastSat);
        if mod in mandatory {
          return Failure(MandatoryUnresolvable(mod));
        } else {
          assumptions := assumptions[..pos];
          assert solver.model.Some? == if sel[mod] == [] then lastSat else false;
        }
      } else {
        ProbeStepFound(cls, ids, i, sel, mandatory, vm, asm, lastSat, first.value);
        assert solver.model.Some?;
      }
      ghost var rest := ids[i + 1..];
      assert ProbeFrom(cls, rest, sel, mandatory, vm, assumptions, solver.model.Some?) == outcome;
      i := i + 1;
      assert ids[i..] == rest;
    }
    assert ids[i..] == [];
    return Success(assumptions);
  }

  // ---------------------------------------------------------------------
  // Reading the model

  /**
   * `problem.model()` as `findCompatibleSet` calls it, right after probing:
   * the model of the last satisfiability check, which fails when that check
   * failed (see `ModelLostAfterFailedProbe`).
   */
  method ModelAsWritten(solver: Solver) returns (r: Result<seq<int>, ResolutionError>)
    ensures r.Failure? <==> solver.model.None?
    ensures r.Failure? ==> r.error == NoModel
    ensures r.Success? ==> solver.model == Some(r.value)
  {
    if solver.model.None? {
      return Failure(NoModel);
    }
    return Success(solver.model.value);
  }

  /**
   * The model the code relies on ("assume satisfied"): one more check under
   * the final assumptions, whose model is then read. It fails only when the
   * assumptions are unsatisfiable.
   */
  method ModelOfAssumptions(solver: Solver, assumptions: seq<int>) returns (r: Result<seq<int>, ResolutionError>)
    requires solver.Valid()
    modifies solver
    ensures solver.Valid()
    ensures solver.clauses == old(solver.clauses) && solver.units == old(solver.units) && solver.nVars == old(solver.nVars)
    ensures r.Success? <==> Satisfiable(solver.clauses, assumptions)
    ensures r.Failure? ==> r.error == NoModel
    ensures r.Success? ==> exists m ::
      m <= Occurring(solver.clauses, assumptions) && Satisfies(m, solver.clauses, assumptions) && r.value == ModelOf(m, solver.nVars)
  {
    var sat := solver.IsSatisfiable(assumptions);
    if !sat {
      return Failure(NoModel);
    }
    return Success(solver.model.value);
  }

  /**
   * The decoding loop: each positive literal of the model names a candidate
   * through `intCandidateMap`, which is filed under its ID; a second
   * candidate for an ID already filed is an error. Decoding succeeds exactly
   * when no two true variables share an ID, and then holds exactly the
   * candidates whose variables are true.
   */
  method DecodeModel(model: seq<int>, intCandidateMap: seq<Option<ModCandidate>>, ghost m: set<int>, ghost cands: seq<ModCandidate>)
    returns (r: Result<map<string, ModCandidate>, ResolutionError>)
    requires model == ModelOf(m, |model|) && |cands| <= |model|
    requires forall v :: v in m ==> 1 <= v <= |cands|
    requires |intCandidateMap| == |cands| + 1
    requires forall k :: 0 <= k < |cands| ==> intCandidateMap[k + 1] == Some(cands[k])
    ensures r.Success? <==> NoSharedId(m, cands)
    ensures r.Success? ==> DecodedFrom(r.value, m, cands)
    ensures r.Failure? ==> r.error.DuplicateId?
  {
    var result: map<string, ModCandidate> := map[];
    var i := 0;
    while i < |model|
      invariant 0 <= i <= |model|
      invariant forall id :: id in result ==> exists k :: 0 <= k < i && k < |cands| && k + 1 in m && cands[k].info.id == id
      invariant forall k :: 0 <= k < i && k < |cands| && k + 1 in m ==>
        cands[k].info.id in result && result[cands[k].info.id] == cands[k]
      invariant forall a, b :: 0 <= a < b < i && b < |cands| && a + 1 in m && b + 1 in m ==> cands[a].info.id != cands[b].info.id
    {
      var lit := model[i];
      assert lit == if i + 1 in m then i + 1 else -(i + 1);
      if lit <= 0 {
        i := i + 1;
        continue;
      }
      assert i + 1 in m && i < |cands|;
      assert intCandidateMap[lit] == Some(cands[i]);
      var candidate := intCandidateMap[lit].value;
      var id := candidate.info.id;
      if id in result {
        ghost var k :| 0 <= k < i && k < |cands| && k + 1 in m && cands[k].info.id == id;
        assert !NoSharedId(m, cands) by {
          assert k < i && i + 1 in m && cands[k].info.id == cands[i].info.id;
        }
        return Failure(DuplicateId(id));
      }
      result := result[id := candidate];
      assert i < |cands| && i + 1 in m && cands[i].info.id == id;
      i := i + 1;
    }
    return Success(result);
  }

  // ---------------------------------------------------------------------
  // What solving yields

  lemma AllTruePrefix(m: set<int>, a: seq<Clause>, b: seq<Clause>)
    requires a <= b && AllTrue(m, b)
    ensures AllTrue(m, a)
  {
    forall i | 0 <= i < |a|
      ensures ClauseTrue(m, a[i])
    {
      assert a[i] == b[i];
    }
  }

  /** A contradiction among clauses that begin the formula leaves no valid selection. */
  lemma ContradictionMeansNoSelection(ids: seq<string>, sel: Selection, mandatory: set<string>, matches: Matcher, cur: seq<Clause>)
    requires WellFormed(sel) && Enumerates(ids, sel) && mandatory <= sel.Keys
    requires var cands := Flatten(sel, ids);
      cur <= Encode(ids, sel, mandatory, cands, Numbered(cands), matches)
    requires forall m :: !AllTrue(m, cur)
    ensures !exists result :: ValidSelection(result, sel, mandatory, matches)
  {
    var cands := Flatten(sel, ids);
    var cls := Encode(ids, sel, mandatory, cands, Numbered(cands), matches);
    SatisfiableIffValidSelection(ids, sel, mandatory, matches);
    if m :| AllTrue(m, cls) {
      AllTruePrefix(m, cur, cls);
    }
  }

  /** The variables true in a model of the formula under probed assumptions all number candidates. */
  lemma ModelInRange(m: set<int>, ids: seq<string>, sel: Selection, mandatory: set<string>, matches: Matcher, asm: seq<int>)
    requires Enumerates(ids, sel)
    requires var cands := Flatten(sel, ids);
      && (forall i :: 0 <= i < |asm| ==> CandidateVar(sel, Numbered(cands), asm[i]))
      && m <= Occurring(Encode(ids, sel, mandatory, cands, Numbered(cands), matches), asm)
    ensures forall v :: v in m ==> 1 <= v <= |Flatten(sel, ids)|
  {
    var cands := Flatten(sel, ids);
    var vm := Numbered(cands);
    var n := |cands|;
    NumberedWithin(sel, ids);
    EncodeBounded(ids, sel, mandatory, cands, vm, matches, n);
    forall i | 0 <= i < |asm|
      ensures 1 <= Var(asm[i]) <= n
    {
      assert CandidateVar(sel, vm, asm[i]);
      var id, c :| id in sel && c in sel[id] && c in vm && asm[i] == vm[c];
    }
    OccurringBounded(Encode(ids, sel, mandatory, cands, vm, matches), asm, n);
  }

  /**
   * An assignment satisfying the formula chooses no two candidates of one
   * ID, and what it decodes to is a valid selection.
   */
  lemma SatisfyingDecodesValid(m: set<int>, ids: seq<string>, sel: Selection, mandatory: set<string>, matches: Matcher,
                               result: map<string, ModCandidate>)
    requires WellFormed(sel) && Enumerates(ids, sel) && mandatory <= sel.Keys
    requires var cands := Flatten(sel, ids);
      AllTrue(m, Encode(ids, sel, mandatory, cands, Numbered(cands), matches))
    ensures NoSharedId(m, Flatten(sel, ids))
    ensures DecodedFrom(result, m, Flatten(sel, ids)) ==> ValidSelection(result, sel, mandatory, matches)
  {
    SatisfyingIffAdmissible(m, ids, sel, mandatory, matches);
    AdmissibleHasNoSharedId(m, ids, sel, mandatory, matches);
    if DecodedFrom(result, m, Flatten(sel, ids)) {
      AdmissibleSelectionIsValid(m, ids, sel, mandatory, matches, result);
    }
  }

  /**
   * The candidates greedy probing settles on are all in `result`: every
   * candidate whose variable ends up among the final assumptions (for each
   * ID, the first of its newest-first collection that kept the problem
   * satisfiable) is the one `result` holds for its ID.
   */
  ghost predicate KeepsProbedChoices(result: map<string, ModCandidate>, sel: Selection, ids: seq<string>,
                                     mandatory: set<string>, matches: Matcher)
  {
    && Enumerates(ids, sel)
    && (NumberedWithin(sel, ids);
        var cands := Flatten(sel, ids);
        var vm := Numbered(cands);
        var p := ProbeFrom(Encode(ids, sel, mandatory, cands, vm, matches), ids, sel, mandatory, vm, [], false);
        && p.Probed?
        && forall id, c :: id in sel && c in sel[id] && c in vm && vm[c] in p.assumptions ==> id in result && result[id] == c)
  }

  /**
   * What a satisfying assignment of the assumptions decodes to holds, for
   * each ID, the candidate whose variable was assumed.
   */
  lemma ProbedChoicesKept(m: set<int>, ids: seq<string>, sel: Selection, asm: seq<int>, result: map<string, ModCandidate>)
    requires WellFormed(sel) && Enumerates(ids, sel)
    requires forall i :: 0 <= i < |asm| ==> LitTrue(m, asm[i])
    requires DecodedFrom(result, m, Flatten(sel, ids))
    ensures var vm := Numbered(Flatten(sel, ids));
      forall id, c :: id in sel && c in sel[id] && c in vm && vm[c] in asm ==> id in result && result[id] == c
  {
    var cands := Flatten(sel, ids);
    var vm := Numbered(cands);
    forall id, c | id in sel && c in sel[id] && c in vm && vm[c] in asm
      ensures id in result && result[id] == c
    {
      var k := vm[c] - 1;
      assert cands[k] == c;
      var i :| 0 <= i < |asm| && asm[i] == vm[c];
      assert LitTrue(m, asm[i]);
      assert k + 1 in m;
    }
  }

  /**
   * The advanced branch: number the candidates, add the clauses, probe, read
   * the model under the final assumptions and decode it. It succeeds exactly
   * when a valid selection exists, and then returns one; otherwise it
   * reports the contradiction met or the mandatory ID probing got stuck on.
   */
  method SolveAdvanced(sel: Selection, ids: seq<string>, mandatory: set<string>, matches: Matcher)
    returns (r: Result<map<string, ModCandidate>, ResolutionError>)
    requires WellFormed(sel) && Enumerates(ids, sel) && mandatory <= sel.Keys
    ensures r.Success? <==> exists result :: ValidSelection(result, sel, mandatory, matches)
    ensures r.Success? ==> ValidSelection(r.value, sel, mandatory, matches)
    ensures r.Success? ==> KeepsProbedChoices(r.value, sel, ids, mandatory, matches)
    ensures r.Failure? ==> r.error.Contradiction? || r.error.MandatoryUnresolvable?
  {
    var candidateIntMap, intCandidateMap, varCount, numbered := NumberCandidates(sel, ids);
    ghost var cands := numbered;
    NumberedWithin(sel, ids);
    ghost var cls := Encode(ids, sel, mandatory, cands, candidateIntMap, matches);

    var solver := new Solver();
    solver.NewVar(varCount);
    var err := AddConstraints(solver, ids, sel, mandatory, numbered, candidateIntMap, matches);
    assert [] + cls == cls;
    if err.Some? {
      ContradictionMeansNoSelection(ids, sel, mandatory, matches, solver.clauses);
      return Failure(err.value);
    }

    var probed := ProbeAssumptions(solver, ids, sel, mandatory, candidateIntMap);
    ProbingStuckIffUnsatisfiable(ids, sel, mandatory, cands, candidateIntMap, matches);
    SatisfiableIffValidSelection(ids, sel, mandatory, matches);
    if probed.Failure? {
      return Failure(probed.error);
    }
    var asm := probed.value;
    ProbedAssumptionsAreCandidates(cls, ids, sel, mandatory, candidateIntMap, [], false);

    var model := ModelOfAssumptions(solver, asm);
    ghost var m :| m <= Occurring(cls, asm) && Satisfies(m, cls, asm) && model.value == ModelOf(m, varCount);
    ModelInRange(m, ids, sel, mandatory, matches, asm);
    SatisfyingDecodesValid(m, ids, sel, mandatory, matches, map[]);
    r := DecodeModel(model.value, intCandidateMap, m, cands);
    SatisfyingDecodesValid(m, ids, sel, mandatory, matches, r.value);
    ProbedChoicesKept(m, ids, sel, asm, r.value);
  }

  /**
   * The advanced branch as written up to `problem.model()`: the model is
   * read straight after probing, so it is lost whenever the last check
   * probing made failed, even though the final assumptions are satisfiable
   * (see `Findings.ModelLostAfterFailedProbe`).
   */
  method SolveAsWritten(sel: Selection, ids: seq<string>, mandatory: set<string>, matches: Matcher)
    returns (r: Result<seq<int>, ResolutionError>)
    requires WellFormed(sel) && Enumerates(ids, sel) && mandatory <= sel.Keys
    ensures var cands := Flatten(sel, ids);
      var p := ProbeFrom(Encode(ids, sel, mandatory, cands, Numbered(cands), matches), ids, sel, mandatory, Numbered(cands), [], false);
      && (r.Success? ==> p.Probed? && p.lastSat)
      && ((exists result :: ValidSelection(result, sel, mandatory, matches)) && p.Probed? && !p.lastSat ==> r == Failure(NoModel))
  {
    var candidateIntMap, intCandidateMap, varCount, numbered := NumberCandidates(sel, ids);
    NumberedWithin(sel, ids);
    ghost var cls := Encode(ids, sel, mandatory, numbered, candidateIntMap, matches);

    var solver := new Solver();
    solver.NewVar(varCount);
    var err := AddConstraints(solver, ids, sel, mandatory, numbered, candidateIntMap, matches);
    assert [] + cls == cls;
    if err.Some? {
      ContradictionMeansNoSelection(ids, sel, mandatory, matches, solver.clauses);
      return Failure(err.value);
    }

    var probed := ProbeAssumptions(solver, ids, sel, mandatory, candidateIntMap);
    if probed.Failure? {
      return Failure(probed.error);
    }
    r := ModelAsWritten(solver);
  }
}
