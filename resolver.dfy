/**
 * `findCompatibleSet`: choose one candidate per mod ID from the candidate
 * sets discovery produced. Without alternatives the only candidates are
 * taken as they are; otherwise the choice is encoded as clauses, assumptions
 * are probed greedily ID by ID, and the solver's model is decoded. Either way
 * the result is then checked for missing mandatory mods and for unmet
 * dependencies.
 */
module Resolver {
  import opened Wrappers
  import opened IterationOrder
  import opened Versions
  import opened CandidateSets
  import opened Sat
  import opened Encoding
  import opened Probing
  import opened ResultCheck
  import opened Numbering
  import opened ResolutionErrors
  import opened Solving

  // ---------------------------------------------------------------------
  // The candidate sets

  /**
   * What discovery guarantees of the sets it passes in: each is filed under
   * its own mod ID, holds only candidates of that ID, and is not empty (a set
   * is only created to take a candidate, and `add` on a new set inserts it).
   */
  ghost predicate SetsValid(sets: map<string, ModCandidateSet>)
    reads sets.Values
  {
    forall id :: id in sets ==>
      && sets[id].Valid()
      && sets[id].modId == id
      && sets[id].candidates != map[]
      && forall v :: v in sets[id].candidates ==> sets[id].candidates[v].info.id == id
  }

  /** Every set yields its selectable candidates. */
  ghost predicate AllSelectable(sets: map<string, ModCandidateSet>)
    reads sets.Values
    requires SetsValid(sets)
  {
    forall id :: id in sets ==> sets[id].ToSortedSet().Success?
  }

  /**
   * Since no set is empty, the only candidate-set error left is two or more
   * user-provided candidates of one mod ID.
   */
  lemma AllSelectableIff(sets: map<string, ModCandidateSet>)
    requires SetsValid(sets)
    ensures AllSelectable(sets) <==> forall id :: id in sets ==> |sets[id].depthZeroCandidates| <= 1
  {
  }

  /** The selectable candidates of every ID. */
  ghost function SelectionOf(sets: map<string, ModCandidateSet>): Selection
    reads sets.Values
    requires SetsValid(sets) && AllSelectable(sets)
  {
    map id | id in sets :: sets[id].ToSortedSet().value
  }

  /** The IDs some user-provided candidate was given for. */
  ghost function MandatoryOf(sets: map<string, ModCandidateSet>): set<string>
    reads sets.Values
    requires SetsValid(sets)
  {
    set id | id in sets && sets[id].IsUserProvided()
  }

  /** An ID with more than one candidate, or whose only candidate was nested. */
  predicate Advanced(sel: Selection)
  {
    exists id :: id in sel && sel[id] != [] && (|sel[id]| > 1 || sel[id][0].depth > 0)
  }

  lemma NewerDistinct(s: seq<ModCandidate>)
    requires StrictlyNewestFirst(s)
    ensures Distinct(s)
  {
    forall i, j | 0 <= i < j < |s|
      ensures s[i] != s[j]
    {
      assert Newer(s[i], s[j]);
    }
  }

  /** The selectable candidates form a well-formed selection whose mandatory IDs are among its keys. */
  lemma SelectionOfWellFormed(sets: map<string, ModCandidateSet>)
    requires SetsValid(sets) && AllSelectable(sets)
    ensures WellFormed(SelectionOf(sets))
    ensures SelectionOf(sets).Keys == sets.Keys
    ensures MandatoryOf(sets) <= sets.Keys
  {
    var sel := SelectionOf(sets);
    forall id | id in sel
      ensures sel[id] != [] && Distinct(sel[id]) && forall c: ModCandidate :: c in sel[id] ==> c.info.id == id
    {
      var r := sets[id].ToSortedSet();
      NewerDistinct(r.value);
      forall c: ModCandidate | c in sel[id]
        ensures c.info.id == id
      {
        var v :| v in sets[id].candidates && sets[id].candidates[v] == c;
      }
    }
  }

  /**
   * Without an advanced ID every ID's only candidate was given by the user,
   * so every ID is mandatory.
   */
  lemma NotAdvancedAllMandatory(sets: map<string, ModCandidateSet>)
    requires SetsValid(sets) && AllSelectable(sets)
    requires !Advanced(SelectionOf(sets))
    ensures MandatoryOf(sets) == sets.Keys
    ensures forall id :: id in sets ==> |SelectionOf(sets)[id]| == 1
  {
    var sel := SelectionOf(sets);
    SelectionOfWellFormed(sets);
    forall id | id in sets
      ensures sets[id].IsUserProvided() && |sel[id]| == 1
    {
      var c := sel[id][0];
      assert c in sel[id];
      var v :| v in sets[id].candidates && sets[id].candidates[v] == c;
    }
  }

  /** Adding an ID to a selection makes it advanced exactly when the ID's candidates do. */
  lemma AdvancedExtend(sel: Selection, id: string, cs: seq<ModCandidate>)
    requires id !in sel
    ensures Advanced(sel[id := cs]) <==> Advanced(sel) || (cs != [] && (|cs| > 1 || cs[0].depth > 0))
  {
    var sel' := sel[id := cs];
    if Advanced(sel) {
      var x :| x in sel && sel[x] != [] && (|sel[x]| > 1 || sel[x][0].depth > 0);
      assert sel'[x] == sel[x];
    }
    if cs != [] && (|cs| > 1 || cs[0].depth > 0) {
      assert sel'[id] == cs;
    }
    if Advanced(sel') {
      var x :| x in sel' && sel'[x] != [] && (|sel'[x]| > 1 || sel'[x][0].depth > 0);
      if x != id {
        assert sel[x] == sel'[x];
      }
    }
  }

  /**
   * The first loop of `findCompatibleSet`, walking the sets in the order
   * `ids`: each set's selectable candidates, the IDs with user-provided
   * candidates, and whether any ID has an alternative or a nested candidate.
   * The first set that cannot yield its candidates ends the loop with its
   * error.
   */
  method SelectableSets(sets: map<string, ModCandidateSet>, ids: seq<string>) returns (r: Result<Selection, SetError>, mandatory: set<string>, advanced: bool)
    requires SetsValid(sets)
    requires Distinct(ids) && forall id :: id in ids <==> id in sets
    ensures r.Success? <==> AllSelectable(sets)
    ensures r.Success? ==> r.value == SelectionOf(sets) && mandatory == MandatoryOf(sets) && (advanced <==> Advanced(r.value))
    ensures r.Failure? ==>
      exists k :: 0 <= k < |ids| && sets[ids[k]].ToSortedSet() == Failure(r.error) &&
        forall j :: 0 <= j < k ==> sets[ids[j]].ToSortedSet().Success?
  {
    var sel: Selection := map[];
    mandatory, advanced := {}, false;
    var i := 0;
    while i < |ids|
      invariant 0 <= i <= |ids|
      invariant forall id :: id in sel <==> id in ids[..i]
      invariant forall id :: id in sel ==> sets[id].ToSortedSet() == Success(sel[id])
      invariant forall id :: id in mandatory <==> id in sel && sets[id].IsUserProvided()
      invariant advanced <==> Advanced(sel)
    {
      var id := ids[i];
      var mcs := sets[id];
      var s := mcs.ToSortedSet();
      if s.Failure? {
        r := Failure(s.error);
        FirstFailure(sets, ids, i, sel);
        return;
      }
      NextFresh(ids, i);
      AdvancedExtend(sel, id, s.value);
      sel := sel[id := s.value];
      advanced := advanced || |s.value| > 1 || s.value[0].depth > 0;
      if mcs.IsUserProvided() {
        mandatory := mandatory + {id};
      }
      i := i + 1;
    }
    r := Success(sel);
    assert ids[..i] == ids;
    LoopGivesSelection(sets, sel, mandatory);
  }

  lemma NextFresh(ids: seq<string>, i: int)
    requires 0 <= i < |ids| && Distinct(ids)
    ensures ids[i] !in ids[..i]
    ensures forall x :: x in ids[..i + 1] <==> x in ids[..i] || x == ids[i]
  {
    assert ids[..i + 1] == ids[..i] + [ids[i]];
  }

  lemma FirstFailure(sets: map<string, ModCandidateSet>, ids: seq<string>, i: int, sel: Selection)
    requires SetsValid(sets) && 0 <= i < |ids| && forall id :: id in ids <==> id in sets
    requires forall id :: id in sel <==> id in ids[..i]
    requires forall id :: id in sel ==> sets[id].ToSortedSet() == Success(sel[id])
    requires sets[ids[i]].ToSortedSet().Failure?
    ensures !AllSelectable(sets)
    ensures forall j :: 0 <= j < i ==> sets[ids[j]].ToSortedSet().Success?
  {
    forall j | 0 <= j < i
      ensures sets[ids[j]].ToSortedSet().Success?
    {
      assert ids[..i][j] == ids[j];
    }
  }

  lemma LoopGivesSelection(sets: map<string, ModCandidateSet>, sel: Selection, mandatory: set<string>)
    requires SetsValid(sets) && sel.Keys == sets.Keys
    requires forall id :: id in sel ==> sets[id].ToSortedSet() == Success(sel[id])
    requires forall id :: id in mandatory <==> id in sel && sets[id].IsUserProvided()
    ensures AllSelectable(sets)
    ensures sel == SelectionOf(sets) && mandatory == MandatoryOf(sets)
  {
  }

  /** The simple path: every ID takes its first (here: only) candidate. */
  method FirstChoices(sel: Selection, ids: seq<string>) returns (result: map<string, ModCandidate>)
    requires Enumerates(ids, sel) && forall id :: id in sel ==> sel[id] != []
    ensures result.Keys == sel.Keys
    ensures forall id :: id in sel ==> result[id] == sel[id][0]
  {
    result := map[];
    var i := 0;
    while i < |ids|
      invariant 0 <= i <= |ids|
      invariant forall id :: id in result <==> exists j :: 0 <= j < i && ids[j] == id
      invariant forall id :: id in result ==> result[id] == sel[id][0]
    {
      result := result[ids[i] := sel[ids[i]][0]];
      i := i + 1;
    }
    forall id | id in sel
      ensures id in result
    {
      var j :| 0 <= j < |ids| && ids[j] == id;
    }
  }

  /**
   * With every ID mandatory and one candidate each, the only candidates are
   * the only selection that can be valid.
   */
  lemma OnlyCandidatesOnlySelection(sel: Selection, mandatory: set<string>, matches: Matcher,
                                    first: map<string, ModCandidate>, result: map<string, ModCandidate>)
    requires mandatory == sel.Keys && forall id :: id in sel ==> |sel[id]| == 1
    requires first.Keys == sel.Keys && forall id :: id in sel ==> first[id] == sel[id][0]
    requires ValidSelection(result, sel, mandatory, matches)
    ensures result == first
  {
    forall id | id in result
      ensures result[id] == first[id]
    {
      assert result[id] in sel[id];
    }
  }

  // ---------------------------------------------------------------------
  // Checking the result

  /** A candidate meets its hard requirements: every `depends` is met and no `breaks` is. */
  predicate MeetsHard(c: ModCandidate, result: map<string, ModCandidate>, matches: Matcher)
  {
    && (forall d :: d in c.info.depends ==> Matches(d, result, matches))
    && (forall d :: d in c.info.breaks ==> !Matches(d, result, matches))
  }

  /** `result.values()` visits every selected candidate and nothing else. */
  lemma ResultValuesAreValues(result: map<string, ModCandidate>, ids: seq<string>)
    requires forall id :: id in result ==> id in ids
    ensures forall c :: c in ResultValues(result, ids) <==> c in result.Values
  {
    forall c | c in result.Values
      ensures c in ResultValues(result, ids)
    {
      var id :| id in result && result[id] == c;
      var k :| 0 <= k < |ids| && ids[k] == id;
    }
  }

  lemma HardRequirementsMetIff(cs: seq<ModCandidate>, result: map<string, ModCandidate>, matches: Matcher)
    ensures HardRequirementsMet(cs, result, matches) <==> forall c :: c in cs ==> MeetsHard(c, result, matches)
  {
    if HardRequirementsMet(cs, result, matches) {
      forall c | c in cs
        ensures MeetsHard(c, result, matches)
      {
        var k :| 0 <= k < |cs| && cs[k] == c;
      }
    }
    if forall c :: c in cs ==> MeetsHard(c, result, matches) {
      forall k | 0 <= k < |cs|
        ensures MeetsHard(cs[k], result, matches)
      {
        assert cs[k] in cs;
      }
    }
  }

  /** A valid selection picks selectable candidates, covers the mandatory IDs and meets every hard requirement. */
  lemma ValidSelectionIff(result: map<string, ModCandidate>, sel: Selection, mandatory: set<string>, matches: Matcher)
    requires forall id :: id in result ==> id in sel && result[id] in sel[id]
    ensures ValidSelection(result, sel, mandatory, matches) <==>
      mandatory <= result.Keys && forall c :: c in result.Values ==> MeetsHard(c, result, matches)
  {
  }

  /**
   * On a result that picks from the selectable candidates, the final checks
   * pass exactly when the result is a valid selection: every mandatory ID
   * is present and the hard report is empty.
   */
  lemma ChecksPassIffValid(result: map<string, ModCandidate>, ids: seq<string>, sel: Selection,
                           mandatory: set<string>, matches: Matcher)
    requires forall id :: id in result ==> id in ids
    requires forall id :: id in result ==> id in sel && result[id] in sel[id]
    ensures ValidSelection(result, sel, mandatory, matches) <==>
      mandatory <= result.Keys && HardLines(ResultValues(result, ids), result, matches) == []
  {
    var cs := ResultValues(result, ids);
    HardLinesEmpty(cs, result, matches);
    HardRequirementsMetIff(cs, result, matches);
    ResultValuesAreValues(result, ids);
    ValidSelectionIff(result, sel, mandatory, matches);
  }

  /**
   * The final checks of `findCompatibleSet`: every mandatory ID must be in
   * the result, then the selected candidates are visited in `ids` order and
   * any hard line fails resolution; the soft lines are the warning.
   */
  method CheckResult(result: map<string, ModCandidate>, ids: seq<string>, mandatory: set<string>, matches: Matcher)
    returns (r: Result<map<string, ModCandidate>, ResolutionError>, warnings: seq<ErrorLine>)
    ensures var cs := ResultValues(result, ids);
      r.Success? <==> mandatory <= result.Keys && HardLines(cs, result, matches) == []
    ensures r.Success? ==> r.value == result && warnings == SoftLines(ResultValues(result, ids), result, matches)
    ensures r.Failure? && !(mandatory <= result.Keys) ==> r.error == MissingMods(mandatory - result.Keys)
    ensures r.Failure? && mandatory <= result.Keys ==>
      r.error == Unsatisfied(HardLines(ResultValues(result, ids), result, matches), SoftLines(ResultValues(result, ids), result, matches))
  {
    var missing := MissingModsOf(mandatory, result);
    if missing != {} {
      assert missing == mandatory - result.Keys;
      return Failure(MissingMods(missing)), [];
    }
    assert mandatory <= result.Keys by {
      forall id | id in mandatory
        ensures id in result
      {
        assert id !in missing;
      }
    }
    var cs := ResultValues(result, ids);
    var hard, soft := CheckCandidates(cs, result, matches);
    if hard != [] {
      return Failure(Unsatisfied(hard, soft)), [];
    }
    return Success(result), soft;
  }

  // ---------------------------------------------------------------------
  // findCompatibleSet

  /**
   * `findCompatibleSet` once the candidate sets are sorted: the simple path
   * (every ID's only candidate) or the solver, then the final checks.
   * Resolution succeeds exactly when a valid selection exists.
   */
  method ResolveSelection(sel: Selection, ids: seq<string>, mandatory: set<string>, advanced: bool, matches: Matcher)
    returns (r: Result<map<string, ModCandidate>, ResolutionError>, warnings: seq<ErrorLine>)
    requires WellFormed(sel) && Enumerates(ids, sel) && mandatory <= sel.Keys
    requires !advanced ==> mandatory == sel.Keys && forall id :: id in sel ==> |sel[id]| == 1
    ensures r.Success? <==> exists result :: ValidSelection(result, sel, mandatory, matches)
    ensures r.Success? ==>
      ValidSelection(r.value, sel, mandatory, matches) && warnings == SoftLines(ResultValues(r.value, ids), r.value, matches)
    ensures r.Failure? ==> !r.error.CandidateSetError?
    ensures r.Success? && !advanced ==> r.value.Keys == sel.Keys && forall id :: id in sel ==> r.value[id] == sel[id][0]
    ensures r.Success? && advanced ==> KeepsProbedChoices(r.value, sel, ids, mandatory, matches)
  {
    var result;
    if !advanced {
      result := FirstChoices(sel, ids);
      forall id | id in result
        ensures result[id] in sel[id]
      {
        assert sel[id][0] in sel[id];
      }
      if valid :| ValidSelection(valid, sel, mandatory, matches) {
        OnlyCandidatesOnlySelection(sel, mandatory, matches, result, valid);
      }
    } else {
      var solved := SolveAdvanced(sel, ids, mandatory, matches);
      if solved.Failure? {
        return Failure(solved.error), [];
      }
      result := solved.value;
    }
    ChecksPassIffValid(result, ids, sel, mandatory, matches);
    r, warnings := CheckResult(result, ids, mandatory, matches);
    if r.Success? {
      assert ValidSelection(result, sel, mandatory, matches);
    }
  }

  /**
   * What resolution promises of one selection it promises of an equal one.
   * The verifier does not carry the existential and the probing property
   * from `sel` over to an equal `SelectionOf(sets)` by itself at reasonable
   * cost; this lemma, proved on plain values, does that step for `ResolveSets`.
   */
  lemma SameResolution(r: Result<map<string, ModCandidate>, ResolutionError>, ids: seq<string>, sel: Selection, mandatory: set<string>,
                       sel': Selection, mandatory': set<string>, matches: Matcher)
    requires sel == sel' && mandatory == mandatory'
    requires r.Success? <==> exists result :: ValidSelection(result, sel, mandatory, matches)
    requires r.Success? ==> ValidSelection(r.value, sel, mandatory, matches)
    requires r.Success? && Advanced(sel) ==> KeepsProbedChoices(r.value, sel, ids, mandatory, matches)
    ensures r.Success? <==> exists result :: ValidSelection(result, sel', mandatory', matches)
    ensures r.Success? ==> ValidSelection(r.value, sel', mandatory', matches)
    ensures r.Success? && Advanced(sel') ==> KeepsProbedChoices(r.value, sel', ids, mandatory', matches)
  {
  }

  /** What the sorted candidate sets guarantee of the selection taken from them. */
  lemma SelectionFacts(sets: map<string, ModCandidateSet>, ids: seq<string>, sel: Selection, mandatory: set<string>)
    requires SetsValid(sets) && AllSelectable(sets)
    requires Distinct(ids) && forall id :: id in ids <==> id in sets
    requires sel == SelectionOf(sets) && mandatory == MandatoryOf(sets)
    ensures WellFormed(sel) && Enumerates(ids, sel) && mandatory <= sel.Keys && sel.Keys == sets.Keys
    ensures !Advanced(sel) ==> mandatory == sel.Keys && forall id :: id in sel ==> |sel[id]| == 1
  {
    SelectionOfWellFormed(sets);
    if !Advanced(sel) {
      NotAdvancedAllMandatory(sets);
    }
  }

  /**
   * `ResolveSelection` on the selection the candidate sets yield, its
   * promises restated for those sets. This is a separate step so that the
   * proof that `sel` may be replaced by `SelectionOf(sets)` runs without the
   * candidate-set error cases of `FindCompatibleSet` in its context; proved
   * inside `FindCompatibleSet`, it is too costly for the verifier.
   */
  method ResolveSets(sets: map<string, ModCandidateSet>, ids: seq<string>, sel: Selection, mandatory: set<string>,
                     advanced: bool, matches: Matcher)
    returns (r: Result<map<string, ModCandidate>, ResolutionError>, warnings: seq<ErrorLine>)
    requires SetsValid(sets) && AllSelectable(sets)
    requires Distinct(ids) && forall id :: id in ids <==> id in sets
    requires sel == SelectionOf(sets) && mandatory == MandatoryOf(sets) && (advanced <==> Advanced(sel))
    ensures r.Failure? ==> !r.error.CandidateSetError?
    ensures r.Success? <==> exists result :: ValidSelection(result, SelectionOf(sets), MandatoryOf(sets), matches)
    ensures r.Success? ==>
      && ValidSelection(r.value, SelectionOf(sets), MandatoryOf(sets), matches)
      && warnings == SoftLines(ResultValues(r.value, ids), r.value, matches)
    ensures r.Success? && advanced ==> KeepsProbedChoices(r.value, SelectionOf(sets), ids, MandatoryOf(sets), matches)
  {
    SelectionFacts(sets, ids, sel, mandatory);
    r, warnings := ResolveSelection(sel, ids, mandatory, advanced, matches);
    assert unchanged(sets.Values);
    SameResolution(r, ids, sel, mandatory, SelectionOf(sets), MandatoryOf(sets), matches);
  }

  /**
   * `findCompatibleSet` over the candidate sets `sets`, whose keys the map
   * lists in the order `ids`. A candidate set that cannot be sorted fails
   * first (the first one in `ids` order); otherwise resolution succeeds
   * exactly when some valid selection exists, returns one, and warns with
   * the soft lines for it.
   */
  method FindCompatibleSet(sets: map<string, ModCandidateSet>, ids: seq<string>, matches: Matcher)
    returns (r: Result<map<string, ModCandidate>, ResolutionError>, warnings: seq<ErrorLine>)
    requires SetsValid(sets)
    requires Distinct(ids) && forall id :: id in ids <==> id in sets
    ensures (r.Failure? && r.error.CandidateSetError?) <==> !AllSelectable(sets)
    ensures r.Failure? && r.error.CandidateSetError? ==>
      exists k :: 0 <= k < |ids| && sets[ids[k]].ToSortedSet() == Failure(r.error.error) &&
        forall j :: 0 <= j < k ==> sets[ids[j]].ToSortedSet().Success?
    ensures r.Failure? && r.error.CandidateSetError? ==> r.error.error.DuplicateVersions?
    ensures AllSelectable(sets) ==>
      (r.Success? <==> exists result :: ValidSelection(result, SelectionOf(sets), MandatoryOf(sets), matches))
    ensures r.Success? ==>
      && AllSelectable(sets)
      && ValidSelection(r.value, SelectionOf(sets), MandatoryOf(sets), matches)
      && warnings == SoftLines(ResultValues(r.value, ids), r.value, matches)
      && (Advanced(SelectionOf(sets)) ==> KeepsProbedChoices(r.value, SelectionOf(sets), ids, MandatoryOf(sets), matches))
  {
    var selectable, mandatory, advanced := SelectableSets(sets, ids);
    if selectable.Failure? {
      return Failure(CandidateSetError(selectable.error)), [];
    }
    r, warnings := ResolveSets(sets, ids, selectable.value, mandatory, advanced, matches);
  }
}
