/**
 * How candidates become solver variables, and what a satisfying
 * assignment says about the mods it selects: at most one candidate per ID,
 * every mandatory ID present, every `depends` met and no `breaks` met.
 */
module Numbering {
  import opened Versions
  import opened Sat
  import opened Encoding
  import opened ResultCheck

  predicate Distinct<T(==)>(s: seq<T>)
  {
    forall i, j :: 0 <= i < j < |s| ==> s[i] != s[j]
  }

  /**
   * Each ID's selectable candidates are non-empty and pairwise different,
   * and each carries that ID (a candidate set only ever holds candidates
   * filed under their own ID).
   */
  predicate WellFormed(sel: Selection)
  {
    forall id :: id in sel ==> sel[id] != [] && Distinct(sel[id]) && forall c :: c in sel[id] ==> c.info.id == id
  }

  /** `ids` lists every key of `sel` once. */
  predicate Enumerates(ids: seq<string>, sel: Selection)
  {
    Distinct(ids) && (forall k :: 0 <= k < |ids| ==> ids[k] in sel) && forall id :: id in sel ==> id in ids
  }

  /** The candidates of `ids` one ID after another: the order variables are numbered in. */
  function Flatten(sel: Selection, ids: seq<string>): (r: seq<ModCandidate>)
    requires forall k :: 0 <= k < |ids| ==> ids[k] in sel
    ensures forall c :: c in r <==> exists k :: 0 <= k < |ids| && c in sel[ids[k]]
  {
    if ids == [] then []
    else
      var init := ids[..|ids| - 1];
      var r := Flatten(sel, init) + sel[ids[|ids| - 1]];
      assert forall k :: 0 <= k < |init| ==> init[k] == ids[k];
      r
  }

  /** Each ID's candidates are numbered apart from every other's, so no candidate is numbered twice. */
  lemma {:induction false} FlattenDistinct(sel: Selection, ids: seq<string>)
    requires WellFormed(sel) && Distinct(ids)
    requires forall k :: 0 <= k < |ids| ==> ids[k] in sel
    ensures Distinct(Flatten(sel, ids))
  {
    if ids != [] {
      var init, id := ids[..|ids| - 1], ids[|ids| - 1];
      FlattenDistinct(sel, init);
      var a, b := Flatten(sel, init), sel[id];
      forall i, j | 0 <= i < j < |a + b|
        ensures (a + b)[i] != (a + b)[j]
      {
        if i < |a| && j >= |a| {
          assert (a + b)[i] == a[i] && (a + b)[j] == b[j - |a|];
          assert a[i] in a && b[j - |a|] in b;
          var k :| 0 <= k < |init| && a[i] in sel[init[k]];
          assert init[k] == ids[k] != id;
        } else if j < |a| {
          assert (a + b)[i] == a[i] && (a + b)[j] == a[j];
        } else {
          assert (a + b)[i] == b[i - |a|] && (a + b)[j] == b[j - |a|];
        }
      }
    }
  }

  /**
   * `candidateIntMap` after `put(candidate, varCount++)` for each candidate
   * in turn: a later put of an equal candidate would win.
   */
  function Numbered(cands: seq<ModCandidate>): (r: map<ModCandidate, int>)
    ensures forall c :: c in r <==> c in cands
    ensures forall c :: c in r ==> 1 <= r[c] <= |cands| && cands[r[c] - 1] == c
  {
    if cands == [] then map[]
    else
      var init, last := cands[..|cands| - 1], cands[|cands| - 1];
      var p := Numbered(init);
      var r := p[last := |cands|];
      assert cands == init + [last];
      assert forall c :: c in r ==> 1 <= r[c] <= |cands| && cands[r[c] - 1] == c by {
        forall c | c in r
          ensures 1 <= r[c] <= |cands| && cands[r[c] - 1] == c
        {
          if c != last {
            assert init[p[c] - 1] == cands[p[c] - 1];
          }
        }
      }
      r
  }

  lemma SameElementSameIndex<T>(s: seq<T>, i: nat, j: nat)
    requires Distinct(s) && i < |s| && j < |s| && s[i] == s[j]
    ensures i == j
  {
  }

  /** With distinct candidates, the k-th gets variable k + 1. */
  lemma NumberedDistinct(cands: seq<ModCandidate>)
    requires Distinct(cands)
    ensures forall k :: 0 <= k < |cands| ==> Numbered(cands)[cands[k]] == k + 1
  {
    forall k | 0 <= k < |cands|
      ensures Numbered(cands)[cands[k]] == k + 1
    {
      NumberedAt(cands, k);
    }
  }

  lemma NumberedAt(cands: seq<ModCandidate>, k: nat)
    requires Distinct(cands) && k < |cands|
    ensures cands[k] in Numbered(cands) && Numbered(cands)[cands[k]] == k + 1
  {
    var vm := Numbered(cands);
    assert cands[k] in cands;
    var v := vm[cands[k]];
    SameElementSameIndex(cands, v - 1, k);
  }

  /** The numbering gives every selectable candidate a variable of 1..n, n the number of candidates. */
  lemma NumberedWithin(sel: Selection, ids: seq<string>)
    requires Enumerates(ids, sel)
    ensures var cands := Flatten(sel, ids);
      VarsWithin(sel, Numbered(cands), |cands|)
  {
    var cands := Flatten(sel, ids);
    forall id, c | id in sel && c in sel[id]
      ensures c in cands
    {
      var k :| 0 <= k < |ids| && ids[k] == id;
    }
  }

  // ---------------------------------------------------------------------
  // What a satisfying assignment selects

  /** No two true variables number candidates of the same ID. */
  predicate NoSharedId(m: set<int>, cands: seq<ModCandidate>)
  {
    forall i, j :: 0 <= i < j < |cands| && i + 1 in m && j + 1 in m ==> cands[i].info.id != cands[j].info.id
  }

  /** `result` holds exactly the candidates whose variables are true in `m`, each under its ID. */
  predicate DecodedFrom(result: map<string, ModCandidate>, m: set<int>, cands: seq<ModCandidate>)
  {
    && (forall id :: id in result ==> exists k :: 0 <= k < |cands| && k + 1 in m && cands[k].info.id == id)
    && (forall k :: 0 <= k < |cands| && k + 1 in m ==> cands[k].info.id in result && result[cands[k].info.id] == cands[k])
  }

  /** Facts about the candidates of a well-formed selection and their numbering. */
  lemma CandidateFacts(sel: Selection, ids: seq<string>)
    requires WellFormed(sel) && Enumerates(ids, sel)
    ensures var cands := Flatten(sel, ids);
      && Distinct(cands)
      && (forall k :: 0 <= k < |cands| ==> cands[k].info.id in sel && cands[k] in sel[cands[k].info.id])
      && (forall id, c :: id in sel && c in sel[id] ==> c in cands)
      && (forall k :: 0 <= k < |cands| ==> Numbered(cands)[cands[k]] == k + 1)
  {
    var cands := Flatten(sel, ids);
    FlattenDistinct(sel, ids);
    NumberedDistinct(cands);
    forall k | 0 <= k < |cands|
      ensures cands[k].info.id in sel && cands[k] in sel[cands[k].info.id]
    {
      assert cands[k] in cands;
      var j :| 0 <= j < |ids| && cands[k] in sel[ids[j]];
    }
    forall id, c | id in sel && c in sel[id]
      ensures c in cands
    {
      var j :| 0 <= j < |ids| && ids[j] == id;
    }
  }

  /**
   * `m` is an admissible choice: each ID has at most one chosen candidate
   * (one if mandatory), and each chosen candidate's `depends` have a chosen
   * match and its `breaks` none.
   */
  predicate Admissible(m: set<int>, ids: seq<string>, sel: Selection, mandatory: set<string>, matches: Matcher)
  {
    && Enumerates(ids, sel)
    && var cands := Flatten(sel, ids);
       var vm := Numbered(cands);
       && VarsFor(sel, vm)
       && (forall id :: id in sel ==> IdHolds(m, id, sel, mandatory, vm))
       && DependenciesHold(m, cands, sel, vm, matches)
  }

  /** An assignment satisfies the formula exactly when it is an admissible choice. */
  lemma SatisfyingIffAdmissible(m: set<int>, ids: seq<string>, sel: Selection, mandatory: set<string>, matches: Matcher)
    requires Enumerates(ids, sel)
    ensures var cands := Flatten(sel, ids);
      AllTrue(m, Encode(ids, sel, mandatory, cands, Numbered(cands), matches)) <==> Admissible(m, ids, sel, mandatory, matches)
  {
    var cands := Flatten(sel, ids);
    var vm := Numbered(cands);
    NumberedWithin(sel, ids);
    EncodingMeaning(m, ids, sel, mandatory, cands, vm, matches);
    if forall id :: id in sel ==> IdHolds(m, id, sel, mandatory, vm) {
      assert CardinalityHolds(m, ids, sel, mandatory, vm);
    }
    if CardinalityHolds(m, ids, sel, mandatory, vm) {
      forall id | id in sel
        ensures IdHolds(m, id, sel, mandatory, vm)
      {
        var x :| 0 <= x < |ids| && ids[x] == id;
      }
    }
  }

  /** Of one ID's candidates, at most one is chosen. */
  lemma OneChosenPerId(m: set<int>, sel: Selection, mandatory: set<string>, vm: map<ModCandidate, int>,
                       c1: ModCandidate, c2: ModCandidate)
    requires VarsFor(sel, vm)
    requires c1.info.id in sel && c1 in sel[c1.info.id] && c2.info.id in sel && c2 in sel[c2.info.id]
    requires IdHolds(m, c1.info.id, sel, mandatory, vm)
    requires vm[c1] in m && vm[c2] in m
    ensures c1.info.id == c2.info.id ==> vm[c1] == vm[c2]
  {
    if c1.info.id == c2.info.id {
      var s := sel[c1.info.id];
      var vs := VarsOf(s, vm);
      var p :| 0 <= p < |s| && s[p] == c1;
      var q :| 0 <= q < |s| && s[q] == c2;
      assert vs[p] == vm[c1] && vs[q] == vm[c2];
    }
  }

  /** When every ID's cardinality holds, no two chosen candidates share an ID. */
  lemma NoSharedIdFromCardinality(m: set<int>, cands: seq<ModCandidate>, sel: Selection, mandatory: set<string>,
                                  vm: map<ModCandidate, int>)
    requires VarsFor(sel, vm)
    requires forall k :: 0 <= k < |cands| ==> cands[k].info.id in sel && cands[k] in sel[cands[k].info.id]
    requires forall k :: 0 <= k < |cands| ==> cands[k] in vm && vm[cands[k]] == k + 1
    requires forall id :: id in sel ==> IdHolds(m, id, sel, mandatory, vm)
    ensures NoSharedId(m, cands)
  {
    forall i, j | 0 <= i < j < |cands| && i + 1 in m && j + 1 in m
      ensures cands[i].info.id != cands[j].info.id
    {
      OneChosenPerId(m, sel, mandatory, vm, cands[i], cands[j]);
    }
  }

  /** An admissible choice never makes two candidates of one ID true. */
  lemma AdmissibleHasNoSharedId(m: set<int>, ids: seq<string>, sel: Selection, mandatory: set<string>, matches: Matcher)
    requires WellFormed(sel) && Admissible(m, ids, sel, mandatory, matches)
    ensures NoSharedId(m, Flatten(sel, ids))
  {
    CandidateFacts(sel, ids);
    var cands := Flatten(sel, ids);
    NoSharedIdFromCardinality(m, cands, sel, mandatory, Numbered(cands));
  }

  /** Every mandatory ID has a chosen candidate, which decoding files under it. */
  lemma MandatoryChosen(m: set<int>, cands: seq<ModCandidate>, vm: map<ModCandidate, int>, sel: Selection,
                        mandatory: set<string>, result: map<string, ModCandidate>)
    requires VarsFor(sel, vm)
    requires forall id, z :: id in sel && z in sel[id] ==> z.info.id == id
    requires forall id, z :: id in sel && z in sel[id] ==> z in cands
    requires forall k :: 0 <= k < |cands| ==> cands[k] in vm && vm[cands[k]] == k + 1
    requires forall id :: id in sel ==> IdHolds(m, id, sel, mandatory, vm)
    requires DecodedFrom(result, m, cands)
    ensures forall id :: id in mandatory && id in sel ==> id in result
  {
    forall id | id in mandatory && id in sel
      ensures id in result
    {
      assert IdHolds(m, id, sel, mandatory, vm);
      var vs := VarsOf(sel[id], vm);
      var p :| 0 <= p < |vs| && vs[p] in m;
      var c := sel[id][p];
      assert c in sel[id] && c in cands;
      var k :| 0 <= k < |cands| && cands[k] == c;
      assert vs[p] == vm[c] == k + 1;
    }
  }

  /** A dependency the decoded result matches has a chosen matching candidate. */
  lemma MatchedIsChosen(m: set<int>, cands: seq<ModCandidate>, vm: map<ModCandidate, int>, d: Dependency,
                        sel: Selection, matches: Matcher, result: map<string, ModCandidate>)
    requires VarsFor(sel, vm)
    requires forall k :: 0 <= k < |cands| ==> cands[k].info.id in sel && cands[k] in sel[cands[k].info.id]
    requires forall k :: 0 <= k < |cands| ==> cands[k] in vm && vm[cands[k]] == k + 1
    requires DecodedFrom(result, m, cands)
    requires Matches(d, result, matches)
    ensures SomeTrue(m, VarsOf(Matching(d, sel, matches), vm))
  {
    var j :| 0 <= j < |cands| && j + 1 in m && cands[j].info.id == d.modId;
    var z := cands[j];
    assert result[d.modId] == z;
    var ys := Matching(d, sel, matches);
    assert z in ys;
    var p :| 0 <= p < |ys| && ys[p] == z;
    assert VarsOf(ys, vm)[p] == j + 1;
  }

  /** A chosen candidate's `depends` each have a chosen match, and its `breaks` none. */
  lemma RequirementsFromHolds(m: set<int>, cands: seq<ModCandidate>, vm: map<ModCandidate, int>,
                              sel: Selection, matches: Matcher, result: map<string, ModCandidate>, c: ModCandidate)
    requires VarsFor(sel, vm)
    requires forall id, z :: id in sel && z in sel[id] ==> z.info.id == id
    requires forall id, z :: id in sel && z in sel[id] ==> z in cands
    requires forall k :: 0 <= k < |cands| ==> cands[k].info.id in sel && cands[k] in sel[cands[k].info.id]
    requires forall k :: 0 <= k < |cands| ==> cands[k] in vm && vm[cands[k]] == k + 1
    requires DecodedFrom(result, m, cands)
    requires c in vm && vm[c] in m && CandidateHolds(m, c, sel, vm, matches)
    ensures forall d :: d in c.info.depends ==> Matches(d, result, matches)
    ensures forall d :: d in c.info.breaks ==> !Matches(d, result, matches)
  {
    forall d | d in c.info.depends
      ensures Matches(d, result, matches)
    {
      var i :| 0 <= i < |c.info.depends| && c.info.depends[i] == d;
      var ys := Matching(d, sel, matches);
      var p :| 0 <= p < |ys| && VarsOf(ys, vm)[p] in m;
      var z := ys[p];
      assert z in ys;
      assert z in sel[d.modId] && z in cands;
      var j :| 0 <= j < |cands| && cands[j] == z;
      assert j + 1 in m;
      assert z.info.id == d.modId;
    }
    forall d | d in c.info.breaks
      ensures !Matches(d, result, matches)
    {
      var i :| 0 <= i < |c.info.breaks| && c.info.breaks[i] == d;
      if Matches(d, result, matches) {
        MatchedIsChosen(m, cands, vm, d, sel, matches, result);
      }
    }
  }

  /** The decoded result of an admissible choice, over any numbering with the facts `CandidateFacts` gives. */
  lemma DecodedSelectionIsValid(m: set<int>, cands: seq<ModCandidate>, vm: map<ModCandidate, int>, sel: Selection,
                                mandatory: set<string>, matches: Matcher, result: map<string, ModCandidate>)
    requires VarsFor(sel, vm)
    requires forall id, z :: id in sel && z in sel[id] ==> z.info.id == id
    requires forall id, z :: id in sel && z in sel[id] ==> z in cands
    requires forall k :: 0 <= k < |cands| ==> cands[k].info.id in sel && cands[k] in sel[cands[k].info.id]
    requires forall k :: 0 <= k < |cands| ==> cands[k] in vm && vm[cands[k]] == k + 1
    requires forall id :: id in sel ==> IdHolds(m, id, sel, mandatory, vm)
    requires DependenciesHold(m, cands, sel, vm, matches)
    requires DecodedFrom(result, m, cands)
    ensures forall id :: id in mandatory && id in sel ==> id in result
    ensures forall id :: id in result ==> id in sel && result[id] in sel[id]
    ensures forall c :: c in result.Values ==>
      && (forall d :: d in c.info.depends ==> Matches(d, result, matches))
      && (forall d :: d in c.info.breaks ==> !Matches(d, result, matches))
  {
    MandatoryChosen(m, cands, vm, sel, mandatory, result);
    forall id | id in result
      ensures id in sel && result[id] in sel[id]
    {
      var k :| 0 <= k < |cands| && k + 1 in m && cands[k].info.id == id;
    }
    forall c | c in result.Values
      ensures forall d :: d in c.info.depends ==> Matches(d, result, matches)
      ensures forall d :: d in c.info.breaks ==> !Matches(d, result, matches)
    {
      var id :| id in result && result[id] == c;
      var k :| 0 <= k < |cands| && k + 1 in m && cands[k].info.id == id;
      assert CandidateHolds(m, cands[k], sel, vm, matches);
      RequirementsFromHolds(m, cands, vm, sel, matches, result, cands[k]);
    }
  }

  /**
   * What decoding an admissible choice yields is a valid selection: every
   * mandatory ID is present, each present ID holds one of its selectable
   * candidates, every `depends` of a selected mod is met and no `breaks` is.
   */
  lemma AdmissibleSelectionIsValid(m: set<int>, ids: seq<string>, sel: Selection, mandatory: set<string>, matches: Matcher,
                                   result: map<string, ModCandidate>)
    requires WellFormed(sel) && Admissible(m, ids, sel, mandatory, matches)
    requires DecodedFrom(result, m, Flatten(sel, ids))
    ensures forall id :: id in mandatory && id in sel ==> id in result
    ensures forall id :: id in result ==> id in sel && result[id] in sel[id]
    ensures forall c :: c in result.Values ==>
      && (forall d :: d in c.info.depends ==> Matches(d, result, matches))
      && (forall d :: d in c.info.breaks ==> !Matches(d, result, matches))
  {
    var cands := Flatten(sel, ids);
    CandidateFacts(sel, ids);
    DecodedSelectionIsValid(m, cands, Numbered(cands), sel, mandatory, matches, result);
  }

  // ---------------------------------------------------------------------
  // Valid selections, independent of the encoding

  /**
   * A valid outcome of resolution: each ID holds one of its selectable
   * candidates, every mandatory ID is present, every `depends` of a selected
   * mod is met and no `breaks` is.
   */
  predicate ValidSelection(result: map<string, ModCandidate>, sel: Selection, mandatory: set<string>, matches: Matcher)
  {
    && (forall id :: id in result ==> id in sel && result[id] in sel[id])
    && (forall id :: id in mandatory ==> id in result)
    && (forall c :: c in result.Values ==>
         && (forall d :: d in c.info.depends ==> Matches(d, result, matches))
         && (forall d :: d in c.info.breaks ==> !Matches(d, result, matches)))
  }

  /** The assignment that makes exactly the variables of the selected candidates true. */
  function ChosenVars(result: map<string, ModCandidate>, vm: map<ModCandidate, int>): (m: set<int>)
    requires forall id :: id in result ==> result[id] in vm
    ensures forall id :: id in result ==> vm[result[id]] in m
  {
    set id | id in result :: vm[result[id]]
  }

  /** A candidate whose variable is chosen is the one selected for its ID. */
  lemma ChosenIsSelected(result: map<string, ModCandidate>, cands: seq<ModCandidate>, vm: map<ModCandidate, int>,
                         sel: Selection, id: string, z: ModCandidate)
    requires VarsFor(sel, vm)
    requires forall id', y :: id' in sel && y in sel[id'] ==> y.info.id == id' && y in cands
    requires forall k :: 0 <= k < |cands| ==> cands[k] in vm && vm[cands[k]] == k + 1
    requires forall id' :: id' in result ==> id' in sel && result[id'] in sel[id']
    requires id in sel && z in sel[id]
    ensures vm[z] in ChosenVars(result, vm) ==> id in result && result[id] == z
  {
    var m := ChosenVars(result, vm);
    if vm[z] in m {
      var id' :| id' in result && vm[result[id']] == vm[z];
      var y := result[id'];
      assert y in cands && z in cands;
      var i :| 0 <= i < |cands| && cands[i] == y;
      var j :| 0 <= j < |cands| && cands[j] == z;
      assert i == j;
    }
  }

  /** The selection's candidates fill the cardinality constraints of every ID. */
  lemma SelectedIdHolds(result: map<string, ModCandidate>, cands: seq<ModCandidate>, vm: map<ModCandidate, int>,
                        sel: Selection, mandatory: set<string>, matches: Matcher, id: string)
    requires VarsFor(sel, vm) && WellFormed(sel)
    requires forall id', y :: id' in sel && y in sel[id'] ==> y.info.id == id' && y in cands
    requires forall k :: 0 <= k < |cands| ==> cands[k] in vm && vm[cands[k]] == k + 1
    requires ValidSelection(result, sel, mandatory, matches)
    requires id in sel
    ensures IdHolds(m := ChosenVars(result, vm), id := id, sel := sel, mandatory := mandatory, vm := vm)
  {
    var m := ChosenVars(result, vm);
    var s := sel[id];
    var vs := VarsOf(s, vm);
    forall p, q | 0 <= p < q < |vs|
      ensures !(vs[p] in m && vs[q] in m)
    {
      ChosenIsSelected(result, cands, vm, sel, id, s[p]);
      ChosenIsSelected(result, cands, vm, sel, id, s[q]);
    }
    if id in mandatory {
      var p :| 0 <= p < |s| && s[p] == result[id];
      assert vs[p] in m;
    }
  }

  /** A chosen matching candidate of `d` means the selection matches `d`. */
  lemma ChosenMatchMatches(result: map<string, ModCandidate>, cands: seq<ModCandidate>, vm: map<ModCandidate, int>,
                           sel: Selection, matches: Matcher, d: Dependency)
    requires VarsFor(sel, vm)
    requires forall id', y :: id' in sel && y in sel[id'] ==> y.info.id == id' && y in cands
    requires forall k :: 0 <= k < |cands| ==> cands[k] in vm && vm[cands[k]] == k + 1
    requires forall id' :: id' in result ==> id' in sel && result[id'] in sel[id']
    ensures SomeTrue(ChosenVars(result, vm), MatchingVars(d, sel, vm, matches)) <==> Matches(d, result, matches)
  {
    var m := ChosenVars(result, vm);
    var ys := Matching(d, sel, matches);
    if SomeTrue(m, MatchingVars(d, sel, vm, matches)) {
      var p :| 0 <= p < |ys| && VarsOf(ys, vm)[p] in m;
      assert ys[p] in ys;
      ChosenIsSelected(result, cands, vm, sel, d.modId, ys[p]);
    }
    if Matches(d, result, matches) {
      var z := result[d.modId];
      assert z in ys;
      var p :| 0 <= p < |ys| && ys[p] == z;
      assert VarsOf(ys, vm)[p] in m;
    }
  }

  /** The depends and breaks of a selected candidate, read on the selection's assignment. */
  lemma SelectedDependenciesHold(result: map<string, ModCandidate>, cands: seq<ModCandidate>, vm: map<ModCandidate, int>,
                                 sel: Selection, matches: Matcher, c: ModCandidate)
    requires VarsFor(sel, vm)
    requires forall id', y :: id' in sel && y in sel[id'] ==> y.info.id == id' && y in cands
    requires forall k :: 0 <= k < |cands| ==> cands[k] in vm && vm[cands[k]] == k + 1
    requires forall id' :: id' in result ==> id' in sel && result[id'] in sel[id']
    requires forall d :: d in c.info.depends ==> Matches(d, result, matches)
    requires forall d :: d in c.info.breaks ==> !Matches(d, result, matches)
    ensures forall i :: 0 <= i < |c.info.depends| ==> SomeTrue(ChosenVars(result, vm), MatchingVars(c.info.depends[i], sel, vm, matches))
    ensures forall i :: 0 <= i < |c.info.breaks| ==> !SomeTrue(ChosenVars(result, vm), MatchingVars(c.info.breaks[i], sel, vm, matches))
  {
    forall i | 0 <= i < |c.info.depends|
      ensures SomeTrue(ChosenVars(result, vm), MatchingVars(c.info.depends[i], sel, vm, matches))
    {
      ChosenMatchMatches(result, cands, vm, sel, matches, c.info.depends[i]);
    }
    forall i | 0 <= i < |c.info.breaks|
      ensures !SomeTrue(ChosenVars(result, vm), MatchingVars(c.info.breaks[i], sel, vm, matches))
    {
      ChosenMatchMatches(result, cands, vm, sel, matches, c.info.breaks[i]);
    }
  }

  /** Each candidate's dependency constraints hold under the selection's assignment. */
  lemma SelectedCandidateHolds(result: map<string, ModCandidate>, cands: seq<ModCandidate>, vm: map<ModCandidate, int>,
                               sel: Selection, mandatory: set<string>, matches: Matcher, c: ModCandidate)
    requires VarsFor(sel, vm)
    requires forall id', y :: id' in sel && y in sel[id'] ==> y.info.id == id' && y in cands
    requires forall k :: 0 <= k < |cands| ==> cands[k] in vm && vm[cands[k]] == k + 1
    requires forall k :: 0 <= k < |cands| ==> cands[k].info.id in sel && cands[k] in sel[cands[k].info.id]
    requires ValidSelection(result, sel, mandatory, matches)
    requires c in cands
    ensures CandidateHolds(ChosenVars(result, vm), c, sel, vm, matches)
  {
    var m := ChosenVars(result, vm);
    var k :| 0 <= k < |cands| && cands[k] == c;
    ChosenIsSelected(result, cands, vm, sel, c.info.id, c);
    if vm[c] in m {
      assert c in result.Values;
      SelectedDependenciesHold(result, cands, vm, sel, matches, c);
    }
  }

  /** The selection's assignment meets every constraint, over any numbering with the facts `CandidateFacts` gives. */
  lemma SelectedHolds(result: map<string, ModCandidate>, cands: seq<ModCandidate>, vm: map<ModCandidate, int>,
                      sel: Selection, mandatory: set<string>, matches: Matcher)
    requires VarsFor(sel, vm) && WellFormed(sel)
    requires forall id', y :: id' in sel && y in sel[id'] ==> y.info.id == id' && y in cands
    requires forall k :: 0 <= k < |cands| ==> cands[k] in vm && vm[cands[k]] == k + 1
    requires forall k :: 0 <= k < |cands| ==> cands[k].info.id in sel && cands[k] in sel[cands[k].info.id]
    requires ValidSelection(result, sel, mandatory, matches)
    ensures forall id :: id in sel ==> IdHolds(ChosenVars(result, vm), id, sel, mandatory, vm)
    ensures DependenciesHold(ChosenVars(result, vm), cands, sel, vm, matches)
  {
    var m := ChosenVars(result, vm);
    forall id | id in sel
      ensures IdHolds(m, id, sel, mandatory, vm)
    {
      SelectedIdHolds(result, cands, vm, sel, mandatory, matches, id);
    }
    forall k | 0 <= k < |cands|
      ensures CandidateHolds(m, cands[k], sel, vm, matches)
    {
      SelectedCandidateHolds(result, cands, vm, sel, mandatory, matches, cands[k]);
    }
  }

  /** Making exactly a valid selection's candidates true is an admissible choice. */
  lemma ValidSelectionAdmissible(result: map<string, ModCandidate>, ids: seq<string>, sel: Selection,
                                 mandatory: set<string>, matches: Matcher)
    requires WellFormed(sel) && Enumerates(ids, sel)
    requires ValidSelection(result, sel, mandatory, matches)
    ensures var cands := Flatten(sel, ids);
      Admissible(ChosenVars(result, Numbered(cands)), ids, sel, mandatory, matches)
  {
    var cands := Flatten(sel, ids);
    CandidateFacts(sel, ids);
    NumberedWithin(sel, ids);
    SelectedHolds(result, cands, Numbered(cands), sel, mandatory, matches);
  }

  /**
   * The formula is satisfiable exactly when a valid selection exists: it
   * encodes the resolution problem faithfully.
   */
  lemma SatisfiableIffValidSelection(ids: seq<string>, sel: Selection, mandatory: set<string>, matches: Matcher)
    requires WellFormed(sel) && Enumerates(ids, sel) && mandatory <= sel.Keys
    ensures var cands := Flatten(sel, ids);
      (exists m :: AllTrue(m, Encode(ids, sel, mandatory, cands, Numbered(cands), matches))) <==>
      (exists result :: ValidSelection(result, sel, mandatory, matches))
  {
    var cands := Flatten(sel, ids);
    var vm := Numbered(cands);
    NumberedWithin(sel, ids);
    var cls := Encode(ids, sel, mandatory, cands, vm, matches);
    if m :| AllTrue(m, cls) {
      SatisfyingIffAdmissible(m, ids, sel, mandatory, matches);
      var result := Decoded(m, cands);
      AdmissibleHasNoSharedId(m, ids, sel, mandatory, matches);
      DecodedMeaning(m, cands);
      AdmissibleSelectionIsValid(m, ids, sel, mandatory, matches, result);
      assert ValidSelection(result, sel, mandatory, matches);
    }
    if result :| ValidSelection(result, sel, mandatory, matches) {
      ValidSelectionAdmissible(result, ids, sel, mandatory, matches);
      SatisfyingIffAdmissible(ChosenVars(result, vm), ids, sel, mandatory, matches);
    }
  }

  /** The selection read off an assignment, keyed by ID. */
  function Decoded(m: set<int>, cands: seq<ModCandidate>): map<string, ModCandidate>
  {
    if cands == [] then map[]
    else
      var init := cands[..|cands| - 1];
      var c := cands[|cands| - 1];
      if |cands| in m then Decoded(m, init)[c.info.id := c] else Decoded(m, init)
  }

  /** Without shared IDs among the chosen candidates, `Decoded` holds exactly them. */
  lemma {:induction false} DecodedMeaning(m: set<int>, cands: seq<ModCandidate>)
    requires NoSharedId(m, cands)
    ensures DecodedFrom(Decoded(m, cands), m, cands)
  {
    if cands != [] {
      var init := cands[..|cands| - 1];
      assert forall k :: 0 <= k < |init| ==> init[k] == cands[k];
      DecodedMeaning(m, init);
    }
  }
}
