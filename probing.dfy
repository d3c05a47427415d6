/**
 * Greedy assumption probing: for each mod ID in turn, the first of its
 * candidates (in selectable order) that keeps the accumulated assumptions
 * satisfiable becomes an assumption; a mandatory ID with no such candidate
 * ends the search.
 */
module Probing {
  import opened Wrappers
  import opened Versions
  import opened Sat
  import opened Encoding

  /** The first index from `k` on whose variable keeps `asm` satisfiable. */
  function FirstSatisfiable(cls: seq<Clause>, asm: seq<int>, vs: seq<int>, k: nat): (r: Option<nat>)
    requires k <= |vs|
    ensures r.None? <==> forall j :: k <= j < |vs| ==> !Satisfiable(cls, asm + [vs[j]])
    ensures r.Some? ==>
      && k <= r.value < |vs|
      && Satisfiable(cls, asm + [vs[r.value]])
      && forall j :: k <= j < r.value ==> !Satisfiable(cls, asm + [vs[j]])
    decreases |vs| - k
  {
    if k == |vs| then None
    else if Satisfiable(cls, asm + [vs[k]]) then Some(k)
    else
      var r := FirstSatisfiable(cls, asm, vs, k + 1);
      assert forall j :: k < j < |vs| && r.None? ==> !Satisfiable(cls, asm + [vs[j]]);
      r
  }

  /** How probing ended: stuck on a mandatory ID, or with the final assumptions. */
  datatype Probe =
    | Stuck(modId: string)
    /** `lastSat`: whether the last satisfiability check made succeeded. */
    | Probed(assumptions: seq<int>, lastSat: bool)

  /** `v` is the variable of some selectable candidate. */
  ghost predicate CandidateVar(sel: Selection, vm: map<ModCandidate, int>, v: int)
  {
    exists id, c :: id in sel && c in sel[id] && c in vm && v == vm[c]
  }

  /**
   * Probing the IDs `ids` in order, from the assumptions `asm`; `lastSat`
   * is the outcome of the last check made so far.
   */
  function ProbeFrom(cls: seq<Clause>, ids: seq<string>, sel: Selection, mandatory: set<string>,
                     vm: map<ModCandidate, int>, asm: seq<int>, lastSat: bool): (r: Probe)
    requires forall k :: 0 <= k < |ids| ==> ids[k] in sel
    requires VarsFor(sel, vm)
    ensures r.Stuck? ==> r.modId in ids && r.modId in mandatory
    ensures r.Probed? ==>
      && |asm| <= |r.assumptions| <= |asm| + |ids|
      && r.assumptions[..|asm|] == asm
    decreases |ids|
  {
    if ids == [] then Probed(asm, lastSat)
    else
      var vs := VarsOf(sel[ids[0]], vm);
      assert forall k :: 0 <= k < |ids| - 1 ==> ids[1..][k] == ids[k + 1];
      match FirstSatisfiable(cls, asm, vs, 0)
      case Some(i) =>
        var asm' := asm + [vs[i]];
        var r := ProbeFrom(cls, ids[1..], sel, mandatory, vm, asm', true);
        assert r.Probed? ==> r.assumptions[..|asm|] == asm by {
          if r.Probed? {
            assert r.assumptions[..|asm|] == r.assumptions[..|asm'|][..|asm|];
            assert asm'[..|asm|] == asm;
          }
        }
        r
      case None =>
        if ids[0] in mandatory then Stuck(ids[0])
        else
          var last := if vs == [] then lastSat else false;
          var r := ProbeFrom(cls, ids[1..], sel, mandatory, vm, asm, last);
          assert r.Stuck? ==> r.modId in ids[1..];
          r
  }

  /** Every assumption probing adds is the variable of a selectable candidate. */
  lemma {:induction false} ProbedAssumptionsAreCandidates(cls: seq<Clause>, ids: seq<string>, sel: Selection, mandatory: set<string>,
                                                          vm: map<ModCandidate, int>, asm: seq<int>, lastSat: bool)
    requires forall k :: 0 <= k < |ids| ==> ids[k] in sel
    requires VarsFor(sel, vm)
    requires forall i :: 0 <= i < |asm| ==> CandidateVar(sel, vm, asm[i])
    ensures var r := ProbeFrom(cls, ids, sel, mandatory, vm, asm, lastSat);
      r.Probed? ==> forall i :: 0 <= i < |r.assumptions| ==> CandidateVar(sel, vm, r.assumptions[i])
    decreases |ids|
  {
    if ids != [] {
      var vs := VarsOf(sel[ids[0]], vm);
      assert forall k :: 0 <= k < |ids[1..]| ==> ids[1..][k] == ids[k + 1];
      match FirstSatisfiable(cls, asm, vs, 0)
      case Some(j) =>
        assert sel[ids[0]][j] in sel[ids[0]];
        assert CandidateVar(sel, vm, vs[j]);
        assert ProbeFrom(cls, ids, sel, mandatory, vm, asm, lastSat) == ProbeFrom(cls, ids[1..], sel, mandatory, vm, asm + [vs[j]], true);
        ProbedAssumptionsAreCandidates(cls, ids[1..], sel, mandatory, vm, asm + [vs[j]], true);
      case None =>
        if ids[0] !in mandatory {
          var last := if vs == [] then lastSat else false;
          assert ProbeFrom(cls, ids, sel, mandatory, vm, asm, lastSat) == ProbeFrom(cls, ids[1..], sel, mandatory, vm, asm, last);
          ProbedAssumptionsAreCandidates(cls, ids[1..], sel, mandatory, vm, asm, last);
        }
    }
  }

  /** Extending the assumptions never makes an unsatisfiable problem satisfiable. */
  lemma SatisfiableShrink(cls: seq<Clause>, asm: seq<int>, v: int)
    requires Satisfiable(cls, asm + [v])
    ensures Satisfiable(cls, asm)
  {
    SatisfiableIff(cls, asm + [v]);
    var m :| Satisfies(m, cls, asm + [v]);
    assert forall i :: 0 <= i < |asm| ==> (asm + [v])[i] == asm[i];
    assert Satisfies(m, cls, asm);
    SatisfiableIff(cls, asm);
  }

  /** When the clause of `vs` is part of a satisfiable problem, some variable of `vs` can be assumed. */
  lemma SomeExtensionSatisfiable(cls: seq<Clause>, asm: seq<int>, vs: seq<int>)
    requires Satisfiable(cls, asm) && Positive(vs) && vs in cls
    ensures exists j :: 0 <= j < |vs| && Satisfiable(cls, asm + [vs[j]])
  {
    SatisfiableIff(cls, asm);
    var m :| Satisfies(m, cls, asm);
    var k :| 0 <= k < |cls| && cls[k] == vs;
    assert ClauseTrue(m, vs);
    PositiveClauseMeaning(m, vs);
    var j :| 0 <= j < |vs| && vs[j] in m;
    assert Satisfies(m, cls, asm + [vs[j]]);
    SatisfiableIff(cls, asm + [vs[j]]);
  }

  /**
   * Greedy probing never gets stuck on a satisfiable problem when every
   * mandatory ID's candidates form a clause of it, and the assumptions it
   * ends with are still satisfiable.
   */
  lemma {:induction false} ProbeKeepsSatisfiable(cls: seq<Clause>, ids: seq<string>, sel: Selection, mandatory: set<string>,
                                                 vm: map<ModCandidate, int>, asm: seq<int>, lastSat: bool)
    requires forall k :: 0 <= k < |ids| ==> ids[k] in sel
    requires VarsFor(sel, vm)
    requires forall k :: 0 <= k < |ids| && ids[k] in mandatory ==> VarsOf(sel[ids[k]], vm) in cls
    requires Satisfiable(cls, asm)
    ensures ProbeFrom(cls, ids, sel, mandatory, vm, asm, lastSat).Probed?
    ensures Satisfiable(cls, ProbeFrom(cls, ids, sel, mandatory, vm, asm, lastSat).assumptions)
    decreases |ids|
  {
    if ids != [] {
      var vs := VarsOf(sel[ids[0]], vm);
      assert forall k :: 0 <= k < |ids[1..]| ==> ids[1..][k] == ids[k + 1];
      match FirstSatisfiable(cls, asm, vs, 0)
      case Some(i) =>
        ProbeKeepsSatisfiable(cls, ids[1..], sel, mandatory, vm, asm + [vs[i]], true);
      case None =>
        if ids[0] in mandatory {
          VarsOfPositive(sel[ids[0]], vm);
          SomeExtensionSatisfiable(cls, asm, vs);
          assert false;
        }
        ProbeKeepsSatisfiable(cls, ids[1..], sel, mandatory, vm, asm, if vs == [] then lastSat else false);
    }
  }

  /** On an unsatisfiable problem probing gets stuck, provided some ID is mandatory. */
  lemma {:induction false} StuckWhenUnsatisfiable(cls: seq<Clause>, ids: seq<string>, sel: Selection, mandatory: set<string>,
                                                  vm: map<ModCandidate, int>, asm: seq<int>, lastSat: bool)
    requires forall k :: 0 <= k < |ids| ==> ids[k] in sel
    requires VarsFor(sel, vm)
    requires !Satisfiable(cls, asm)
    requires exists k :: 0 <= k < |ids| && ids[k] in mandatory
    ensures ProbeFrom(cls, ids, sel, mandatory, vm, asm, lastSat).Stuck?
    decreases |ids|
  {
    var vs := VarsOf(sel[ids[0]], vm);
    forall j | 0 <= j < |vs|
      ensures !Satisfiable(cls, asm + [vs[j]])
    {
      if Satisfiable(cls, asm + [vs[j]]) {
        SatisfiableShrink(cls, asm, vs[j]);
      }
    }
    if ids[0] !in mandatory {
      var k :| 0 <= k < |ids| && ids[k] in mandatory;
      assert ids[1..][k - 1] == ids[k];
      StuckWhenUnsatisfiable(cls, ids[1..], sel, mandatory, vm, asm, if vs == [] then lastSat else false);
    }
  }

  /** Each mandatory ID's candidate variables form one clause of the formula. */
  lemma {:induction false} MandatoryClauseInCardinality(ids: seq<string>, sel: Selection, mandatory: set<string>, vm: map<ModCandidate, int>)
    requires forall k :: 0 <= k < |ids| ==> ids[k] in sel
    requires VarsFor(sel, vm)
    ensures forall k :: 0 <= k < |ids| && ids[k] in mandatory ==>
      VarsOf(sel[ids[k]], vm) in CardinalityClauses(ids, sel, mandatory, vm)
  {
    if ids != [] {
      var init, id := ids[..|ids| - 1], ids[|ids| - 1];
      MandatoryClauseInCardinality(init, sel, mandatory, vm);
      assert forall k :: 0 <= k < |init| ==> init[k] == ids[k];
      if id in mandatory {
        var vs := VarsOf(sel[id], vm);
        assert ExactlyOneClauses(vs)[|AtMostOneClauses(vs)|] == vs;
      }
    }
  }

  /**
   * Probing the formula from no assumptions gets stuck exactly when no
   * assignment satisfies it; otherwise its final assumptions are satisfiable.
   */
  lemma ProbingStuckIffUnsatisfiable(ids: seq<string>, sel: Selection, mandatory: set<string>, cands: seq<ModCandidate>,
                                     vm: map<ModCandidate, int>, matches: Matcher)
    requires forall k :: 0 <= k < |ids| ==> ids[k] in sel
    requires forall c :: c in cands ==> c in vm && vm[c] > 0
    requires VarsFor(sel, vm)
    ensures var cls := Encode(ids, sel, mandatory, cands, vm, matches);
      ProbeFrom(cls, ids, sel, mandatory, vm, [], false).Stuck? <==> !exists m :: AllTrue(m, cls)
    ensures var cls := Encode(ids, sel, mandatory, cands, vm, matches);
      var p := ProbeFrom(cls, ids, sel, mandatory, vm, [], false);
      p.Probed? ==> Satisfiable(cls, p.assumptions)
  {
    var cls := Encode(ids, sel, mandatory, cands, vm, matches);
    SatisfiableIff(cls, []);
    assert forall m :: Satisfies(m, cls, []) <==> AllTrue(m, cls);
    if Satisfiable(cls, []) {
      MandatoryClauseInCardinality(ids, sel, mandatory, vm);
      forall k | 0 <= k < |ids| && ids[k] in mandatory
        ensures VarsOf(sel[ids[k]], vm) in cls
      {
        var cc := CardinalityClauses(ids, sel, mandatory, vm);
        var i :| 0 <= i < |cc| && cc[i] == VarsOf(sel[ids[k]], vm);
        assert cls[i] == cc[i];
      }
      ProbeKeepsSatisfiable(cls, ids, sel, mandatory, vm, [], false);
    } else if exists k :: 0 <= k < |ids| && ids[k] in mandatory {
      StuckWhenUnsatisfiable(cls, ids, sel, mandatory, vm, [], false);
    } else {
      NothingChosenSatisfies(ids, sel, mandatory, cands, vm, matches);
      assert Satisfies({}, cls, []);
    }
  }
}
