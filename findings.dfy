/**
 * A concrete input on which `findCompatibleSet`, as written, asks the
 * solver for a model after a failed check: mod `a` is given directly, mod
 * `b` is nested and depends on a mod `c` nobody provides.
 */
module Findings {
  import opened Wrappers
  import opened Versions
  import opened Sat
  import opened Encoding
  import opened Probing
  import opened Numbering

  const A := ModCandidate(ModInfo("a", Opaque("1"), [], [], [], []), "a.jar", 0)
  const B := ModCandidate(ModInfo("b", Opaque("1"), [Dependency("c", "*")], [], [], []), "b.jar", 1)

  function ExampleSelection(): Selection
  {
    map["a" := [A], "b" := [B]]
  }

  function ExampleIds(): seq<string>
  {
    ["a", "b"]
  }

  /** Every dependency accepts every version. */
  function AnyVersion(): Matcher
  {
    (d: Dependency, v: Version) => true
  }

  lemma ExampleFlatten()
    ensures Flatten(ExampleSelection(), ExampleIds()) == [A, B]
  {
    var sel := ExampleSelection();
    assert "a" != "b" by { assert "a"[0] != "b"[0]; }
    assert ExampleIds()[..1] == ["a"] && ["a"][..0] == [];
    assert Flatten(sel, ["a"]) == [A];
  }

  lemma ExampleNumbered()
    ensures Numbered([A, B]) == map[A := 1, B := 2]
  {
    assert [A, B][..1] == [A] && [A][..0] == [];
    assert Numbered([A]) == map[A := 1];
  }

  /** The candidates are numbered `a` first, then `b`. */
  lemma ExampleNumbering()
    ensures Flatten(ExampleSelection(), ExampleIds()) == [A, B]
    ensures Numbered([A, B]) == map[A := 1, B := 2]
  {
    ExampleFlatten();
    ExampleNumbered();
  }

  /** `a` is mandatory, so exactly one of its one candidate; `b` has nothing to exclude. */
  lemma ExampleCardinality()
    ensures CardinalityClauses(ExampleIds(), ExampleSelection(), {"a"}, map[A := 1, B := 2]) == [[1]]
  {
    var sel := ExampleSelection();
    var vm := map[A := 1, B := 2];
    assert "a" != "b" by { assert "a"[0] != "b"[0]; }
    assert ExampleIds()[..1] == ["a"] && ["a"][..0] == [];
    assert VarsOf([A], vm) == [1];
    assert VarsOf([B], vm) == [2];
    assert AtMostOneClauses([1]) == [] by {
      assert AtMostOneUpTo([1], 0) == [];
    }
    assert AtMostOneClauses([2]) == [] by {
      assert AtMostOneUpTo([2], 0) == [];
    }
    assert CardinalityClause("a", sel, {"a"}, vm) == [[1]];
    assert CardinalityClause("b", sel, {"a"}, vm) == [];
    assert CardinalityClauses(["a"], sel, {"a"}, vm) == [[1]];
  }

  /** `b` depends on `c`, which has no candidate: `b` must be false. */
  lemma ExampleDependencies()
    ensures DependencyClauses([A, B], ExampleSelection(), map[A := 1, B := 2], AnyVersion()) == [[-2]]
  {
    var sel := ExampleSelection();
    var vm := map[A := 1, B := 2];
    var dep := Dependency("c", "*");
    assert "c" !in sel by {
      assert "c"[0] != "a"[0] && "c"[0] != "b"[0];
    }
    assert Matching(dep, sel, AnyVersion()) == [];
    assert MatchingVars(dep, sel, vm, AnyVersion()) == [];
    assert [dep][..0] == [] && [] + [-2] == [-2];
    assert DependsClauses(2, [dep], sel, vm, AnyVersion()) == [[-2]];
    assert CandidateClauses(A, sel, vm, AnyVersion()) == [];
    assert CandidateClauses(B, sel, vm, AnyVersion()) == [[-2]];
    assert [A, B][..1] == [A] && [A][..0] == [];
    assert DependencyClauses([A], sel, vm, AnyVersion()) == [];
    assert [] + [[-2]] == [[-2]];
  }

  /** The clauses of the example: `a` must be chosen, `b` must not (its dependency is missing). */
  lemma ExampleClauses()
    ensures var sel := ExampleSelection();
      var cands := Flatten(sel, ExampleIds());
      && cands == [A, B]
      && Numbered(cands) == map[A := 1, B := 2]
      && Encode(ExampleIds(), sel, {"a"}, cands, Numbered(cands), AnyVersion()) == [[1], [-2]]
  {
    ExampleNumbering();
    ExampleCardinality();
    ExampleDependencies();
  }

  /** Under the example's clauses `a` can be assumed, and then `b` cannot. */
  lemma ExampleChecks()
    ensures Satisfiable([[1], [-2]], [1])
    ensures !Satisfiable([[1], [-2]], [1, 2])
  {
    var cls: seq<Clause> := [[1], [-2]];
    assert ClauseTrue({1}, [1]) by { assert LitTrue({1}, 1); }
    assert ClauseTrue({1}, [-2]) by { assert LitTrue({1}, -2); }
    assert Satisfies({1}, cls, [1]);
    forall m | AllTrue(m, cls)
      ensures 2 !in m
    {
      assert ClauseTrue(m, cls[1]);
      var l :| l in [-2] && LitTrue(m, l);
    }
    assert forall m :: Satisfies(m, cls, [1, 2]) ==> LitTrue(m, [1, 2][1]);
  }

  /** After `a` is assumed, the check for `b` fails and is the last one made. */
  lemma ExampleProbeB()
    ensures ProbeFrom([[1], [-2]], ["b"], ExampleSelection(), {"a"}, map[A := 1, B := 2], [1], true) == Probed([1], false)
  {
    var cls: seq<Clause> := [[1], [-2]];
    var sel := ExampleSelection();
    var vm := map[A := 1, B := 2];
    ExampleChecks();
    assert "a" != "b" by { assert "a"[0] != "b"[0]; }
    assert [1] + [2] == [1, 2];
    assert VarsOf(sel["b"], vm) == [2];
    assert FirstSatisfiable(cls, [1], [2], 0) == None;
    assert ["b"][1..] == [];
  }

  /** Probing the example: `a` is assumed, the check for `b` fails and is the last one made. */
  lemma ExampleProbe()
    ensures ProbeFrom([[1], [-2]], ExampleIds(), ExampleSelection(), {"a"}, map[A := 1, B := 2], [], false) == Probed([1], false)
  {
    var cls: seq<Clause> := [[1], [-2]];
    var sel := ExampleSelection();
    var vm := map[A := 1, B := 2];
    ExampleChecks();
    ExampleProbeB();
    assert [] + [1] == [1];
    assert VarsOf(sel["a"], vm) == [1];
    assert FirstSatisfiable(cls, [], [1], 0) == Some(0);
    assert ExampleIds()[1..] == ["b"];
  }

  /** Choosing `a` alone is a valid selection of the example. */
  lemma ExampleValid()
    ensures ValidSelection(map["a" := A], ExampleSelection(), {"a"}, AnyVersion())
  {
    assert A in ExampleSelection()["a"];
  }

  /**
   * On the example, probing assumes `a`, then fails to assume `b` and stops
   * with that failed check last, although choosing `a` alone is a valid
   * selection: `problem.model()` then has no model to return.
   */
  lemma ModelLostAfterFailedProbe()
    ensures var sel := ExampleSelection();
      var cands := Flatten(sel, ExampleIds());
      var cls := Encode(ExampleIds(), sel, {"a"}, cands, Numbered(cands), AnyVersion());
      && ProbeFrom(cls, ExampleIds(), sel, {"a"}, Numbered(cands), [], false) == Probed([1], false)
      && ValidSelection(map["a" := A], sel, {"a"}, AnyVersion())
  {
    ExampleClauses();
    ExampleProbe();
    ExampleValid();
  }
}
