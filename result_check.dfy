/**
 * The check `findCompatibleSet` makes on the mods it selected: every
 * dependency of a selected mod is tested against the selection, and each
 * one that fails becomes a line of a report. Unmet `depends` and met
 * `breaks` are hard (resolution fails); unmet `recommends` and met
 * `conflicts` are soft (a warning).
 */
module ResultCheck {
  import opened IterationOrder
  import opened Versions

  datatype ErrorKind = DependsOn | Recommends | BreaksMod | ConflictsWith

  /** One line of a report: mod `modId` `kind` mod `dependency`, which is missing. */
  datatype ErrorLine = ErrorLine(modId: string, kind: ErrorKind, dependency: Dependency)

  /** `matches`: the ID `dep` names was selected, at a version `dep` accepts. */
  predicate Matches(dep: Dependency, result: map<string, ModCandidate>, matches: Matcher)
  {
    dep.modId in result && matches(dep, result[dep.modId].info.version)
  }

  /** `addErrorToList`: a line for `dependency` is appended when its match differs from `cond`. */
  function AddErrorToList(candidate: ModCandidate, dependency: Dependency, result: map<string, ModCandidate>,
                          errors: seq<ErrorLine>, kind: ErrorKind, cond: bool, matches: Matcher): (r: seq<ErrorLine>)
    ensures |r| > |errors| <==> Matches(dependency, result, matches) != cond
    ensures |r| > |errors| ==> r == errors + [ErrorLine(candidate.info.id, kind, dependency)]
    ensures |r| == |errors| ==> r == errors
  {
    if Matches(dependency, result, matches) != cond then
      errors + [ErrorLine(candidate.info.id, kind, dependency)]
    else
      errors
  }

  /** `addErrorToList` for each dependency of `deps` in turn, appending to `errors`. */
  function DepLines(c: ModCandidate, deps: seq<Dependency>, result: map<string, ModCandidate>,
                    errors: seq<ErrorLine>, kind: ErrorKind, cond: bool, matches: Matcher): seq<ErrorLine>
  {
    if deps == [] then errors
    else
      var before := DepLines(c, deps[..|deps| - 1], result, errors, kind, cond, matches);
      AddErrorToList(c, deps[|deps| - 1], result, before, kind, cond, matches)
  }

  /** The lines for one selected candidate that go to the hard report: depends, then breaks. */
  function HardOf(c: ModCandidate, result: map<string, ModCandidate>, errors: seq<ErrorLine>, matches: Matcher): seq<ErrorLine>
  {
    var afterDepends := DepLines(c, c.info.depends, result, errors, DependsOn, true, matches);
    DepLines(c, c.info.breaks, result, afterDepends, BreaksMod, false, matches)
  }

  /** The lines for one selected candidate that go to the soft report: recommends, then conflicts. */
  function SoftOf(c: ModCandidate, result: map<string, ModCandidate>, errors: seq<ErrorLine>, matches: Matcher): seq<ErrorLine>
  {
    var afterRecommends := DepLines(c, c.info.recommends, result, errors, Recommends, true, matches);
    DepLines(c, c.info.conflicts, result, afterRecommends, ConflictsWith, false, matches)
  }

  /** `errorsHard` after visiting the selected candidates `cs` in order. */
  function HardLines(cs: seq<ModCandidate>, result: map<string, ModCandidate>, matches: Matcher): seq<ErrorLine>
  {
    if cs == [] then [] else HardOf(cs[|cs| - 1], result, HardLines(cs[..|cs| - 1], result, matches), matches)
  }

  /** `errorsSoft` after visiting the selected candidates `cs` in order. */
  function SoftLines(cs: seq<ModCandidate>, result: map<string, ModCandidate>, matches: Matcher): seq<ErrorLine>
  {
    if cs == [] then [] else SoftOf(cs[|cs| - 1], result, SoftLines(cs[..|cs| - 1], result, matches), matches)
  }

  /**
   * `result.values()`: the selected candidates in the order `ids` lists
   * their IDs (IDs `result` lacks are skipped).
   */
  function ResultValues(result: map<string, ModCandidate>, ids: seq<string>): (r: seq<ModCandidate>)
    ensures forall c :: c in r <==> exists k :: 0 <= k < |ids| && ids[k] in result && result[ids[k]] == c
  {
    if ids == [] then []
    else
      var init := ids[..|ids| - 1];
      assert forall k :: 0 <= k < |init| ==> init[k] == ids[k];
      ResultValues(result, init) + (if ids[|ids| - 1] in result then [result[ids[|ids| - 1]]] else [])
  }

  // ---------------------------------------------------------------------
  // What the reports contain

  /** `line` reports an unmet `depends` or a met `breaks` of `c`. */
  predicate HardViolation(c: ModCandidate, line: ErrorLine, result: map<string, ModCandidate>, matches: Matcher)
  {
    && line.modId == c.info.id
    && (|| (line.kind == DependsOn && line.dependency in c.info.depends && !Matches(line.dependency, result, matches))
        || (line.kind == BreaksMod && line.dependency in c.info.breaks && Matches(line.dependency, result, matches)))
  }

  /** `line` reports an unmet `recommends` or a met `conflicts` of `c`. */
  predicate SoftViolation(c: ModCandidate, line: ErrorLine, result: map<string, ModCandidate>, matches: Matcher)
  {
    && line.modId == c.info.id
    && (|| (line.kind == Recommends && line.dependency in c.info.recommends && !Matches(line.dependency, result, matches))
        || (line.kind == ConflictsWith && line.dependency in c.info.conflicts && Matches(line.dependency, result, matches)))
  }

  /** Appending to a report keeps what it held. */
  lemma {:induction false} DepLinesAppend(c: ModCandidate, deps: seq<Dependency>, result: map<string, ModCandidate>,
                                          errors: seq<ErrorLine>, kind: ErrorKind, cond: bool, matches: Matcher)
    ensures DepLines(c, deps, result, errors, kind, cond, matches) == errors + DepLines(c, deps, result, [], kind, cond, matches)
  {
    if deps != [] {
      var init, d := deps[..|deps| - 1], deps[|deps| - 1];
      DepLinesAppend(c, init, result, errors, kind, cond, matches);
      var rest := DepLines(c, init, result, [], kind, cond, matches);
      if Matches(d, result, matches) != cond {
        assert errors + rest + [ErrorLine(c.info.id, kind, d)] == errors + (rest + [ErrorLine(c.info.id, kind, d)]);
      }
    }
  }

  /** A line is reported for `deps` exactly when its dependency is one of them and its match differs from `cond`. */
  lemma {:induction false} DepLinesMeaning(c: ModCandidate, deps: seq<Dependency>, result: map<string, ModCandidate>,
                                           kind: ErrorKind, cond: bool, matches: Matcher, line: ErrorLine)
    ensures line in DepLines(c, deps, result, [], kind, cond, matches) <==>
      line.modId == c.info.id && line.kind == kind && line.dependency in deps && Matches(line.dependency, result, matches) != cond
  {
    if deps != [] {
      var init, d := deps[..|deps| - 1], deps[|deps| - 1];
      DepLinesMeaning(c, init, result, kind, cond, matches, line);
      assert deps == init + [d];
      assert line.dependency in deps <==> line.dependency in init || line.dependency == d;
    }
  }

  /** The hard report holds exactly the unmet `depends` and met `breaks` of the visited candidates. */
  lemma {:induction false} HardLinesMeaning(cs: seq<ModCandidate>, result: map<string, ModCandidate>, matches: Matcher, line: ErrorLine)
    ensures line in HardLines(cs, result, matches) <==> exists k :: 0 <= k < |cs| && HardViolation(cs[k], line, result, matches)
  {
    if cs != [] {
      var init, c := cs[..|cs| - 1], cs[|cs| - 1];
      var before := HardLines(init, result, matches);
      HardLinesMeaning(init, result, matches, line);
      DepLinesAppend(c, c.info.depends, result, before, DependsOn, true, matches);
      var mid := DepLines(c, c.info.depends, result, before, DependsOn, true, matches);
      DepLinesAppend(c, c.info.breaks, result, mid, BreaksMod, false, matches);
      DepLinesMeaning(c, c.info.depends, result, DependsOn, true, matches, line);
      DepLinesMeaning(c, c.info.breaks, result, BreaksMod, false, matches, line);
      if exists k :: 0 <= k < |cs| && HardViolation(cs[k], line, result, matches) {
        var k :| 0 <= k < |cs| && HardViolation(cs[k], line, result, matches);
        if k < |init| {
          assert init[k] == cs[k];
        }
      }
      if exists k :: 0 <= k < |init| && HardViolation(init[k], line, result, matches) {
        var k :| 0 <= k < |init| && HardViolation(init[k], line, result, matches);
        assert cs[k] == init[k];
      }
    }
  }

  /** The soft report holds exactly the unmet `recommends` and met `conflicts` of the visited candidates. */
  lemma {:induction false} SoftLinesMeaning(cs: seq<ModCandidate>, result: map<string, ModCandidate>, matches: Matcher, line: ErrorLine)
    ensures line in SoftLines(cs, result, matches) <==> exists k :: 0 <= k < |cs| && SoftViolation(cs[k], line, result, matches)
  {
    if cs != [] {
      var init, c := cs[..|cs| - 1], cs[|cs| - 1];
      var before := SoftLines(init, result, matches);
      SoftLinesMeaning(init, result, matches, line);
      DepLinesAppend(c, c.info.recommends, result, before, Recommends, true, matches);
      var mid := DepLines(c, c.info.recommends, result, before, Recommends, true, matches);
      DepLinesAppend(c, c.info.conflicts, result, mid, ConflictsWith, false, matches);
      DepLinesMeaning(c, c.info.recommends, result, Recommends, true, matches, line);
      DepLinesMeaning(c, c.info.conflicts, result, ConflictsWith, false, matches, line);
      if exists k :: 0 <= k < |cs| && SoftViolation(cs[k], line, result, matches) {
        var k :| 0 <= k < |cs| && SoftViolation(cs[k], line, result, matches);
        if k < |init| {
          assert init[k] == cs[k];
        }
      }
      if exists k :: 0 <= k < |init| && SoftViolation(init[k], line, result, matches) {
        var k :| 0 <= k < |init| && SoftViolation(init[k], line, result, matches);
        assert cs[k] == init[k];
      }
    }
  }

  /** Every `depends` of every visited candidate is met and no `breaks` is. */
  predicate HardRequirementsMet(cs: seq<ModCandidate>, result: map<string, ModCandidate>, matches: Matcher)
  {
    forall k :: 0 <= k < |cs| ==>
      && (forall d :: d in cs[k].info.depends ==> Matches(d, result, matches))
      && (forall d :: d in cs[k].info.breaks ==> !Matches(d, result, matches))
  }

  /** The hard report is empty exactly when every `depends` is met and no `breaks` is. */
  lemma HardLinesEmpty(cs: seq<ModCandidate>, result: map<string, ModCandidate>, matches: Matcher)
    ensures HardLines(cs, result, matches) == [] <==> HardRequirementsMet(cs, result, matches)
  {
    if HardLines(cs, result, matches) != [] {
      var line := HardLines(cs, result, matches)[0];
      HardLinesMeaning(cs, result, matches, line);
    }
    if !HardRequirementsMet(cs, result, matches) {
      var k :| 0 <= k < |cs| && !(
        && (forall d :: d in cs[k].info.depends ==> Matches(d, result, matches))
        && (forall d :: d in cs[k].info.breaks ==> !Matches(d, result, matches)));
      var line;
      if d :| d in cs[k].info.depends && !Matches(d, result, matches) {
        line := ErrorLine(cs[k].info.id, DependsOn, d);
      } else {
        var d :| d in cs[k].info.breaks && Matches(d, result, matches);
        line := ErrorLine(cs[k].info.id, BreaksMod, d);
      }
      assert HardViolation(cs[k], line, result, matches);
      HardLinesMeaning(cs, result, matches, line);
    }
  }

  // ---------------------------------------------------------------------
  // The checking loops

  /** The mandatory-mods loop: every mandatory ID the result lacks. */
  method MissingModsOf(mandatory: set<string>, result: map<string, ModCandidate>) returns (missing: set<string>)
    ensures forall id :: id in missing <==> id in mandatory && id !in result
  {
    missing := {};
    var rest := mandatory;
    while rest != {}
      invariant rest <= mandatory
      invariant forall id :: id in missing <==> id in mandatory - rest && id !in result
      decreases |rest|
    {
      var m :| m in rest;
      if m !in result {
        missing := missing + {m};
      }
      rest := rest - {m};
    }
  }

  /** `addErrorToList` for each dependency of `deps` in turn. */
  method AddDepLines(c: ModCandidate, deps: seq<Dependency>, result: map<string, ModCandidate>,
                     errors: seq<ErrorLine>, kind: ErrorKind, cond: bool, matches: Matcher)
    returns (r: seq<ErrorLine>)
    ensures r == DepLines(c, deps, result, errors, kind, cond, matches)
  {
    r := errors;
    var j := 0;
    while j < |deps|
      invariant 0 <= j <= |deps|
      invariant r == DepLines(c, deps[..j], result, errors, kind, cond, matches)
    {
      assert deps[..j + 1][..j] == deps[..j];
      r := AddErrorToList(c, deps[j], result, r, kind, cond, matches);
      j := j + 1;
    }
    assert deps[..j] == deps;
  }

  /**
   * The dependency check over the selected candidates `cs` in order: unmet
   * `depends` and met `breaks` go to the hard report, unmet `recommends`
   * and met `conflicts` to the soft one.
   */
  method CheckCandidates(cs: seq<ModCandidate>, result: map<string, ModCandidate>, matches: Matcher)
    returns (hard: seq<ErrorLine>, soft: seq<ErrorLine>)
    ensures hard == HardLines(cs, result, matches)
    ensures soft == SoftLines(cs, result, matches)
  {
    hard, soft := [], [];
    var k := 0;
    while k < |cs|
      invariant 0 <= k <= |cs|
      invariant hard == HardLines(cs[..k], result, matches)
      invariant soft == SoftLines(cs[..k], result, matches)
    {
      var candidate := cs[k];
      assert cs[..k + 1][..k] == cs[..k];
      hard := AddDepLines(candidate, candidate.info.depends, result, hard, DependsOn, true, matches);
      soft := AddDepLines(candidate, candidate.info.recommends, result, soft, Recommends, true, matches);
      hard := AddDepLines(candidate, candidate.info.breaks, result, hard, BreaksMod, false, matches);
      soft := AddDepLines(candidate, candidate.info.conflicts, result, soft, ConflictsWith, false, matches);
      k := k + 1;
    }
    assert cs[..k] == cs;
  }
}
