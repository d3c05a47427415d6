# Mod resolution of the Fabric-derived loader, in Dafny

This project models the part of the loader that decides which mod files get loaded. It also models two string helpers of the dedicated-server launcher.

- **Candidate sets.** Discovery files every mod it finds under its mod ID, in a `ModCandidateSet`.
  - A set keeps at most one candidate per version string.
  - A candidate found less deeply nested replaces one of the same version found deeper.
  - `toSortedSet` picks the candidates the resolver may choose from:
    - the single user-provided (depth-0) candidate, if there is one;
    - an error, if there are two or more;
    - otherwise every candidate, newest version first, in a `TreeSet`. The set's comparator treats any pair involving a non-semantic version as equal.
- **Mod IDs.** Discovery rejects a mod whose ID is missing, empty or not of the form `[a-z][a-z0-9-_]{1,63}`.
- **Compatible-set selection.** `findCompatibleSet` turns the candidate sets into one chosen candidate per mod ID.
  - The mandatory IDs are those with a user-provided candidate.
  - When no ID is ambiguous, every ID gets its single candidate.
  - Otherwise the choice is encoded as a SAT problem in the 0install style:
    - one variable per candidate;
    - exactly one (mandatory ID) or at most one (optional ID) true variable per ID;
    - a clause `¬X ∨ m1 ∨ …` for each `depends` of X;
    - a clause `¬X ∨ ¬Y` for each Y matching a `breaks` of X.
  - The resolver then probes assumptions greedily, ID by ID, reads the solver's model, decodes it, and checks the result: missing mandatory mods, unmet `depends` and matched `breaks` are errors; unmet `recommends` and matched `conflicts` are warnings.
- **Library names.** The server launcher turns a Maven coordinate `group:artifact:version` into a file name (`:` replaced by `.`) and into a repository URL (`root` + `group-as-path/artifact/version/artifact-version.jar`).

## Layout

- `wrappers.dfy`: `Option` and `Result`.
- `versions.dfy` (module `Versions`): versions, dependencies, mod metadata and candidates, and the newest-first `TreeSet` as sequential insertion.
- `iteration_order.dfy` (module `IterationOrder`): a fixed listing of a map's values, standing in for `HashMap.values()`.
- `candidate_set.dfy` (module `CandidateSets`): the `ModCandidateSet` class.
- `mod_id.dfy` (module `ModIds`): the mod ID pattern and the discovery checks on it.
- `sat.dfy` (module `Sat`): clauses, assignments, satisfiability under assumptions, and the `Solver` class standing for the sat4j solver.
- `encoding.dfy` (module `Encoding`): the clauses `findCompatibleSet` adds, and what an assignment satisfying them means.
- `numbering.dfy` (module `Numbering`): variable numbering, decoding, valid selections, and the proof that the formula is satisfiable exactly when a valid selection exists.
- `probing.dfy` (module `Probing`): greedy assumption probing as a function.
- `result_check.dfy` (module `ResultCheck`): `matches`, `addErrorToList` and the hard and soft error lines.
- `errors.dfy` (module `ResolutionErrors`): the ways resolution fails.
- `solving.dfy` (module `Solving`): the imperative SAT path of `findCompatibleSet`.
- `resolver.dfy` (module `Resolver`): `findCompatibleSet` as a whole.
- `findings.dfy` (module `Findings`): the input behind the finding below.
- `launcher.dfy` (module `ServerLauncher`): `sanitizedLibName` and `mkUrlFromName`.

A *valid selection* (`Numbering.ValidSelection`) is a map from mod IDs to chosen candidates such that:

- each ID holds one of its selectable candidates;
- every mandatory ID is present;
- every `depends` of a chosen mod is met by a chosen mod;
- no `breaks` of a chosen mod is.

This is the independent reference definition against which the SAT path is proved.

Java's `HashMap` iteration order is unspecified. The resolver's operations therefore take `ids`, a sequence listing every mod ID once in any order, and their contracts hold for every such order. The same `ids` order stands for all three orders the source iterates in:

- `modCandidateSetMap.values()` in the first loop;
- `modCandidateMap`'s keys and values when numbering, constraining and probing;
- `result.values()` in the final checks. This map holds only the chosen IDs, so in Java its order can differ from the others.

Using one `ids` order for these three Java orders loses nothing that matters: any difference between them affects only which failing candidate set is reported and the order of the error lines. The order itself matters more. The key order of `modCandidateMap` (ModResolver.java:208) also decides which candidate the probing loop keeps for each ID. It further decides whether the last probe fails, which is the case in which the code as written loses its model (see "## Findings"). The contracts therefore quantify over every `ids` order rather than fixing one.

The model of `findCompatibleSet` reads the solver's model after probing in the corrected way described under "## Findings": it asks the solver once more, under the final assumptions. `Solving.SolveAsWritten` models the code as written, which reads `problem.model()` straight away.

## Model

| member | source | states |
|---|---|---|
| Versions.Newer | src/main/java/net/fabricmc/loader/discovery/ModCandidateSet.java:31-42 | a candidate sorts strictly before another exactly when the comparator returns a negative number: both versions are semantic and the first is newer |
| Versions.TreeInsert | src/main/java/net/fabricmc/loader/discovery/ModCandidateSet.java:31-42 | inserting into the newest-first set keeps it strictly newest-first, loses no element, adds nothing but the new candidate, and drops the new candidate only when an element compares equal to it |
| Versions.NewestVersionSet | src/main/java/net/fabricmc/loader/discovery/ModCandidateSet.java:90-93 | the set filled by `addAll` is strictly newest-first, holds only input candidates, always holds the first one inserted, and every input is present or collapsed onto an element that compares equal to it |
| Versions.OpaqueFirstBlocksAll | src/main/java/net/fabricmc/loader/discovery/ModCandidateSet.java:36-40 | when the first candidate inserted has a non-semantic version, the set holds that candidate alone |
| Versions.SemanticFirstKeepsOnlySemantic | src/main/java/net/fabricmc/loader/discovery/ModCandidateSet.java:36-40 | when the first candidate inserted is semantic, every member of the set is semantic: later non-semantic candidates are dropped |
| Versions.DistinctRanksArePermuted | src/main/java/net/fabricmc/loader/discovery/ModCandidateSet.java:90-93 | when all versions are semantic and pairwise unequal, the set is a permutation of the input (a plain sort) |
| IterationOrder.Values | src/main/java/net/fabricmc/loader/discovery/ModCandidateSet.java:92 | `values()` lists as many items as the map has keys, only values of the map, and every value |
| CandidateSets.ModCandidateSet.constructor | src/main/java/net/fabricmc/loader/discovery/ModCandidateSet.java:44-46 | a new set has the given mod ID, no candidates, no depth-0 candidates, and satisfies the invariant |
| CandidateSets.ModCandidateSet.Add | src/main/java/net/fabricmc/loader/discovery/ModCandidateSet.java:52-75 | keeps the invariant (candidates keyed by their version string, depth-0 set equal to the depth-0 candidates); returns true exactly when the version is new or the new candidate is less deeply nested; then files it under its version, leaving other versions alone; otherwise changes nothing |
| CandidateSets.ModCandidateSet.IsUserProvided | src/main/java/net/fabricmc/loader/discovery/ModCandidateSet.java:77-79 | true exactly when some stored candidate has depth 0 |
| CandidateSets.ModCandidateSet.ToSortedSet | src/main/java/net/fabricmc/loader/discovery/ModCandidateSet.java:81-97 | fails exactly when there are two or more depth-0 candidates (duplicate versions, naming them) or no candidates at all; a single depth-0 candidate is returned alone; otherwise the result is non-empty, strictly newest-first, drawn from the stored candidates, and every stored candidate is in it or compares equal to one in it |
| ModIds.RepeatIdCharsIff | src/main/java/net/fabricmc/loader/discovery/ModResolver.java:67 | the repetition `[a-z0-9-_]{lo,hi}` matches exactly the strings of length `lo` to `hi` made of ID characters |
| ModIds.ModIdValidIff | src/main/java/net/fabricmc/loader/discovery/ModResolver.java:67 | the pattern matches exactly the IDs of length 2 to 64 whose first character is a lowercase letter and whose other characters are lowercase letters, digits, `-` or `_` |
| ModIds.CheckModId | src/main/java/net/fabricmc/loader/discovery/ModResolver.java:375-381 | an ID passes exactly when present and matching the pattern; the "no id" error is raised exactly for a missing or empty ID |
| ModIds.SingleLetterRejected | src/main/java/net/fabricmc/loader/discovery/ModResolver.java:67 | a one-letter ID is rejected as not matching the pattern, not as missing |
| ResultCheck.AddErrorToList | src/main/java/net/fabricmc/loader/discovery/ModResolver.java:83-95 | a line naming the mod, the kind and the dependency is appended exactly when `matches` (target ID present and its version accepted) differs from `cond`; otherwise the list is unchanged |
| ResultCheck.ResultValues | src/main/java/net/fabricmc/loader/discovery/ModResolver.java:268 | `result.values()` lists exactly the candidates stored under some ID |
| ResultCheck.DepLinesAppend | src/main/java/net/fabricmc/loader/discovery/ModResolver.java:269-283 | appending a dependency list's lines to existing errors keeps the existing lines in front, unchanged |
| ResultCheck.DepLinesMeaning | src/main/java/net/fabricmc/loader/discovery/ModResolver.java:269-283 | a line comes from a dependency list exactly when it names the mod, the list's kind and one of its dependencies whose `matches` differs from `cond` |
| ResultCheck.HardLinesMeaning | src/main/java/net/fabricmc/loader/discovery/ModResolver.java:268-284 | a hard line is reported exactly for a chosen mod with an unmet `depends` or a met `breaks` |
| ResultCheck.SoftLinesMeaning | src/main/java/net/fabricmc/loader/discovery/ModResolver.java:268-284 | a soft line is reported exactly for a chosen mod with an unmet `recommends` or a met `conflicts` |
| ResultCheck.HardLinesEmpty | src/main/java/net/fabricmc/loader/discovery/ModResolver.java:264-289 | there are no hard lines exactly when every `depends` is met and no `breaks` is |
| ResultCheck.MissingModsOf | src/main/java/net/fabricmc/loader/discovery/ModResolver.java:252-258 | the missing mods are exactly the mandatory IDs absent from the result |
| ResultCheck.AddDepLines | src/main/java/net/fabricmc/loader/discovery/ModResolver.java:269-271 | the loop over one dependency list appends exactly the lines the specification function gives |
| ResultCheck.CheckCandidates | src/main/java/net/fabricmc/loader/discovery/ModResolver.java:264-284 | the loop over the result's candidates builds exactly the hard and soft lines |
| Encoding.VarsOf | src/main/java/net/fabricmc/loader/discovery/ModResolver.java:143 | definition of `mapToInt(candidateIntMap::get)`, position by position; the properties built on it are the `...Meaning` lemmas below |
| Encoding.Filter | src/main/java/net/fabricmc/loader/discovery/ModResolver.java:167 | keeps exactly the candidates whose version the dependency accepts |
| Encoding.Matching | src/main/java/net/fabricmc/loader/discovery/ModResolver.java:165-169 | the matching candidates are exactly the selectable candidates of the dependency's target ID that it accepts, and none when that ID is unknown |
| Encoding.CardinalityClauseMeaning | src/main/java/net/fabricmc/loader/discovery/ModResolver.java:143-150 | one ID's clauses hold exactly when at most one of its candidates is chosen, and at least one if the ID is mandatory |
| Encoding.CardinalityMeaning | src/main/java/net/fabricmc/loader/discovery/ModResolver.java:142-154 | the clauses of all IDs hold exactly when each ID's cardinality rule does |
| Encoding.DependsClauseMeaning | src/main/java/net/fabricmc/loader/discovery/ModResolver.java:171-173 | the clause "matching variables plus `-X`" holds exactly when X being chosen implies some match is chosen |
| Encoding.DependsClausesMeaning | src/main/java/net/fabricmc/loader/discovery/ModResolver.java:164-180 | the `depends` clauses of X hold exactly when, if X is chosen, every dependency has a chosen match |
| Encoding.BreaksClausesMeaning | src/main/java/net/fabricmc/loader/discovery/ModResolver.java:187-201 | the `breaks` clauses of X hold exactly when, if X is chosen, no dependency has a chosen match |
| Encoding.CandidateClausesMeaning | src/main/java/net/fabricmc/loader/discovery/ModResolver.java:164-201 | one candidate's clauses hold exactly when its `depends` and `breaks` rules do |
| Encoding.DependencyMeaning | src/main/java/net/fabricmc/loader/discovery/ModResolver.java:156-202 | the clauses of all candidates hold exactly when each candidate's rules do |
| Encoding.EncodingMeaning | src/main/java/net/fabricmc/loader/discovery/ModResolver.java:140-202 | the whole formula holds exactly when the cardinality rules and the dependency rules hold |
| Encoding.NothingChosenSatisfies | src/main/java/net/fabricmc/loader/discovery/ModResolver.java:140-202 | with no mandatory ID, choosing nothing satisfies the formula |
| Encoding.EncodeBounded | src/main/java/net/fabricmc/loader/discovery/ModResolver.java:138 | every literal of the formula names a variable within the `newVar` bound |
| Numbering.Flatten | src/main/java/net/fabricmc/loader/discovery/ModResolver.java:130-134 | the candidates numbered are exactly the selectable candidates of the listed IDs |
| Numbering.FlattenDistinct | src/main/java/net/fabricmc/loader/discovery/ModResolver.java:130-134 | no candidate is listed twice |
| Numbering.Numbered | src/main/java/net/fabricmc/loader/discovery/ModResolver.java:126-135 | every candidate gets a number from 1 to n, and the candidate at that position of the list is the one numbered |
| Numbering.NumberedDistinct | src/main/java/net/fabricmc/loader/discovery/ModResolver.java:132 | the k-th candidate gets variable k+1, so variables are distinct |
| Numbering.SatisfyingIffAdmissible | src/main/java/net/fabricmc/loader/discovery/ModResolver.java:140-202 | an assignment satisfies the formula exactly when it is an admissible choice of candidates |
| Numbering.AdmissibleHasNoSharedId | src/main/java/net/fabricmc/loader/discovery/ModResolver.java:241-242 | an admissible choice never makes two candidates of the same ID true, so the duplicate-ID error cannot arise from it |
| Numbering.DecodedMeaning | src/main/java/net/fabricmc/loader/discovery/ModResolver.java:235-246 | decoding files each true variable's candidate under its ID and nothing else |
| Numbering.AdmissibleSelectionIsValid | src/main/java/net/fabricmc/loader/discovery/ModResolver.java:235-262 | decoding an admissible choice gives a map that holds every mandatory ID, only selectable candidates, met `depends` and unmet `breaks` |
| Numbering.ValidSelectionAdmissible | src/main/java/net/fabricmc/loader/discovery/ModResolver.java:140-202 | conversely, the variables of a valid selection form an admissible choice |
| Numbering.SatisfiableIffValidSelection | src/main/java/net/fabricmc/loader/discovery/ModResolver.java:140-202 | the formula is satisfiable exactly when a valid selection exists |
| Sat.SatisfiableIff | src/main/java/net/fabricmc/loader/discovery/ModResolver.java:216 | satisfiability under assumptions is the existence of an assignment satisfying every clause and every assumption |
| Sat.AtMostOneMeaning | src/main/java/net/fabricmc/loader/discovery/ModResolver.java:149 | the at-most-one clauses hold exactly when no two of the variables are true |
| Sat.ExactlyOneMeaning | src/main/java/net/fabricmc/loader/discovery/ModResolver.java:147 | the exactly-one clauses hold exactly when one variable is true and no two are |
| Sat.ModelOf | src/main/java/net/fabricmc/loader/discovery/ModResolver.java:232 | definition of the layout of `model()`: for each variable 1 to n, the variable if true and its negation if false; what is proved with it is in `Solving.DecodeModel` and `Solving.SatisfyingDecodesValid` |
| Sat.Solver.constructor | src/main/java/net/fabricmc/loader/discovery/ModResolver.java:137 | a new solver has no variables, no clauses and no model |
| Sat.Solver.NewVar | src/main/java/net/fabricmc/loader/discovery/ModResolver.java:138 | sets the variable count and changes nothing else |
| Sat.Solver.AddClause | src/main/java/net/fabricmc/loader/discovery/ModResolver.java:176 | appends the clause; reports a contradiction only when the clause set then has no satisfying assignment |
| Sat.Solver.AddAtMostOne | src/main/java/net/fabricmc/loader/discovery/ModResolver.java:149 | appends the at-most-one clauses, or a prefix of them followed by a contradiction that leaves the clauses unsatisfiable |
| Sat.Solver.AddExactlyOne | src/main/java/net/fabricmc/loader/discovery/ModResolver.java:147 | appends the exactly-one clauses, or a prefix of them followed by a contradiction that leaves the clauses unsatisfiable |
| Sat.Solver.IsSatisfiable | src/main/java/net/fabricmc/loader/discovery/ModResolver.java:216 | answers whether the clauses are satisfiable under the assumptions; when they are, the model is one satisfying assignment; when not, there is no model |
| Solving.NumberCandidates | src/main/java/net/fabricmc/loader/discovery/ModResolver.java:126-135 | `candidateIntMap` is the numbering, `intCandidateMap` inverts it with an empty slot 0, and `varCount` is one more than the number of candidates |
| Solving.AddIdConstraint | src/main/java/net/fabricmc/loader/discovery/ModResolver.java:143-153 | adds exactly-one for a mandatory ID and at-most-one otherwise; a failure leaves the clauses unsatisfiable |
| Solving.AddCardinality | src/main/java/net/fabricmc/loader/discovery/ModResolver.java:142-154 | adds every ID's cardinality clauses; or fails at the k-th ID, naming it. In that case the clauses of the IDs before it are added in full, only part of its own clauses may be, and the clauses are unsatisfiable |
| Solving.AddDependsEntry | src/main/java/net/fabricmc/loader/discovery/ModResolver.java:165-176 | appends exactly one clause: the variables of the selectable candidates the dependency accepts, then the negated variable of the mod; a failure leaves the clauses unsatisfiable |
| Solving.AddDependsOf | src/main/java/net/fabricmc/loader/discovery/ModResolver.java:164-180 | adds one clause per `depends`; or fails at the j-th `depends`, naming the mod and that dependency. In that case exactly the clauses of the entries up to and including it have been added, and the clauses are unsatisfiable |
| Solving.AddBreaksEntry | src/main/java/net/fabricmc/loader/discovery/ModResolver.java:188-197 | appends the pairs `[-x, -y]` for every selectable candidate `y` the entry accepts, or a prefix of them followed by a contradiction that leaves the clauses unsatisfiable |
| Solving.AddBreaksOf | src/main/java/net/fabricmc/loader/discovery/ModResolver.java:187-201 | adds one clause per matching candidate of each `breaks`; or fails at the j-th `breaks`, naming the mod and that entry. In that case the clauses of the earlier entries are added in full, only part of its own pairs may be, and the clauses are unsatisfiable |
| Solving.AddCandidateClauses | src/main/java/net/fabricmc/loader/discovery/ModResolver.java:156-202 | adds one candidate's `depends` then `breaks` clauses, or fails at that candidate |
| Solving.AddDependencies | src/main/java/net/fabricmc/loader/discovery/ModResolver.java:156-202 | adds every candidate's clauses, or fails at one of them with the clauses unsatisfiable |
| Solving.AddConstraints | src/main/java/net/fabricmc/loader/discovery/ModResolver.java:140-202 | the solver ends up holding exactly the encoding, or a contradiction is reported and the clauses added so far are unsatisfiable |
| Solving.ContradictionMeansNoSelection | src/main/java/net/fabricmc/loader/discovery/ModResolver.java:151-199 | when clauses added so far already have no satisfying assignment, no valid selection exists |
| Probing.FirstSatisfiable | src/main/java/net/fabricmc/loader/discovery/ModResolver.java:214-220 | finds the first candidate, from a given position, whose assumption keeps the problem satisfiable; none exactly when no candidate does |
| Probing.ProbeFrom | src/main/java/net/fabricmc/loader/discovery/ModResolver.java:208-229 | probing stops only at a mandatory ID; otherwise it extends the assumptions by at most one per ID |
| Probing.ProbedAssumptionsAreCandidates | src/main/java/net/fabricmc/loader/discovery/ModResolver.java:215 | every assumption is the variable of some selectable candidate |
| Probing.ProbeKeepsSatisfiable | src/main/java/net/fabricmc/loader/discovery/ModResolver.java:208-229 | starting from satisfiable assumptions, probing never gets stuck and ends with satisfiable assumptions |
| Probing.StuckWhenUnsatisfiable | src/main/java/net/fabricmc/loader/discovery/ModResolver.java:222-224 | starting from unsatisfiable assumptions with a mandatory ID ahead, probing gets stuck |
| Probing.ProbingStuckIffUnsatisfiable | src/main/java/net/fabricmc/loader/discovery/ModResolver.java:208-229 | probing the encoding gets stuck exactly when the formula is unsatisfiable, and otherwise ends with satisfiable assumptions |
| Solving.TryCandidates | src/main/java/net/fabricmc/loader/discovery/ModResolver.java:209-220 | the inner loop sets the last assumption to the first candidate that keeps the problem satisfiable, and reports whether there was one |
| Solving.ProbeAssumptions | src/main/java/net/fabricmc/loader/discovery/ModResolver.java:208-229 | the probing loop computes exactly the probing function: it fails naming the mandatory ID where that gets stuck, and the solver holds a model exactly when the last check succeeded |
| Solving.ModelAsWritten | src/main/java/net/fabricmc/loader/discovery/ModResolver.java:232 | `problem.model()` returns the solver's current model, and fails when there is none |
| Solving.ModelOfAssumptions | src/main/java/net/fabricmc/loader/discovery/ModResolver.java:232 | asks the solver again under the final assumptions: a model is returned exactly when they are satisfiable, and it satisfies them |
| Solving.DecodeModel | src/main/java/net/fabricmc/loader/discovery/ModResolver.java:233-246 | decoding succeeds exactly when no two true variables share an ID, and then gives the map of the true variables' candidates; otherwise it fails with the duplicate-ID error |
| Solving.SatisfyingDecodesValid | src/main/java/net/fabricmc/loader/discovery/ModResolver.java:232-246 | a satisfying assignment decodes without duplicates, into a valid selection |
| Solving.ProbedChoicesKept | src/main/java/net/fabricmc/loader/discovery/ModResolver.java:214-246 | an assignment that makes every assumption true decodes to a map holding, for each ID, the candidate whose variable was assumed |
| Solving.SolveAdvanced | src/main/java/net/fabricmc/loader/discovery/ModResolver.java:121-250 | the SAT path, with the model read after probing corrected (see "## Findings"; `Solving.SolveAsWritten` is the code as written): succeeds exactly when a valid selection exists, and otherwise fails with a contradiction or an unresolvable mandatory mod. On success it returns a valid selection that holds every candidate greedy probing settled on: for each ID whose probe succeeded, the first candidate of its newest-first collection that kept the problem satisfiable (`Solving.KeepsProbedChoices`) |
| Solving.SolveAsWritten | src/main/java/net/fabricmc/loader/discovery/ModResolver.java:121-250 | as written, a model is obtained only when the last probe succeeded; a valid selection may exist and the path still fails for lack of a model |
| Findings.ModelLostAfterFailedProbe | src/main/java/net/fabricmc/loader/discovery/ModResolver.java:208-232 | on a two-mod input, probing ends with a failed check although a valid selection exists |
| Resolver.AllSelectableIff | src/main/java/net/fabricmc/loader/discovery/ModCandidateSet.java:81-97 | since discovery never passes an empty set, every set yields its candidates exactly when none has more than one user-provided candidate |
| Resolver.SelectionOfWellFormed | src/main/java/net/fabricmc/loader/discovery/ModResolver.java:104-112 | the selectable collections are non-empty, duplicate-free and of their own ID, over the same IDs as the sets; the mandatory IDs are among them |
| Resolver.AdvancedExtend | src/main/java/net/fabricmc/loader/discovery/ModResolver.java:107 | the advanced flag of the loop becomes true exactly when some collection has more than one element or its element is nested |
| Resolver.NotAdvancedAllMandatory | src/main/java/net/fabricmc/loader/discovery/ModResolver.java:107-110 | on the fast path every ID is mandatory and has a single candidate |
| Resolver.SelectableSets | src/main/java/net/fabricmc/loader/discovery/ModResolver.java:104-112 | the first loop succeeds exactly when every set yields its selectable candidates, and then gives all of them, the user-provided IDs and the advanced flag; otherwise it fails with the error of the first failing set |
| Resolver.FirstChoices | src/main/java/net/fabricmc/loader/discovery/ModResolver.java:116-120 | the fast path maps every ID to the first element of its collection |
| Resolver.OnlyCandidatesOnlySelection | src/main/java/net/fabricmc/loader/discovery/ModResolver.java:116-120 | when every ID is mandatory with one candidate, the fast-path map is the only possible valid selection |
| Resolver.ChecksPassIffValid | src/main/java/net/fabricmc/loader/discovery/ModResolver.java:252-289 | a map of selectable candidates passes the missing-mods and hard-line checks exactly when it is a valid selection |
| Resolver.CheckResult | src/main/java/net/fabricmc/loader/discovery/ModResolver.java:252-295 | succeeds exactly when no mandatory mod is missing and there are no hard lines, returning the result unchanged with the soft lines as warnings; fails with the missing mods first, and otherwise with the hard and then the soft lines |
| Resolver.ResolveSelection | src/main/java/net/fabricmc/loader/discovery/ModResolver.java:114-295 | from the selectable collections, with the corrected read of the model on the SAT path (see "## Findings"): succeeds exactly when a valid selection exists, returns one with the soft lines as warnings. On the fast path it returns each ID's single candidate. On the SAT path the result holds every candidate greedy probing settled on |
| Resolver.FindCompatibleSet | src/main/java/net/fabricmc/loader/discovery/ModResolver.java:98-296 | with the corrected read of the model on the SAT path (see "## Findings"): fails with a candidate-set error exactly when some set yields none, naming the first failing one, and that error is always the duplicate-versions one; otherwise succeeds exactly when a valid selection exists, returning one with the soft lines as warnings. When the SAT path is taken, that selection holds every candidate greedy probing settled on |
| ServerLauncher.Replace | src/main/java/net/fabricmc/loader/launch/server/FabricServerLauncher.java:105 | definition of `String.replace(char, char)`, character by character; the properties built on it are `SanitizedIsDotJoin` and `MkUrlOfCoordinate` |
| ServerLauncher.SanitizedLibName | src/main/java/net/fabricmc/loader/launch/server/FabricServerLauncher.java:104-106 | the file name has the coordinate's length and no `:` |
| ServerLauncher.SanitizedIsDotJoin | src/main/java/net/fabricmc/loader/launch/server/FabricServerLauncher.java:104-106 | the file name is the coordinate's `:`-separated fields joined with `.` |
| ServerLauncher.FieldsJoin | src/main/java/net/fabricmc/loader/launch/server/FabricServerLauncher.java:113 | splitting at `:` and joining again gives back the coordinate, and no field contains `:` |
| ServerLauncher.StripTrailingEmpty | src/main/java/net/fabricmc/loader/launch/server/FabricServerLauncher.java:113 | `split` keeps a prefix of the fields that does not end in an empty one, dropping only empty trailing fields |
| ServerLauncher.MkUrlFromName | src/main/java/net/fabricmc/loader/launch/server/FabricServerLauncher.java:112-119 | no URL exactly when the split has fewer than three parts |
| ServerLauncher.MkUrlOfCoordinate | src/main/java/net/fabricmc/loader/launch/server/FabricServerLauncher.java:112-119 | for `g:a:v` the URL is `root` + `g` with `.` as `/` + `/a/v/a-v.jar`, with nothing inserted after `root` |
| ServerLauncher.MkUrlFirstThreeParts | src/main/java/net/fabricmc/loader/launch/server/FabricServerLauncher.java:113-116 | the URL depends only on the first three parts |
| ServerLauncher.MkUrlIgnoresExtraFields | src/main/java/net/fabricmc/loader/launch/server/FabricServerLauncher.java:113-116 | fields after the version (a classifier) do not change the URL |
| ServerLauncher.MkUrlEmptyVersion | src/main/java/net/fabricmc/loader/launch/server/FabricServerLauncher.java:113-116 | `g:a:` yields no URL, because `split` drops the trailing empty version |

## Left out

- `ModResolver.resolve` and `UrlProcessAction` (discovery): concurrent tasks over JAR file systems, the in-memory JAR cache, and the metadata file fallback. They are file I/O and concurrency. Only the mod ID check they apply is modelled (`ModIds`).
- Filing each discovered candidate into its set with `computeIfAbsent` is not modelled as a separate operation. `Resolver.SetsValid` states what it guarantees: every set sits under its own mod ID, holds only candidates of that ID, and is not empty.
- CandidateSets.ModCandidateSet.ToSortedSet: on an empty set the source throws `NoSuchElementException`, an unchecked exception rather than a resolution error. The model returns `NoCandidates` instead. This case never reaches `Resolver.FindCompatibleSet`, whose requirement `Resolver.SetsValid` excludes empty sets.
- The sat4j solver's internals are not part of this model. `Sat.Solver` keeps the clauses and answers satisfiability by the definition. A timeout (`TimeoutException`) is not modelled.
- `SemanticVersion.compareTo` is not part of this model. A semantic version carries an integer rank standing for its place in that order.
- `ModDependency.matches` is not part of this model either. It is the `Matcher` parameter.
- `ModMetadataParser` and the schema-version warning are not part of this model.
- Logging: the soft-line warning is returned as a value instead of logged, and the debug and timing output is dropped.
- Error messages are structured values (`ResolutionErrors.ResolutionError`, `ResultCheck.ErrorLine`), not the source's text.
- In `mkUrlFromName`, the `URL` constructor, the `MalformedURLException` handler and `System.exit` are left out. The model returns the URL text. When `split` gives fewer than three parts, the source throws an index exception, which the model returns as `TooFewParts`.
- The rest of the server launcher (downloads, properties files, class loading), the entrypoint hooks and the bytecode transformers are not part of this model.
- CandidateSets.ModCandidateSet.ToSortedSet: `candidates.values()` is listed in ascending order of the version strings. Java's order depends on hash codes, so when several candidates compare equal, the one the `TreeSet` keeps may differ from the source's. The contract does not say which one survives.
- Resolver.FindCompatibleSet: reads the solver's model in the corrected way (see "## Findings"), by asking again under the final assumptions. The source calls `problem.model()` straight away, and on some inputs it then has no model. So "succeeds exactly when a valid selection exists" is what the corrected program promises, not the lines as written. `Solving.SolveAsWritten` models those.
- Resolver.ResolveSelection: on the SAT path, uses the corrected read of the model, as `Resolver.FindCompatibleSet` does.
- Solving.SolveAdvanced: is the corrected SAT path. It replaces the source's direct `problem.model()` call with `Solving.ModelOfAssumptions`, one more satisfiability check under the final assumptions. `Solving.SolveAsWritten` is the code as written.
- Sat.Solver.IsSatisfiable: a reported model makes true only variables that occur in the clauses or the assumptions. In particular it never makes true the spare variable n+1, which `newVar(varCount)` allocates although no candidate has it. sat4j's `model()` is not documented to promise this; the model assumes it. The assumption is accepted because a variable that occurs nowhere is unconstrained, and a model with it false exists exactly when one with it true does. Without it, the decoding loop could meet variable n+1, for which `intCandidateMap` has no slot, and throw an index exception. The model does not capture that case.
- Resolver.FindCompatibleSet: the fast-path guarantee (each ID gets its single candidate) is stated on `Resolver.ResolveSelection`, in terms of the selectable collections, and not repeated on `FindCompatibleSet`.
- Solving.AddDependencies: adds the candidates' clauses in numbering order. The source walks `candidateIntMap.keySet()` in hash order. The clauses are the same, but when adding them hits a contradiction, the mod named in the error may differ.
- Sat.Solver.AddAtMostOne: encodes at-most-one pairwise, where sat4j adds a cardinality constraint. The satisfying assignments are the same.
- Sat.Solver.AddClause: reports a contradiction only when the new clause is falsified by unit clauses already added. sat4j may detect some contradictions at insertion that the model only finds later, when probing gets stuck on a mandatory ID. Either way resolution fails, but with a different error.

## Findings

| source | as written | input that shows it | evidently intended | confidence | as-written member | corrected member |
|---|---|---|---|---|---|---|
| src/main/java/net/fabricmc/loader/discovery/ModResolver.java:208-232 | after probing, `problem.model()` is read under the comment "assume satisfied". That model belongs to the last `isSatisfiable` call, which may have failed: when the last ID probed is optional and none of its candidates fits, no model backs the final assumptions. | mod `a` given directly (depth 0), mod `b` nested (depth 1) and depending on a mod `c` that nobody provides, probed in the order `a`, `b`. Probing assumes `a`, then the check with `b` fails last, although `{a}` is a valid selection. | the model is taken from a satisfiability check under the final assumptions, which always succeeds, because probing keeps the assumptions satisfiable | medium: depends on sat4j having no model after a failed check; not executed | Solving.SolveAsWritten, Findings.ModelLostAfterFailedProbe | Solving.SolveAdvanced |
