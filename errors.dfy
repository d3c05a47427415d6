/** The failures `findCompatibleSet` reports. */
module ResolutionErrors {
  import opened Versions
  import opened CandidateSets
  import opened ResultCheck

  /** Where adding the clauses met a contradiction. */
  datatype ContradictionSite =
    | AddingMod(modId: string)
    | Requires(modId: string, dep: Dependency)
    | Breaks(modId: string, dep: Dependency)

  /**
   * How `findCompatibleSet` fails: the `ModResolutionException`s it throws,
   * and the exception the solver's `model()` throws when there is no model.
   */
  datatype ResolutionError =
    | CandidateSetError(error: SetError)
    | Contradiction(site: ContradictionSite)
    | MandatoryUnresolvable(modId: string)
    /** `problem.model()` when the last satisfiability check failed. */
    | NoModel
    | DuplicateId(modId: string)
    | MissingMods(mods: set<string>)
    | Unsatisfied(hard: seq<ErrorLine>, soft: seq<ErrorLine>)
}
