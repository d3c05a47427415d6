/**
 * ModCandidateSet: the candidates found for one mod ID, at most one per
 * version string, with the depth-zero (user-provided) ones tracked apart.
 */
module CandidateSets {
  import opened Wrappers
  import opened Versions
  import IterationOrder

  /** Why `toSortedSet` produced no collection. */
  datatype SetError =
    /** "Duplicate versions for mod ID ...": more than one user-provided candidate. */
    | DuplicateVersions(modId: string, provided: set<ModCandidate>)
    /** `iterator().next()` on an empty set: no candidate was ever added. */
    | NoCandidates(modId: string)

  /** The candidates among the values of `m` that were discovered at depth 0. */
  function DepthZeroOf(m: map<string, ModCandidate>): set<ModCandidate>
  {
    set v | v in m && m[v].depth == 0 :: m[v]
  }

  lemma DepthZeroRemoveDeep(m: map<string, ModCandidate>, v: string)
    requires v in m && m[v].depth > 0
    ensures DepthZeroOf(m - {v}) == DepthZeroOf(m)
  {
    forall c | c in DepthZeroOf(m)
      ensures c in DepthZeroOf(m - {v})
    {
      var k :| k in m && m[k].depth == 0 && m[k] == c;
      assert k in m - {v};
    }
  }

  lemma DepthZeroInsertFresh(m: map<string, ModCandidate>, v: string, c: ModCandidate)
    requires v !in m
    ensures DepthZeroOf(m[v := c]) == DepthZeroOf(m) + (if c.depth == 0 then {c} else {})
  {
    var m' := m[v := c];
    forall d | d in DepthZeroOf(m)
      ensures d in DepthZeroOf(m')
    {
      var k :| k in m && m[k].depth == 0 && m[k] == d;
      assert k in m' && m'[k] == d;
    }
    if c.depth == 0 {
      assert m'[v] == c;
    }
  }

  lemma SoleMember<T>(s: set<T>)
    requires |s| == 1
    ensures forall a, b :: a in s && b in s ==> a == b
  {
    var x :| x in s;
    assert |s - {x}| == 0;
    assert s - {x} == {};
  }

  /** The one element of a singleton set. */
  function Sole<T>(s: set<T>): (x: T)
    requires |s| == 1
    ensures s == {x}
  {
    SoleMember(s);
    var x :| x in s;
    x
  }

  class ModCandidateSet {
    const modId: string
    var depthZeroCandidates: set<ModCandidate>
    var candidates: map<string, ModCandidate>

    /**
     * Candidates are keyed by their version string, and the depth-zero set is
     * exactly the stored candidates of depth 0.
     */
    ghost predicate Valid()
      reads this
    {
      && (forall v :: v in candidates ==> candidates[v].info.version.text == v)
      && depthZeroCandidates == DepthZeroOf(candidates)
    }

    constructor (modId: string)
      ensures this.modId == modId
      ensures candidates == map[] && depthZeroCandidates == {}
      ensures Valid()
    {
      this.modId := modId;
      depthZeroCandidates := {};
      candidates := map[];
    }

    /**
     * Files `candidate` under its version string. An existing candidate of
     * that version is kept unless the new one was found less deeply nested,
     * in which case the new one replaces it.
     */
    method Add(candidate: ModCandidate) returns (added: bool)
      requires Valid()
      modifies this
      ensures Valid()
      ensures var v := candidate.info.version.text;
        added <==> v !in old(candidates) || candidate.depth < old(candidates)[v].depth
      ensures added ==> candidates == old(candidates)[candidate.info.version.text := candidate]
      ensures added ==>
        depthZeroCandidates == old(depthZeroCandidates) + (if candidate.depth == 0 then {candidate} else {})
      ensures !added ==> candidates == old(candidates) && depthZeroCandidates == old(depthZeroCandidates)
    {
      var version := candidate.info.version.text;
      if version in candidates {
        var oldCandidate := candidates[version];
        var oldDepth := oldCandidate.depth;
        var newDepth := candidate.depth;
        if oldDepth <= newDepth {
          return false;
        } else {
          DepthZeroRemoveDeep(candidates, version);
          candidates := candidates - {version};
          // oldDepth > newDepth >= 0, so this guard always holds and
          // oldCandidate, being deeper than 0, is not in the set anyway.
          if oldDepth > 0 {
            depthZeroCandidates := depthZeroCandidates - {oldCandidate};
          }
        }
      }
      DepthZeroInsertFresh(candidates, version, candidate);
      candidates := candidates[version := candidate];
      if candidate.depth == 0 {
        depthZeroCandidates := depthZeroCandidates + {candidate};
      }
      return true;
    }

    /** `isUserProvided`: some candidate of this mod was given at depth 0. */
    function IsUserProvided(): (r: bool)
      reads this
      requires Valid()
      ensures r <==> exists v :: v in candidates && candidates[v].depth == 0
    {
      assert forall v :: v in candidates && candidates[v].depth == 0 ==> candidates[v] in depthZeroCandidates;
      depthZeroCandidates != {}
    }

    /**
     * `toSortedSet`: the candidates the solver may choose from, as a
     * sequence in the returned collection's iteration order.
     */
    function ToSortedSet(): (r: Result<seq<ModCandidate>, SetError>)
      reads this
      requires Valid()
      ensures r.Failure? <==> |depthZeroCandidates| > 1 || candidates == map[]
      ensures |depthZeroCandidates| > 1 ==> r == Failure(DuplicateVersions(modId, depthZeroCandidates))
      ensures forall c :: depthZeroCandidates == {c} ==> r == Success([c])
      ensures r.Success? ==> r.value != [] && StrictlyNewestFirst(r.value)
      ensures r.Success? ==> forall c :: c in r.value ==> c in candidates.Values
      ensures r.Success? && depthZeroCandidates == {} ==>
        forall v :: v in candidates ==>
          candidates[v] in r.value || exists d :: d in r.value && NewestFirst(candidates[v], d) == 0
    {
      if |depthZeroCandidates| > 1 then
        Failure(DuplicateVersions(modId, depthZeroCandidates))
      else if |depthZeroCandidates| == 1 then
        var c := Sole(depthZeroCandidates);
        assert c in DepthZeroOf(candidates);
        Success([c])
      else if |candidates| > 1 then
        Success(NewestVersionSet(IterationOrder.Values(candidates)))
      else if candidates == map[] then
        Failure(NoCandidates(modId))
      else
        var vs := IterationOrder.Values(candidates);
        assert forall v :: v in candidates ==> candidates[v] == vs[0];
        Success([vs[0]])
    }
  }
}
