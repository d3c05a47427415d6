/**
 * Mod metadata as the resolver sees it, and the "newest version first" set
 * that a candidate set hands to the solver.
 *
 * `SemanticVersion.compareTo` is not part of this model: a semantic version
 * carries an integer `rank`, its position in that total preorder (two
 * versions that compare equal share a rank). `ModDependency.matches` is not
 * part of this model either: it is the `Matcher` parameter of the operations
 * that need it.
 */
module Versions {

  /** A mod version: parsed as semantic (and so ordered), or kept as opaque text. */
  datatype Version = Semantic(text: string, rank: int) | Opaque(text: string)

  /** One entry of a mod's depends/recommends/breaks/conflicts list. */
  datatype Dependency = Dependency(modId: string, requirement: string)

  /** `ModDependency.matches(version)`, for every dependency at once. */
  type Matcher = (Dependency, Version) -> bool

  /** The parsed metadata of one mod (LoaderModMetadata). */
  datatype ModInfo = ModInfo(
    id: string,
    version: Version,
    depends: seq<Dependency>,
    recommends: seq<Dependency>,
    breaks: seq<Dependency>,
    conflicts: seq<Dependency>)

  /** A discovered mod: its metadata, where it came from, and how deeply it was nested. */
  datatype ModCandidate = ModCandidate(info: ModInfo, originUrl: string, depth: nat)

  /** `SemanticVersion.compareTo`: the sign of the difference of the ranks. */
  function CompareTo(a: Version, b: Version): int
    requires a.Semantic? && b.Semantic?
  {
    if a.rank < b.rank then -1 else if a.rank > b.rank then 1 else 0
  }

  /**
   * The comparator of `createNewestVersionSet`: the newer of two semantic
   * versions comes first; any pair involving a non-semantic version compares
   * equal.
   */
  function NewestFirst(a: ModCandidate, b: ModCandidate): int
  {
    var av := a.info.version;
    var bv := b.info.version;
    if av.Semantic? && bv.Semantic? then CompareTo(bv, av) else 0
  }

  /** `a` sorts before `b` under `NewestFirst`: both semantic, `a` the newer. */
  predicate Newer(a: ModCandidate, b: ModCandidate)
    ensures Newer(a, b) <==> NewestFirst(a, b) < 0
  {
    a.info.version.Semantic? && b.info.version.Semantic? && a.info.version.rank > b.info.version.rank
  }

  /** Every element strictly precedes every later one under `NewestFirst`. */
  predicate StrictlyNewestFirst(s: seq<ModCandidate>)
  {
    forall i, j :: 0 <= i < j < |s| ==> Newer(s[i], s[j])
  }

  /**
   * `TreeSet.add` on the in-order contents `s` of the tree: `x` is dropped if
   * the comparator finds an equal element, and otherwise placed before the
   * first element it precedes. The red-black tree compares with its root
   * first, so an opaque `x` meets an "equal" element at once, which is what
   * the comparison with `s[0]` below does too.
   */
  function TreeInsert(s: seq<ModCandidate>, x: ModCandidate): (r: seq<ModCandidate>)
    requires StrictlyNewestFirst(s)
    ensures StrictlyNewestFirst(r)
    ensures forall c :: c in s ==> c in r
    ensures forall c :: c in r ==> c in s || c == x
    ensures x in r || exists y :: y in s && NewestFirst(x, y) == 0
  {
    if s == [] then [x]
    else
      var c := NewestFirst(x, s[0]);
      if c < 0 then [x] + s
      else if c == 0 then s
      else
        var t := TreeInsert(s[1..], x);
        HeadStaysFirst(s, x, t);
        [s[0]] + t
  }

  lemma HeadStaysFirst(s: seq<ModCandidate>, x: ModCandidate, t: seq<ModCandidate>)
    requires s != [] && StrictlyNewestFirst(s) && Newer(s[0], x)
    requires StrictlyNewestFirst(t)
    requires forall c :: c in t ==> c in s[1..] || c == x
    ensures StrictlyNewestFirst([s[0]] + t)
  {
    forall k | 0 <= k < |t|
      ensures Newer(s[0], t[k])
    {
      assert t[k] in t;
      if t[k] != x {
        var j :| 0 <= j < |s[1..]| && s[1..][j] == t[k];
        assert s[j + 1] == t[k];
      }
    }
    var r := [s[0]] + t;
    forall i, j | 0 <= i < j < |r|
      ensures Newer(r[i], r[j])
    {
      if i > 0 {
        assert r[i] == t[i - 1] && r[j] == t[j - 1];
      }
    }
  }

  /**
   * `createNewestVersionSet()` followed by `addAll(xs)`: the elements of `xs`
   * inserted one after another, as a sequence in the set's iteration order.
   */
  function NewestVersionSet(xs: seq<ModCandidate>): (r: seq<ModCandidate>)
    ensures StrictlyNewestFirst(r)
    ensures forall c :: c in r ==> c in xs
    ensures xs != [] ==> xs[0] in r
    ensures forall x :: x in xs ==> x in r || exists y :: y in r && NewestFirst(x, y) == 0
  {
    if xs == [] then []
    else TreeInsert(NewestVersionSet(xs[..|xs| - 1]), xs[|xs| - 1])
  }

  /** When the first candidate inserted has an opaque version, nothing else gets in. */
  lemma {:induction false} OpaqueFirstBlocksAll(xs: seq<ModCandidate>)
    requires xs != [] && xs[0].info.version.Opaque?
    ensures NewestVersionSet(xs) == [xs[0]]
  {
    if |xs| > 1 {
      OpaqueFirstBlocksAll(xs[..|xs| - 1]);
      assert xs[..|xs| - 1][0] == xs[0];
    }
  }

  /**
   * When the first candidate inserted is semantic, the set holds semantic
   * versions only: every opaque version after it is dropped.
   */
  lemma {:induction false} SemanticFirstKeepsOnlySemantic(xs: seq<ModCandidate>)
    requires xs != [] && xs[0].info.version.Semantic?
    ensures forall c :: c in NewestVersionSet(xs) ==> c.info.version.Semantic?
  {
    if |xs| > 1 {
      var init := xs[..|xs| - 1];
      assert init[0] == xs[0];
      SemanticFirstKeepsOnlySemantic(init);
      var s := NewestVersionSet(init);
      var x := xs[|xs| - 1];
      assert xs[0] in s;
      if x.info.version.Opaque? {
        TreeInsertOpaque(s, x);
      }
    }
  }

  lemma TreeInsertOpaque(s: seq<ModCandidate>, x: ModCandidate)
    requires StrictlyNewestFirst(s) && s != [] && x.info.version.Opaque?
    ensures TreeInsert(s, x) == s
  {
  }

  /**
   * With a consistent comparator (semantic versions of pairwise different
   * rank) the set is a plain sort: a permutation of the input.
   */
  lemma {:induction false} DistinctRanksArePermuted(xs: seq<ModCandidate>)
    requires forall c :: c in xs ==> c.info.version.Semantic?
    requires forall i, j :: 0 <= i < j < |xs| ==> xs[i].info.version.rank != xs[j].info.version.rank
    ensures multiset(NewestVersionSet(xs)) == multiset(xs)
  {
    if xs != [] {
      var n := |xs| - 1;
      var init, x := xs[..n], xs[n];
      assert xs == init + [x];
      assert forall i :: 0 <= i < n ==> init[i] == xs[i];
      DistinctRanksArePermuted(init);
      var s := NewestVersionSet(init);
      forall y | y in s
        ensures NewestFirst(x, y) != 0
      {
        assert y in init;
        var j :| 0 <= j < n && init[j] == y;
        assert xs[j].info.version.rank != xs[n].info.version.rank;
      }
      TreeInsertFresh(s, x);
      calc {
        multiset(NewestVersionSet(xs));
        multiset(TreeInsert(s, x));
        multiset(s) + multiset{x};
        multiset(init) + multiset{x};
        multiset(xs);
      }
    }
  }

  lemma {:induction false} TreeInsertFresh(s: seq<ModCandidate>, x: ModCandidate)
    requires StrictlyNewestFirst(s)
    requires forall y :: y in s ==> NewestFirst(x, y) != 0
    ensures multiset(TreeInsert(s, x)) == multiset(s) + multiset{x}
  {
    if s != [] && NewestFirst(x, s[0]) > 0 {
      TreeInsertFresh(s[1..], x);
      assert s == [s[0]] + s[1..];
    }
  }
}
