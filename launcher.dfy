/**
 * The two string helpers of the server launcher that turn a Maven
 * coordinate `group:artifact:version` into a library file name and into
 * the URL of the artifact in a Maven repository.
 */
module ServerLauncher {
  import opened Wrappers

  /** `String.replace(char, char)`: every `a` becomes `b`. */
  function Replace(s: string, a: char, b: char): (r: string)
    ensures |r| == |s|
    ensures forall i :: 0 <= i < |s| ==> r[i] == if s[i] == a then b else s[i]
  {
    seq(|s|, i requires 0 <= i < |s| => if s[i] == a then b else s[i])
  }

  /** `sanitizedLibName`: the coordinate with every `:` turned into `.`. */
  function SanitizedLibName(name: string): (r: string)
    ensures |r| == |name|
    ensures ':' !in r
  {
    Replace(name, ':', '.')
  }

  /** The `:`-separated fields of `s`, empty ones included; there is always at least one. */
  function Fields(s: string): (r: seq<string>)
    ensures |r| >= 1
  {
    if s == [] then [""]
    else
      var rest := Fields(s[1..]);
      if s[0] == ':' then [""] + rest else [[s[0]] + rest[0]] + rest[1..]
  }

  /** The fields joined back together with the separator `sep`. */
  function Join(parts: seq<string>, sep: char): string
  {
    if parts == [] then ""
    else if |parts| == 1 then parts[0]
    else parts[0] + [sep] + Join(parts[1..], sep)
  }

  /** The trailing empty strings removed. */
  function StripTrailingEmpty(parts: seq<string>): (r: seq<string>)
    ensures |r| <= |parts| && r == parts[..|r|]
    ensures r == [] || r[|r| - 1] != ""
    ensures forall i :: |r| <= i < |parts| ==> parts[i] == ""
  {
    if parts != [] && parts[|parts| - 1] == "" then StripTrailingEmpty(parts[..|parts| - 1]) else parts
  }

  /**
   * `String.split(":")`: a string without `:` is its own single part;
   * otherwise the fields, less the trailing empty ones.
   */
  function Split(s: string): seq<string>
  {
    if ':' !in s then [s] else StripTrailingEmpty(Fields(s))
  }

  /** Why `mkUrlFromName` yields no URL. */
  datatype UrlError = TooFewParts(parts: nat)

  /**
   * `mkUrlFromName`: the group with `.` turned into `/`, then the artifact,
   * the version and `artifact-version.jar`, appended to `root` as it is.
   */
  function MkUrlFromName(name: string, root: string): (r: Result<string, UrlError>)
    ensures r.Failure? <==> |Split(name)| < 3
  {
    var sp := Split(name);
    if |sp| < 3 then Failure(TooFewParts(|sp|))
    else
      var path := Replace(sp[0], '.', '/') + "/" + sp[1] + "/" + sp[2];
      var fname := sp[1] + "-" + sp[2] + ".jar";
      Success(root + path + "/" + fname)
  }

  // ---------------------------------------------------------------------
  // Properties

  /** The file name is the coordinate's fields joined with `.`. */
  lemma {:induction false} SanitizedIsDotJoin(name: string)
    ensures SanitizedLibName(name) == Join(Fields(name), '.')
  {
    if name != [] {
      SanitizedIsDotJoin(name[1..]);
      var rest := Fields(name[1..]);
      assert SanitizedLibName(name) == [if name[0] == ':' then '.' else name[0]] + SanitizedLibName(name[1..]);
      if name[0] != ':' && |rest| > 1 {
        assert ([name[0]] + rest[0]) + ['.'] + Join(rest[1..], '.') == [name[0]] + (rest[0] + ['.'] + Join(rest[1..], '.'));
        assert ([[name[0]] + rest[0]] + rest[1..])[1..] == rest[1..];
      }
    }
  }

  /** Joining the fields with `:` gives back the string, and no field holds a `:`. */
  lemma {:induction false} FieldsJoin(s: string)
    ensures Join(Fields(s), ':') == s
    ensures forall i :: 0 <= i < |Fields(s)| ==> ':' !in Fields(s)[i]
  {
    if s != [] {
      FieldsJoin(s[1..]);
      var rest := Fields(s[1..]);
      if s[0] != ':' {
        var r := [[s[0]] + rest[0]] + rest[1..];
        assert r[1..] == rest[1..];
        if |rest| > 1 {
          assert ([s[0]] + rest[0]) + [':'] + Join(rest[1..], ':') == [s[0]] + (rest[0] + [':'] + Join(rest[1..], ':'));
        }
        assert forall i :: 1 <= i < |r| ==> r[i] == rest[i];
      } else {
        assert ([""] + rest)[1..] == rest;
      }
    }
  }

  /** Fields are separated exactly at each `:`. */
  lemma {:induction false} FieldsAppend(x: string, y: string)
    requires ':' !in x
    ensures Fields(x + [':'] + y) == [x] + Fields(y)
  {
    if x == [] {
      assert x + [':'] + y == [':'] + y;
      assert ([':'] + y)[1..] == y;
    } else {
      assert (x + [':'] + y)[1..] == x[1..] + [':'] + y;
      FieldsAppend(x[1..], y);
      assert [x[0]] + x[1..] == x;
    }
  }

  lemma FieldsNoSeparator(x: string)
    requires ':' !in x
    ensures Fields(x) == [x]
  {
    if x != [] {
      FieldsNoSeparator(x[1..]);
      assert [x[0]] + x[1..] == x;
    }
  }

  /** Stripping never reaches past a non-empty part. */
  lemma StripKeepsPrefix(a: seq<string>, b: seq<string>)
    requires a != [] && a[|a| - 1] != ""
    ensures |StripTrailingEmpty(a + b)| >= |a|
    ensures StripTrailingEmpty(a + b)[..|a|] == a
  {
    var r := StripTrailingEmpty(a + b);
    assert (a + b)[|a| - 1] == a[|a| - 1];
    assert r[..|a|] == (a + b)[..|r|][..|a|];
  }

  /** The three fields of `g:a:v`, given a non-empty version, followed by whatever fields come next. */
  lemma SplitOfCoordinate(g: string, a: string, v: string, rest: seq<string>, name: string)
    requires ':' !in g && ':' !in a && ':' !in v && v != []
    requires Fields(name) == [g, a, v] + rest
    ensures |Split(name)| >= 3 && Split(name)[..3] == [g, a, v]
  {
    FieldsJoin(name);
    assert Fields(name)[1] == a;
    assert ':' in name by {
      if ':' !in name {
        FieldsNoSeparator(name);
      }
    }
    StripKeepsPrefix([g, a, v], rest);
  }

  lemma FieldsOfCoordinate(g: string, a: string, v: string)
    requires ':' !in g && ':' !in a && ':' !in v
    ensures Fields(g + ":" + a + ":" + v) == [g, a, v]
  {
    assert g + ":" + a + ":" + v == g + [':'] + (a + [':'] + v);
    FieldsAppend(a, v);
    FieldsNoSeparator(v);
    FieldsAppend(g, a + [':'] + v);
  }

  lemma FieldsOfLongerCoordinate(g: string, a: string, v: string, extra: string)
    requires ':' !in g && ':' !in a && ':' !in v
    ensures Fields(g + ":" + a + ":" + v + ":" + extra) == [g, a, v] + Fields(extra)
  {
    assert g + ":" + a + ":" + v + ":" + extra == g + [':'] + (a + [':'] + (v + [':'] + extra));
    FieldsAppend(v, extra);
    FieldsAppend(a, v + [':'] + extra);
    FieldsAppend(g, a + [':'] + (v + [':'] + extra));
  }

  /** `mkUrlFromName` on `group:artifact:version` gives the Maven repository layout under `root`. */
  lemma MkUrlOfCoordinate(g: string, a: string, v: string, root: string)
    requires ':' !in g && ':' !in a && ':' !in v && v != []
    ensures MkUrlFromName(g + ":" + a + ":" + v, root) ==
      Success(root + Replace(g, '.', '/') + "/" + a + "/" + v + "/" + a + "-" + v + ".jar")
  {
    var name := g + ":" + a + ":" + v;
    FieldsOfCoordinate(g, a, v);
    assert Fields(name) == [g, a, v] + [];
    SplitOfCoordinate(g, a, v, [], name);
    var sp := Split(name);
    assert sp[0] == sp[..3][0] == g && sp[1] == sp[..3][1] == a && sp[2] == sp[..3][2] == v;
    var path := Replace(sp[0], '.', '/') + "/" + sp[1] + "/" + sp[2];
    var fname := sp[1] + "-" + sp[2] + ".jar";
    assert MkUrlFromName(name, root) == Success(root + path + "/" + fname);
    assert root + path + "/" + fname == root + Replace(g, '.', '/') + "/" + a + "/" + v + "/" + a + "-" + v + ".jar";
  }

  /** The URL depends on the first three parts only. */
  lemma MkUrlFirstThreeParts(n1: string, n2: string, root: string)
    requires |Split(n1)| >= 3 && |Split(n2)| >= 3 && Split(n1)[..3] == Split(n2)[..3]
    ensures MkUrlFromName(n1, root) == MkUrlFromName(n2, root)
  {
    var s1, s2 := Split(n1), Split(n2);
    assert s1[0] == s1[..3][0] == s2[0];
    assert s1[1] == s1[..3][1] == s2[1];
    assert s1[2] == s1[..3][2] == s2[2];
  }

  /** Fields after the third do not change the URL. */
  lemma MkUrlIgnoresExtraFields(g: string, a: string, v: string, extra: string, root: string)
    requires ':' !in g && ':' !in a && ':' !in v && v != []
    ensures MkUrlFromName(g + ":" + a + ":" + v + ":" + extra, root) == MkUrlFromName(g + ":" + a + ":" + v, root)
  {
    var short := g + ":" + a + ":" + v;
    var name := g + ":" + a + ":" + v + ":" + extra;
    FieldsOfLongerCoordinate(g, a, v, extra);
    SplitOfCoordinate(g, a, v, Fields(extra), name);
    FieldsOfCoordinate(g, a, v);
    assert Fields(short) == [g, a, v] + [];
    SplitOfCoordinate(g, a, v, [], short);
    MkUrlFirstThreeParts(name, short, root);
  }

  /** An empty version is a trailing empty field, which `split` drops: no URL. */
  lemma MkUrlEmptyVersion(g: string, a: string, root: string)
    requires ':' !in g && ':' !in a
    ensures MkUrlFromName(g + ":" + a + ":", root).Failure?
  {
    var name := g + ":" + a + ":";
    assert name == g + [':'] + (a + [':'] + "");
    FieldsAppend(a, "");
    FieldsAppend(g, a + [':'] + "");
    assert Fields(name) == [g, a, ""];
    assert name[|g|] == ':';
    assert [g, a, ""][..2] == [g, a];
    assert StripTrailingEmpty([g, a, ""]) == StripTrailingEmpty([g, a]);
  }
}
