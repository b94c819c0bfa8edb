/**
 * Slash-separated import paths and the absolute file paths built from them,
 * as filepath.Join and filepath.Dir produce them on a system whose separator
 * is '/'. A file path is the sequence of its segments below the filesystem
 * root; the empty sequence is the root "/" itself.
 */
module Paths {

  type Path = seq<string>

  /** The segments of `s` between its '/' separators (strings.Split(s, "/")). */
  function Split(s: string): (segs: seq<string>)
    ensures |segs| >= 1
    ensures forall k :: 0 <= k < |segs| ==> '/' !in segs[k]
    decreases |s|
  {
    if s == [] then [""]
    else
      var rest := Split(s[1..]);
      if s[0] == '/' then [""] + rest
      else [[s[0]] + rest[0]] + rest[1..]
  }

  /** The inverse of Split: the segments separated by '/'. */
  function Join(segs: seq<string>): string
    requires |segs| >= 1
  {
    if |segs| == 1 then segs[0] else segs[0] + "/" + Join(segs[1..])
  }

  lemma {:induction false} JoinSplit(s: string)
    ensures Join(Split(s)) == s
    decreases |s|
  {
    if s != [] {
      var rest := Split(s[1..]);
      JoinSplit(s[1..]);
      if s[0] == '/' {
        assert Split(s) == [""] + rest;
        assert (["" ] + rest)[1..] == rest;
      } else {
        var segs := [[s[0]] + rest[0]] + rest[1..];
        assert Split(s) == segs;
        if |rest| == 1 {
          assert Join(segs) == [s[0]] + rest[0];
        } else {
          assert segs[1..] == rest[1..];
          assert Join(rest) == rest[0] + "/" + Join(rest[1..]);
          assert Join(segs) == [s[0]] + (rest[0] + "/" + Join(rest[1..]));
        }
        assert s == [s[0]] + s[1..];
      }
    }
  }

  lemma {:induction false} SplitJoin(segs: seq<string>)
    requires |segs| >= 1
    requires forall k :: 0 <= k < |segs| ==> '/' !in segs[k]
    ensures Split(Join(segs)) == segs
    decreases |segs|, |segs[0]|
  {
    var s := Join(segs);
    if segs[0] == [] {
      if |segs| > 1 {
        SplitJoin(segs[1..]);
        assert s == "/" + Join(segs[1..]);
        assert s[1..] == Join(segs[1..]);
      }
    } else {
      var c := segs[0][0];
      var tail := [segs[0][1..]] + segs[1..];
      SplitJoin(tail);
      assert segs[0] == [c] + segs[0][1..];
      if |segs| == 1 {
        assert s == [c] + Join(tail);
      } else {
        assert tail[1..] == segs[1..];
        assert s == [c] + Join(tail);
      }
      assert s[1..] == Join(tail);
      assert segs == [[c] + tail[0]] + tail[1..];
    }
  }

  /** A segment that path cleaning keeps as it is. */
  predicate Plain(seg: string) {
    seg != "" && seg != "." && seg != ".."
  }

  /** A path in the form filepath.Clean produces: no empty, "." or ".." segment. */
  predicate IsClean(p: Path) {
    forall k :: 0 <= k < |p| ==> Plain(p[k])
  }

  /** filepath.Dir of a clean absolute path; the root is its own parent. */
  function Parent(p: Path): (q: Path)
    ensures IsClean(p) ==> IsClean(q)
    ensures p != [] ==> p == q + [p[|p| - 1]]
  {
    if p == [] then [] else p[..|p| - 1]
  }

  /** One segment of lexical cleaning: "" and "." stay put, ".." climbs, and the root has no parent. */
  function Enter(dir: Path, seg: string): Path {
    if seg == "" || seg == "." then dir
    else if seg == ".." then Parent(dir)
    else dir + [seg]
  }

  /** Walk `segs` from the clean directory `dir`. */
  function Resolve(dir: Path, segs: seq<string>): (p: Path)
    ensures IsClean(dir) ==> IsClean(p)
    decreases |segs|
  {
    if segs == [] then dir else Resolve(Enter(dir, segs[0]), segs[1..])
  }

  /** filepath.Clean of an absolute path given by its segments. */
  function Clean(segs: seq<string>): (p: Path)
    ensures IsClean(p)
  {
    Resolve([], segs)
  }

  /** Walking plain segments only appends them. */
  lemma {:induction false} ResolvePlain(dir: Path, segs: seq<string>)
    requires IsClean(segs)
    ensures Resolve(dir, segs) == dir + segs
    decreases |segs|
  {
    if segs != [] {
      ResolvePlain(dir + [segs[0]], segs[1..]);
      assert dir + [segs[0]] + segs[1..] == dir + segs;
    }
  }

  /** Walking a concatenation is walking its parts in turn. */
  lemma {:induction false} ResolveAppend(dir: Path, a: seq<string>, b: seq<string>)
    ensures Resolve(dir, a + b) == Resolve(Resolve(dir, a), b)
    decreases |a|
  {
    if a != [] {
      assert (a + b)[0] == a[0];
      assert (a + b)[1..] == a[1..] + b;
      ResolveAppend(Enter(dir, a[0]), a[1..], b);
    } else {
      assert a + b == b;
    }
  }

  /** Cleaning leaves a clean path unchanged. */
  lemma CleanOfClean(p: Path)
    requires IsClean(p)
    ensures Clean(p) == p
  {
    ResolvePlain([], p);
  }

  /**
   * An import path with no empty, "." or ".." segment between its '/'
   * separators, which filepath.Join keeps verbatim.
   */
  predicate WellFormedImportPath(importPath: string) {
    IsClean(Split(importPath))
  }

  /** filepath.Join(wd, ".gopath", "src"): the root of the tree the dependencies go to. */
  function VendorRoot(wd: string): (p: Path)
    ensures p == Clean(Split(wd)) + [".gopath", "src"]
  {
    var base := Split(wd);
    ResolveAppend([], base, [".gopath", "src"]);
    ResolvePlain(Clean(base), [".gopath", "src"]);
    Clean(base + [".gopath", "src"])
  }

  /**
   * filepath.Join(vendorRoot, filepath.FromSlash(importPath)); FromSlash
   * changes nothing where the separator is '/'.
   */
  function Destination(wd: string, importPath: string): (dest: Path)
    ensures IsClean(dest)
  {
    Clean(VendorRoot(wd) + Split(importPath))
  }

  /** A well-formed import path lands, segment by segment, under the vendor root. */
  lemma DestinationLayout(wd: string, importPath: string)
    requires WellFormedImportPath(importPath)
    ensures Destination(wd, importPath) == Clean(Split(wd)) + [".gopath", "src"] + Split(importPath)
  {
    var root := VendorRoot(wd);
    ResolveAppend([], root, Split(importPath));
    CleanOfClean(root);
    ResolvePlain(root, Split(importPath));
  }

  /** Import path `a` is `b` or one of the packages above it: its segments begin `b`'s. */
  predicate SegmentPrefix(a: string, b: string) {
    Split(a) <= Split(b)
  }

  /**
   * One well-formed import path's destination is, or lies above, another's
   * exactly when the first import path is a segment prefix of the second.
   */
  lemma DestinationNesting(wd: string, a: string, b: string)
    requires WellFormedImportPath(a) && WellFormedImportPath(b)
    ensures Destination(wd, a) <= Destination(wd, b) <==> SegmentPrefix(a, b)
  {
    DestinationLayout(wd, a);
    DestinationLayout(wd, b);
    var root := Clean(Split(wd)) + [".gopath", "src"];
    var da, db := root + Split(a), root + Split(b);
    assert da[|root|..] == Split(a) && db[|root|..] == Split(b);
    if da <= db {
      assert Split(a) == db[|root|..|da|];
    }
    if SegmentPrefix(a, b) {
      assert db[..|da|] == root + Split(b)[..|Split(a)|];
    }
  }

  /** Different well-formed import paths never share a destination. */
  lemma DestinationInjective(wd: string, a: string, b: string)
    requires WellFormedImportPath(a) && WellFormedImportPath(b)
    requires Destination(wd, a) == Destination(wd, b)
    ensures a == b
  {
    DestinationLayout(wd, a);
    DestinationLayout(wd, b);
    var root := Clean(Split(wd)) + [".gopath", "src"];
    assert (root + Split(a))[|root|..] == Split(a);
    assert (root + Split(b))[|root|..] == Split(b);
    JoinSplit(a);
    JoinSplit(b);
  }
}
