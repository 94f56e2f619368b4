/** The part of Node's POSIX `path` module the checker uses, on absolute
    paths: `normalize`, `join`, `dirname` and `relative` from the root to a
    path below it. A normalised path is kept as its list of components and
    whether it ends in a separator. */
module Paths {
  import opened Text

  /** An absolute path as its components; `[]` is `/`. */
  type Path = seq<string>

  /** A component as a directory listing reports it: non-empty, not `.` or
      `..`, and free of the separator. */
  predicate IsSegment(s: string) {
    s != "" && s != "." && s != ".." && '/' !in s
  }

  predicate WellFormed(p: Path) {
    forall k :: 0 <= k < |p| ==> IsSegment(p[k])
  }

  predicate IsAbsolute(s: string) {
    |s| > 0 && s[0] == '/'
  }

  /** What `path.normalize` makes of an absolute path: its components
      and whether a trailing separator survives. */
  datatype NormPath = NormPath(segments: Path, trailingSlash: bool)

  /** The root is written `/` whatever follows it, so its flag is false. */
  predicate Canonical(n: NormPath) {
    WellFormed(n.segments) && (n.trailingSlash ==> n.segments != [])
  }

  /** One component of the input acting on the components kept so far:
      empty and `.` components vanish, `..` drops the last kept one (and
      stays at the root), anything else is kept. */
  function Step(stack: Path, seg: string): Path {
    if seg == "" || seg == "." then stack
    else if seg == ".." then (if stack == [] then [] else stack[..|stack| - 1])
    else stack + [seg]
  }

  function Resolve(stack: Path, segs: seq<string>): Path
    decreases |segs|
  {
    if segs == [] then stack else Resolve(Step(stack, segs[0]), segs[1..])
  }

  /** The components and trailing-separator flag of `path.normalize(s)`. */
  function Parse(s: string): NormPath
    requires IsAbsolute(s)
  {
    var segs := Resolve([], SplitOn(s, '/'));
    NormPath(segs, segs != [] && EndsWith(s, "/"))
  }

  /** Normalising yields components free of empty, `.` and `..` ones, and
      the root never keeps a trailing separator. */
  lemma ParseCanonical(s: string)
    requires IsAbsolute(s)
    ensures Canonical(Parse(s))
  {
    SplitOnPieces(s, '/');
    ResolveKeepsWellFormed([], SplitOn(s, '/'));
  }

  function Render(n: NormPath): (s: string)
    ensures IsAbsolute(s)
  {
    "/" + JoinWith(n.segments, '/') + (if n.trailingSlash then "/" else "")
  }

  /** `path.normalize` on an absolute path. */
  function Normalize(s: string): (r: string)
    requires IsAbsolute(s)
    ensures IsAbsolute(r)
  {
    Render(Parse(s))
  }

  /** `path.join(dir, rel)`: an empty argument is skipped, otherwise the two
      are glued with a separator and the whole is normalised. */
  function Join(dir: string, rel: string): (r: string)
    requires IsAbsolute(dir)
    ensures IsAbsolute(r)
  {
    if rel == "" then Normalize(dir) else Normalize(dir + "/" + rel)
  }

  /** The string a walked path has: its components after `/`. */
  function PathString(p: Path): string {
    Render(NormPath(p, false))
  }

  /** `path.dirname` of a normalised path with at least one component. */
  function Dirname(p: Path): (d: Path)
    requires |p| > 0
    ensures d + [p[|p| - 1]] == p
  {
    p[..|p| - 1]
  }

  /** `path.relative(root, p)` for a path `p` below `root`. */
  function Relative(root: Path, p: Path): string
    requires |root| <= |p| && p[..|root|] == root
  {
    JoinWith(p[|root|..], '/')
  }

  // ---------------------------------------------------------------------
  // Facts about splitting

  lemma {:induction false} JoinEndsWithLast(parts: seq<string>, c: char)
    requires |parts| >= 1
    ensures EndsWith(JoinWith(parts, c), parts[|parts| - 1])
  {
    if |parts| > 1 {
      JoinEndsWithLast(parts[1..], c);
    }
  }

  // ---------------------------------------------------------------------
  // Facts about resolving components

  lemma {:induction false} ResolveConcat(stack: Path, a: seq<string>, b: seq<string>)
    ensures Resolve(stack, a + b) == Resolve(Resolve(stack, a), b)
    decreases |a|
  {
    if a == [] {
      assert a + b == b;
    } else {
      assert (a + b)[1..] == a[1..] + b;
      ResolveConcat(Step(stack, a[0]), a[1..], b);
    }
  }

  /** Components taken from a split on the separator never bring one
      into a normalised path. */
  lemma {:induction false} ResolveKeepsWellFormed(stack: Path, segs: seq<string>)
    requires WellFormed(stack)
    requires forall k :: 0 <= k < |segs| ==> '/' !in segs[k]
    ensures WellFormed(Resolve(stack, segs))
    decreases |segs|
  {
    if segs != [] {
      assert '/' !in segs[0];
      ResolveKeepsWellFormed(Step(stack, segs[0]), segs[1..]);
    }
  }

  /** Well-formed components are kept as they are. */
  lemma {:induction false} ResolveWellFormed(stack: Path, segs: Path)
    requires WellFormed(segs)
    ensures Resolve(stack, segs) == stack + segs
    decreases |segs|
  {
    if segs != [] {
      ResolveWellFormed(stack + [segs[0]], segs[1..]);
      assert stack + [segs[0]] + segs[1..] == stack + segs;
    }
  }

  /** Without a `..` component, resolution never leaves the starting
      directory. */
  lemma {:induction false} ResolveStaysBelow(stack: Path, segs: seq<string>)
    requires forall k :: 0 <= k < |segs| ==> segs[k] != ".."
    ensures |stack| <= |Resolve(stack, segs)| && Resolve(stack, segs)[..|stack|] == stack
    decreases |segs|
  {
    if segs != [] {
      ResolveStaysBelow(Step(stack, segs[0]), segs[1..]);
    }
  }

  // ---------------------------------------------------------------------
  // Normalisation

  /** Rendering a canonical path and normalising it gives the path back. */
  lemma ParseRender(n: NormPath)
    requires Canonical(n)
    ensures Parse(Render(n)) == n
  {
    if n.segments == [] {
      assert Render(n) == "/" + "";
      SplitAfterSlash("");
      assert SplitOn("", '/') == [""];
      assert Resolve([], ["", ""]) == [];
    } else {
      var segs := n.segments;
      var j := JoinWith(segs, '/');
      SplitJoin(segs, '/');
      ResolveWellFormed([], segs);
      if n.trailingSlash {
        ParseRenderTrailing(segs, j);
      } else {
        ParseRenderPlain(segs, j);
      }
    }
  }

  lemma ParseRenderPlain(segs: Path, j: string)
    requires segs != [] && WellFormed(segs) && j == JoinWith(segs, '/')
    requires SplitOn(j, '/') == segs && Resolve([], segs) == segs
    ensures Parse(Render(NormPath(segs, false))) == NormPath(segs, false)
  {
    var s := Render(NormPath(segs, false));
    assert s == "/" + j;
    SplitAfterSlash(j);
    ResolveConcat([], [""], segs);
    JoinEndsWithLast(segs, '/');
    var last := segs[|segs| - 1];
    assert s[|s| - 1] == last[|last| - 1];
  }

  lemma ParseRenderTrailing(segs: Path, j: string)
    requires segs != [] && WellFormed(segs) && j == JoinWith(segs, '/')
    requires SplitOn(j, '/') == segs && Resolve([], segs) == segs
    ensures Parse(Render(NormPath(segs, true))) == NormPath(segs, true)
  {
    var s := Render(NormPath(segs, true));
    assert s == "/" + (j + ['/'] + "");
    TrailingComponents(segs, j);
    assert EndsWith(s, "/") by { assert s[|s| - 1] == '/'; }
  }

  lemma TrailingComponents(segs: Path, j: string)
    requires SplitOn(j, '/') == segs && Resolve([], segs) == segs
    ensures Resolve([], SplitOn("/" + (j + ['/'] + ""), '/')) == segs
  {
    var t := j + ['/'] + "";
    SplitAfterSlash(t);
    SplitConcat(j, '/', "");
    assert SplitOn("", '/') == [""];
    var pieces := [""] + (segs + [""]);
    assert SplitOn("/" + t, '/') == pieces;
    ResolveConcat([], [""], segs + [""]);
    ResolveConcat([], segs, [""]);
    assert Resolve(segs, [""]) == segs;
  }

  /** `path.normalize` is idempotent, so the outer `normalize` around
      `path.join` changes nothing. */
  lemma NormalizeIdempotent(s: string)
    requires IsAbsolute(s)
    ensures Normalize(Normalize(s)) == Normalize(s)
  {
    ParseCanonical(s);
    ParseRender(Parse(s));
  }

  lemma SplitAfterSlash(y: string)
    ensures SplitOn("/" + y, '/') == [""] + SplitOn(y, '/')
  {
    SplitConcat("", '/', y);
    assert "" + ['/'] + y == "/" + y;
    assert SplitOn("", '/') == [""];
  }

  /** Two absolute strings with the same resolved components and the same
      last character normalise alike. */
  lemma ParseAlike(s1: string, s2: string)
    requires IsAbsolute(s1) && IsAbsolute(s2)
    requires Resolve([], SplitOn(s1, '/')) == Resolve([], SplitOn(s2, '/'))
    requires EndsWith(s1, "/") == EndsWith(s2, "/")
    ensures Parse(s1) == Parse(s2)
  {
  }

  /** The components of a walked directory followed by a relative part. */
  lemma SplitUnder(dir: Path, rel: string)
    requires WellFormed(dir)
    ensures Resolve([], SplitOn(PathString(dir) + "/" + rel, '/')) == Resolve(dir, SplitOn(rel, '/'))
  {
    var j := JoinWith(dir, '/');
    var s := PathString(dir) + "/" + rel;
    assert s == "/" + (j + ['/'] + rel);
    SplitAfterSlash(j + ['/'] + rel);
    SplitConcat(j, '/', rel);
    if dir == [] {
      SplitUnderRoot(s, SplitOn(rel, '/'));
    } else {
      SplitJoin(dir, '/');
      assert SplitOn(s, '/') == [""] + (dir + SplitOn(rel, '/'));
      SplitUnderDir(dir, SplitOn(rel, '/'));
    }
  }

  lemma SplitUnderRoot(s: string, r: seq<string>)
    requires SplitOn(s, '/') == [""] + (SplitOn("", '/') + r)
    ensures Resolve([], SplitOn(s, '/')) == Resolve([], r)
  {
    assert SplitOn("", '/') == [""];
    ResolveConcat([], [""], [""] + r);
    ResolveConcat([], [""], r);
  }

  lemma SplitUnderDir(dir: Path, r: seq<string>)
    requires WellFormed(dir)
    ensures Resolve([], [""] + (dir + r)) == Resolve(dir, r)
  {
    var t := dir + r;
    ResolveConcat([], [""], t);
    assert Resolve([], [""]) == [];
    ResolveConcat([], dir, r);
    ResolveWellFormed([], dir);
    assert [] + dir == dir;
  }

  /** Joining a normalised directory and a non-empty relative part: the
      components are those of the directory acted on by the components of
      the relative part, and a trailing separator of the relative part
      survives unless the result is the root. */
  lemma JoinComponents(dir: Path, rel: string)
    requires WellFormed(dir) && rel != ""
    ensures Parse(PathString(dir) + "/" + rel) ==
            var segs := Resolve(dir, SplitOn(rel, '/'));
            NormPath(segs, segs != [] && EndsWith(rel, "/"))
  {
    SplitUnder(dir, rel);
    var s := PathString(dir) + "/" + rel;
    assert s[|s| - 1] == rel[|rel| - 1];
  }

  /** `path.join(dir, name)` for a directory entry's name appends it as one
      component. */
  lemma JoinSegment(dir: Path, name: string)
    requires WellFormed(dir) && IsSegment(name)
    ensures Join(PathString(dir), name) == PathString(dir + [name])
  {
    JoinComponents(dir, name);
    SplitWithout(name, '/');
    assert Resolve(dir, [name]) == dir + [name];
    assert !EndsWith(name, "/") by { assert name[|name| - 1] != '/'; }
  }

  /** `path.join` does not treat a relative part that starts with `/` as
      absolute: the separator merges with the one `join` inserts. */
  lemma JoinLeadingSlash(dir: string, rel: string)
    requires IsAbsolute(dir) && rel != ""
    ensures Join(dir, "/" + rel) == Join(dir, rel)
  {
    var s1 := dir + "/" + ("/" + rel);
    var s2 := dir + "/" + rel;
    DoubleSlashComponents(dir, rel);
    assert s1[|s1| - 1] == rel[|rel| - 1] && s2[|s2| - 1] == rel[|rel| - 1];
    ParseAlike(s1, s2);
  }

  /** An empty component between two separators resolves to nothing. */
  lemma DoubleSlashComponents(dir: string, rel: string)
    ensures Resolve([], SplitOn(dir + "/" + ("/" + rel), '/')) == Resolve([], SplitOn(dir + "/" + rel, '/'))
  {
    var d := SplitOn(dir, '/');
    var r := SplitOn(rel, '/');
    SplitConcat(dir, '/', "/" + rel);
    SplitConcat(dir, '/', rel);
    SplitAfterSlash(rel);
    assert dir + "/" + ("/" + rel) == dir + ['/'] + ("/" + rel);
    assert dir + "/" + rel == dir + ['/'] + rel;
    ResolveConcat([], d, [""] + r);
    ResolveConcat([], d, r);
    ResolveConcat(Resolve([], d), [""], r);
  }

  /** `path.relative(root, p)` for a walked path `p` below `root` is a
      relative path: split at the separator it gives back the components
      below the root, and joining it onto the root gives `p` again. */
  lemma RelativeJoin(root: Path, p: Path)
    requires WellFormed(p) && |root| < |p| && p[..|root|] == root
    ensures SplitOn(Relative(root, p), '/') == p[|root|..]
    ensures Join(PathString(root), Relative(root, p)) == PathString(p)
  {
    var tail := p[|root|..];
    assert p == root + tail;
    WellFormedParts(root, tail);
    JoinedComponents(tail);
    JoinComponents(root, JoinWith(tail, '/'));
    ResolveWellFormed(root, tail);
  }

  lemma WellFormedParts(a: Path, b: Path)
    requires WellFormed(a + b)
    ensures WellFormed(a) && WellFormed(b)
  {
    forall k | 0 <= k < |a| ensures IsSegment(a[k]) { assert a[k] == (a + b)[k]; }
    forall k | 0 <= k < |b| ensures IsSegment(b[k]) { assert b[k] == (a + b)[|a| + k]; }
  }

  /** Proper components joined with `/` give a non-empty relative path
      without a trailing separator that splits back into them. */
  lemma JoinedComponents(segs: Path)
    requires WellFormed(segs) && segs != []
    ensures SplitOn(JoinWith(segs, '/'), '/') == segs
    ensures JoinWith(segs, '/') != "" && !EndsWith(JoinWith(segs, '/'), "/")
  {
    var j := JoinWith(segs, '/');
    SplitJoin(segs, '/');
    JoinEndsWithLast(segs, '/');
    var last := segs[|segs| - 1];
    assert j[|j| - 1] == last[|last| - 1];
  }
}
