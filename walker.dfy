/** `walk`: the recursive descent that collects the Markdown files below
    the root, skipping the ignored names at any depth. A directory
    listing is an abstract value: the entries `fs.readdirSync` reports,
    each a directory with its own entries, a regular file, or something
    else (a symbolic link, a socket, ...). */
module Walker {
  import opened Text
  import opened Paths
  import opened PathOrder

  datatype Entry = Dir(name: string, children: seq<Entry>) | File(name: string) | Other(name: string)

  /** The names skipped wherever they occur (scripts/broken-links.js:6). */
  predicate Ignored(name: string) {
    name == ".git" || name == "_site" || name == "node_modules"
  }

  predicate IsMarkdownName(name: string) {
    EndsWith(name, ".md")
  }

  /** A listing as a real filesystem gives it: every name is a single
      component. */
  predicate WellNamed(entries: seq<Entry>)
    decreases entries
  {
    forall i :: 0 <= i < |entries| ==>
      IsSegment(entries[i].name)
      && (entries[i].Dir? ==> WellNamed(entries[i].children))
  }

  /** The paths `walk(dir, acc)` appends to `acc`, in order, when `dir`
      lists `entries`. */
  function Collected(dir: Path, entries: seq<Entry>): seq<Path>
    decreases entries
  {
    if entries == [] then []
    else Collected(dir, entries[..|entries| - 1]) + EntryCollected(dir, entries[|entries| - 1])
  }

  /** The paths one entry of the listing of `dir` contributes. */
  function EntryCollected(dir: Path, e: Entry): seq<Path>
    decreases e
  {
    if Ignored(e.name) then []
    else match e
      case Dir(n, children) => Collected(dir + [n], children)
      case File(n) => if IsMarkdownName(n) then [dir + [n]] else []
      case Other(_) => []
  }

  /** The accumulator array `walk` pushes into. */
  class FileList {
    var paths: seq<Path>

    constructor ()
      ensures paths == []
    {
      paths := [];
    }

    method Push(p: Path)
      modifies this
      ensures paths == old(paths) + [p]
    {
      paths := paths + [p];
    }

    /** `files.sort()` (scripts/broken-links.js:55): the same paths, in
        order. */
    method Sort()
      modifies this
      ensures paths == SortPaths(old(paths))
      ensures Ordered(paths) && multiset(paths) == multiset(old(paths))
    {
      SortPathsSpec(paths);
      paths := SortPaths(paths);
    }
  }

  /** `walk(dir, acc)` (scripts/broken-links.js:9-20), with `entries` the
      listing of `dir`. */
  method Walk(dir: Path, entries: seq<Entry>, acc: FileList)
    modifies acc
    ensures acc.paths == old(acc.paths) + Collected(dir, entries)
    decreases entries
  {
    for i := 0 to |entries|
      invariant acc.paths == old(acc.paths) + Collected(dir, entries[..i])
    {
      var entry := entries[i];
      assert entries[..i + 1][..i] == entries[..i];
      if Ignored(entry.name) {
        continue;
      }
      var full := dir + [entry.name];
      match entry {
        case Dir(_, children) =>
          Walk(full, children, acc);
        case File(name) =>
          if IsMarkdownName(name) {
            acc.Push(full);
          }
        case Other(_) =>
      }
    }
    assert entries[..|entries|] == entries;
  }

  // ---------------------------------------------------------------------
  // An independent description of what is collected

  /** `rel` leads from a listing, through directories that are not
      ignored, to a Markdown regular file. */
  predicate Reaches(entries: seq<Entry>, rel: seq<string>)
    decreases |rel|, 1
  {
    exists i :: 0 <= i < |entries| && Leads(entries[i], rel)
  }

  predicate Leads(e: Entry, rel: seq<string>)
    decreases |rel|, 0
  {
    |rel| >= 1 && rel[0] == e.name && !Ignored(e.name) &&
    match e
    case Dir(_, children) => |rel| >= 2 && Reaches(children, rel[1..])
    case File(n) => |rel| == 1 && IsMarkdownName(n)
    case Other(_) => false
  }

  predicate Below(dir: Path, p: Path) {
    |dir| < |p| && p[..|dir|] == dir
  }

  /** A path is collected exactly when it lies below `dir` and the rest of
      it leads to a Markdown file. */
  lemma {:induction false} CollectedIff(dir: Path, entries: seq<Entry>, p: Path)
    ensures p in Collected(dir, entries) <==> Below(dir, p) && Reaches(entries, p[|dir|..])
    decreases entries
  {
    if entries != [] {
      var n := |entries| - 1;
      CollectedIff(dir, entries[..n], p);
      EntryIff(dir, entries[n], p);
      if |dir| <= |p| {
        ReachesLast(entries, p[|dir|..]);
      }
    }
  }

  lemma {:induction false} EntryIff(dir: Path, e: Entry, p: Path)
    ensures p in EntryCollected(dir, e) <==> Below(dir, p) && Leads(e, p[|dir|..])
    decreases e
  {
    var q := dir + [e.name];
    if !Ignored(e.name) {
      match e {
        case Dir(_, children) =>
          CollectedIff(q, children, p);
          BelowStep(dir, e.name, p);
        case File(_) =>
          if p == q {
            assert q[..|dir|] == dir && q[|dir|..] == [e.name];
          } else if Below(dir, p) && |p| == |dir| + 1 {
            assert p == p[..|dir|] + p[|dir|..];
          }
        case Other(_) =>
      }
    }
  }

  /** Below `dir + [name]` means below `dir` with `name` next. */
  lemma BelowStep(dir: Path, name: string, p: Path)
    ensures Below(dir + [name], p) <==> Below(dir, p) && |p| >= |dir| + 2 && p[|dir|] == name
    ensures Below(dir, p) ==> p[|dir|..][0] == p[|dir|] && p[|dir| + 1..] == p[|dir|..][1..]
  {
    var q := dir + [name];
    if Below(dir, p) && |p| >= |dir| + 2 && p[|dir|] == name {
      assert p[..|q|] == p[..|dir|] + [p[|dir|]];
    }
    if Below(q, p) {
      assert p[..|q|][..|dir|] == p[..|dir|];
      assert p[..|q|][|dir|] == name;
    }
  }

  lemma ReachesLast(entries: seq<Entry>, rel: seq<string>)
    requires entries != []
    ensures Reaches(entries, rel) <==>
            Reaches(entries[..|entries| - 1], rel) || Leads(entries[|entries| - 1], rel)
  {
    var init := entries[..|entries| - 1];
    if Reaches(entries, rel) {
      var i :| 0 <= i < |entries| && Leads(entries[i], rel);
      if i < |init| { assert init[i] == entries[i]; }
    }
    if Reaches(init, rel) {
      var i :| 0 <= i < |init| && Leads(init[i], rel);
      assert entries[i] == init[i];
    }
  }

  /** Every path `Reaches` describes names a Markdown file, and none of its
      components is an ignored name. */
  lemma {:induction false} ReachesShape(entries: seq<Entry>, rel: seq<string>)
    requires Reaches(entries, rel)
    ensures |rel| >= 1 && IsMarkdownName(rel[|rel| - 1])
    ensures forall k :: 0 <= k < |rel| ==> !Ignored(rel[k])
    decreases |rel|
  {
    var i :| 0 <= i < |entries| && Leads(entries[i], rel);
    var e := entries[i];
    if e.Dir? {
      ReachesShape(e.children, rel[1..]);
      assert forall k :: 1 <= k < |rel| ==> rel[k] == rel[1..][k - 1];
    }
  }

  /** What the walk collects below `root`: Markdown files, none of them
      inside or named by an ignored entry, and each strictly below the
      root. */
  lemma CollectedShape(root: Path, entries: seq<Entry>, p: Path)
    requires p in Collected(root, entries)
    ensures Below(root, p) && IsMarkdownName(p[|p| - 1])
    ensures forall k :: |root| <= k < |p| ==> !Ignored(p[k])
  {
    CollectedIff(root, entries, p);
    ReachesShape(entries, p[|root|..]);
    SuffixShape(root, p);
  }

  lemma SuffixShape(root: Path, p: Path)
    requires Below(root, p)
    requires IsMarkdownName(p[|root|..][|p[|root|..]| - 1])
    requires forall k :: 0 <= k < |p[|root|..]| ==> !Ignored(p[|root|..][k])
    ensures IsMarkdownName(p[|p| - 1])
    ensures forall k :: |root| <= k < |p| ==> !Ignored(p[k])
  {
    var rel := p[|root|..];
    assert p[|p| - 1] == rel[|rel| - 1];
    forall k | |root| <= k < |p| ensures !Ignored(p[k]) {
      assert p[k] == rel[k - |root|];
    }
  }

  /** Walking a real listing from a normalised root yields normalised
      paths. */
  lemma {:induction false} CollectedWellFormed(dir: Path, entries: seq<Entry>, p: Path)
    requires WellFormed(dir) && WellNamed(entries)
    requires p in Collected(dir, entries)
    ensures WellFormed(p)
    decreases entries
  {
    var n := |entries| - 1;
    var e := entries[n];
    if p in Collected(dir, entries[..n]) {
      assert WellNamed(entries[..n]) by {
        forall i | 0 <= i < n ensures entries[..n][i] == entries[i] { }
      }
      CollectedWellFormed(dir, entries[..n], p);
    } else if e.Dir? {
      CollectedWellFormed(dir + [e.name], e.children, p);
    }
  }
}
