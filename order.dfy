/** The order `files.sort()` puts the collected paths in
    (scripts/broken-links.js:55): with no comparator, `Array.prototype.sort`
    compares the path strings character by character. */
module PathOrder {
  import opened Text
  import opened Paths

  /** `a` comes no later than `b`. */
  predicate Precedes(a: Path, b: Path) {
    LexLeq(PathString(a), PathString(b))
  }

  predicate Ordered(ps: seq<Path>) {
    forall i, j :: 0 <= i < j < |ps| ==> Precedes(ps[i], ps[j])
  }

  /** `p` placed before the first element it precedes. */
  function Insert(p: Path, ps: seq<Path>): seq<Path> {
    if ps == [] then [p]
    else if Precedes(p, ps[0]) then [p] + ps
    else [ps[0]] + Insert(p, ps[1..])
  }

  function SortPaths(ps: seq<Path>): seq<Path> {
    if ps == [] then [] else Insert(ps[0], SortPaths(ps[1..]))
  }

  lemma {:induction false} InsertPermutes(p: Path, ps: seq<Path>)
    ensures multiset(Insert(p, ps)) == multiset(ps) + multiset{p}
  {
    if ps != [] && !Precedes(p, ps[0]) {
      InsertPermutes(p, ps[1..]);
      assert ps == [ps[0]] + ps[1..];
    }
  }

  /** The first element of `[q] + rest` precedes every later one. */
  predicate Heads(q: Path, rest: seq<Path>) {
    forall j :: 0 <= j < |rest| ==> Precedes(q, rest[j])
  }

  lemma ConsOrdered(q: Path, rest: seq<Path>)
    requires Heads(q, rest) && Ordered(rest)
    ensures Ordered([q] + rest)
  {
    var s := [q] + rest;
    forall i, j | 0 <= i < j < |s| ensures Precedes(s[i], s[j]) {
      assert s[j] == rest[j - 1];
      if i > 0 { assert s[i] == rest[i - 1]; }
    }
  }

  lemma HeadsPrecede(q: Path, p: Path, ps: seq<Path>)
    requires Heads(q, ps) && Precedes(q, p)
    requires multiset(Insert(p, ps)) == multiset(ps) + multiset{p}
    ensures Heads(q, Insert(p, ps))
  {
    var r := Insert(p, ps);
    forall j | 0 <= j < |r| ensures Precedes(q, r[j]) {
      assert r[j] in multiset(r);
      if r[j] != p {
        assert r[j] in multiset(ps);
        var k :| 0 <= k < |ps| && ps[k] == r[j];
      }
    }
  }

  lemma {:induction false} InsertOrdered(p: Path, ps: seq<Path>)
    requires Ordered(ps)
    ensures Ordered(Insert(p, ps))
  {
    if ps == [] {
    } else if Precedes(p, ps[0]) {
      forall j | 0 <= j < |ps| ensures Precedes(p, ps[j]) {
        if j > 0 { LexTransitive(PathString(p), PathString(ps[0]), PathString(ps[j])); }
      }
      ConsOrdered(p, ps);
    } else {
      var rest := ps[1..];
      assert Ordered(rest) by {
        forall i, j | 0 <= i < j < |rest| ensures Precedes(rest[i], rest[j]) {
          assert rest[i] == ps[i + 1] && rest[j] == ps[j + 1];
        }
      }
      InsertOrdered(p, rest);
      LexTotal(PathString(p), PathString(ps[0]));
      assert Heads(ps[0], rest) by {
        forall j | 0 <= j < |rest| ensures Precedes(ps[0], rest[j]) { assert rest[j] == ps[j + 1]; }
      }
      InsertPermutes(p, rest);
      HeadsPrecede(ps[0], p, rest);
      ConsOrdered(ps[0], Insert(p, rest));
    }
  }

  /** The sort yields the same paths, in order. */
  lemma {:induction false} SortPathsSpec(ps: seq<Path>)
    ensures Ordered(SortPaths(ps))
    ensures multiset(SortPaths(ps)) == multiset(ps)
  {
    if ps != [] {
      SortPathsSpec(ps[1..]);
      InsertOrdered(ps[0], SortPaths(ps[1..]));
      InsertPermutes(ps[0], SortPaths(ps[1..]));
      assert ps == [ps[0]] + ps[1..];
    }
  }
}
