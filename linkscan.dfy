/** The link pattern `/\[([^\]]+)\]\(([^)]+)\)/g` and the global regular
    expression object that `exec` drives through its `lastIndex`
    (scripts/broken-links.js:7, 34). */
module LinkScan {

  datatype Option<T> = None | Some(value: T)

  /** One successful `exec`: where the match starts (`m.index`), its two
      groups (`m[1]`, `m[2]`) and the index just past it. */
  datatype Match = Match(index: nat, rawLabel: string, rawTarget: string, after: nat)

  /** The first position at or after `from` holding `c`, or `|s|`. */
  function Find(s: string, c: char, from: nat): (i: nat)
    requires from <= |s|
    ensures from <= i <= |s|
    ensures i < |s| ==> s[i] == c
    decreases |s| - from
  {
    if from == |s| || s[from] == c then from else Find(s, c, from + 1)
  }

  /** No `c` lies between `from` and what `Find` returns. */
  lemma {:induction false} FindSpec(s: string, c: char, from: nat)
    requires from <= |s|
    ensures forall k :: from <= k < Find(s, c, from) ==> s[k] != c
    decreases |s| - from
  {
    if from < |s| && s[from] != c { FindSpec(s, c, from + 1); }
  }

  /** The pattern tried at exactly position `i`. The group `[^\]]+` can
      only stop at the first `]`, and `[^)]+` only at the first `)`, so
      backtracking never finds a second way to match. */
  function MatchAt(s: string, i: nat): (r: Option<Match>)
    ensures r.Some? ==> r.value.index == i && i < r.value.after <= |s|
  {
    if i < |s| && s[i] == '[' then
      var j := Find(s, ']', i + 1);
      if j > i + 1 && j + 1 < |s| && s[j + 1] == '(' then
        var k := Find(s, ')', j + 2);
        if k > j + 2 && k < |s| then Some(Match(i, s[i + 1..j], s[j + 2..k], k + 1))
        else None
      else None
    else None
  }

  /** `s[m.index..m.after]` is `[label](target)` with a non-empty label free
      of `]` and a non-empty target free of `)`. */
  predicate IsLinkAt(s: string, m: Match) {
    m.index <= m.after <= |s|
    && s[m.index..m.after] == "[" + m.rawLabel + "](" + m.rawTarget + ")"
    && m.rawLabel != [] && ']' !in m.rawLabel
    && m.rawTarget != [] && ')' !in m.rawTarget
  }

  /** The text from `i` on begins with `[l](r)`, read character by
      character. */
  predicate LaidOut(s: string, i: nat, l: string, r: string) {
    i + |l| + |r| + 4 <= |s|
    && s[i] == '[' && s[i + 1..i + 1 + |l|] == l && s[i + 1 + |l|] == ']'
    && s[i + 2 + |l|] == '(' && s[i + 3 + |l|..i + 3 + |l| + |r|] == r
    && s[i + 3 + |l| + |r|] == ')'
  }

  lemma LaidOutIff(s: string, i: nat, l: string, r: string)
    requires i + |l| + |r| + 4 <= |s|
    ensures LaidOut(s, i, l, r) <==> s[i..i + |l| + |r| + 4] == "[" + l + "](" + r + ")"
  {
    var t := s[i..i + |l| + |r| + 4];
    var u := "[" + l + "](" + r + ")";
    assert |u| == |t|;
    if LaidOut(s, i, l, r) {
      forall x | 0 <= x < |t| ensures t[x] == u[x] {
        if 1 <= x < 1 + |l| {
          assert t[x] == s[i + 1..i + 1 + |l|][x - 1];
        } else if 3 + |l| <= x < 3 + |l| + |r| {
          assert t[x] == s[i + 3 + |l|..i + 3 + |l| + |r|][x - 3 - |l|];
        }
      }
    }
    if t == u {
      assert s[i] == t[0] && s[i + 1 + |l|] == t[1 + |l|] && s[i + 2 + |l|] == t[2 + |l|];
      assert s[i + 3 + |l| + |r|] == t[|t| - 1];
      assert s[i + 1..i + 1 + |l|] == l by {
        forall x | 0 <= x < |l| ensures s[i + 1..i + 1 + |l|][x] == l[x] {
          assert s[i + 1 + x] == t[1 + x] == u[1 + x];
        }
      }
      assert s[i + 3 + |l|..i + 3 + |l| + |r|] == r by {
        forall x | 0 <= x < |r| ensures s[i + 3 + |l|..i + 3 + |l| + |r|][x] == r[x] {
          assert s[i + 3 + |l| + x] == t[3 + |l| + x] == u[3 + |l| + x];
        }
      }
    }
  }

  /** The pattern matches at `i` exactly when the text there has the
      link's shape, and then the groups are the label and the target. */
  lemma MatchAtIff(s: string, m: Match)
    ensures MatchAt(s, m.index) == Some(m) <==> IsLinkAt(s, m)
  {
    if MatchAt(s, m.index) == Some(m) { MatchIsLink(s, m); }
    if IsLinkAt(s, m) { LinkIsMatch(s, m); }
  }

  lemma MatchIsLink(s: string, m: Match)
    requires MatchAt(s, m.index) == Some(m)
    ensures IsLinkAt(s, m)
  {
    var i := m.index;
    var j := Find(s, ']', i + 1);
    var k := Find(s, ')', j + 2);
    assert m == Match(i, s[i + 1..j], s[j + 2..k], k + 1);
    FindSpec(s, ']', i + 1);
    FindSpec(s, ')', j + 2);
    FoundIsLink(s, i, j, k);
  }

  /** Brackets at `i`, `j`, `j + 1` and `k` with no `]` and no `)` in
      between delimit a link. */
  lemma FoundIsLink(s: string, i: nat, j: nat, k: nat)
    requires i + 1 < j && j + 2 < k < |s|
    requires s[i] == '[' && s[j] == ']' && s[j + 1] == '(' && s[k] == ')'
    requires forall x :: i + 1 <= x < j ==> s[x] != ']'
    requires forall x :: j + 2 <= x < k ==> s[x] != ')'
    ensures IsLinkAt(s, Match(i, s[i + 1..j], s[j + 2..k], k + 1))
  {
    var l, r := s[i + 1..j], s[j + 2..k];
    assert LaidOut(s, i, l, r);
    LaidOutIff(s, i, l, r);
    NoneInRun(s, ']', i + 1, j);
    NoneInRun(s, ')', j + 2, k);
  }

  lemma NoneInRun(s: string, c: char, a: nat, b: nat)
    requires a <= b <= |s|
    requires forall x :: a <= x < b ==> s[x] != c
    ensures c !in s[a..b]
  {
    assert forall x :: 0 <= x < b - a ==> s[a..b][x] == s[a + x];
  }

  lemma {:induction false} FindIs(s: string, c: char, from: nat, j: nat)
    requires from <= j < |s| && s[j] == c
    requires forall x :: from <= x < j ==> s[x] != c
    ensures Find(s, c, from) == j
    decreases j - from
  {
    if from < j { FindIs(s, c, from + 1, j); }
  }

  /** A run of `s` equal to a string without `c` holds no `c`. */
  lemma RunWithout(s: string, a: nat, b: nat, t: string, c: char)
    requires a <= b <= |s| && s[a..b] == t && c !in t
    ensures forall x :: a <= x < b ==> s[x] != c
  {
    forall x | a <= x < b ensures s[x] != c {
      assert s[x] == t[x - a];
    }
  }

  lemma LinkIsMatch(s: string, m: Match)
    requires IsLinkAt(s, m)
    ensures MatchAt(s, m.index) == Some(m)
  {
    LinkLaidOut(s, m);
    LaidOutMatches(s, m);
  }

  lemma LaidOutMatches(s: string, m: Match)
    requires LaidOut(s, m.index, m.rawLabel, m.rawTarget)
    requires m.after == m.index + |m.rawLabel| + |m.rawTarget| + 4
    requires m.rawLabel != [] && ']' !in m.rawLabel && m.rawTarget != [] && ')' !in m.rawTarget
    ensures MatchAt(s, m.index) == Some(m)
  {
    var i, l, r := m.index, m.rawLabel, m.rawTarget;
    var j := i + 1 + |l|;
    var k := j + 2 + |r|;
    LinkFound(s, i, l, r);
    MatchAtFound(s, i, j, k);
  }

  lemma LinkLaidOut(s: string, m: Match)
    requires IsLinkAt(s, m)
    ensures m.after == m.index + |m.rawLabel| + |m.rawTarget| + 4
    ensures LaidOut(s, m.index, m.rawLabel, m.rawTarget)
  {
    var l, r := m.rawLabel, m.rawTarget;
    assert |s[m.index..m.after]| == |"[" + l + "](" + r + ")"|;
    LaidOutIff(s, m.index, l, r);
  }

  /** Where the two `Find`s of the pattern stop on a link. */
  lemma LinkFound(s: string, i: nat, l: string, r: string)
    requires LaidOut(s, i, l, r) && l != [] && r != [] && ']' !in l && ')' !in r
    ensures var j := i + 1 + |l|;
            var k := j + 2 + |r|;
            Find(s, ']', i + 1) == j && Find(s, ')', j + 2) == k
            && l == s[i + 1..j] && r == s[j + 2..k]
  {
    var j := i + 1 + |l|;
    var k := j + 2 + |r|;
    RunWithout(s, i + 1, j, l, ']');
    RunWithout(s, j + 2, k, r, ')');
    FindIs(s, ']', i + 1, j);
    FindIs(s, ')', j + 2, k);
  }

  lemma MatchAtFound(s: string, i: nat, j: nat, k: nat)
    requires i + 1 < j && j + 2 < k < |s|
    requires s[i] == '[' && s[j + 1] == '('
    requires Find(s, ']', i + 1) == j && Find(s, ')', j + 2) == k
    ensures MatchAt(s, i) == Some(Match(i, s[i + 1..j], s[j + 2..k], k + 1))
  {
  }

  /** The leftmost match starting at or after `p`, as one `exec` finds it
      when `lastIndex` is `p`. */
  function FindFrom(s: string, p: nat): (r: Option<Match>)
    ensures r.Some? ==> p <= r.value.index && MatchAt(s, r.value.index) == r
    decreases |s| + 1 - p
  {
    if p > |s| then None
    else if MatchAt(s, p).Some? then MatchAt(s, p)
    else FindFrom(s, p + 1)
  }

  /** `FindFrom` skips no place where the pattern matches: nothing
      matches between `p` and the match it returns, nor anywhere from `p`
      on when it returns none. */
  lemma {:induction false} FindFromLeftmost(s: string, p: nat, q: nat)
    requires p <= q
    requires FindFrom(s, p).None? || q < FindFrom(s, p).value.index
    ensures MatchAt(s, q).None?
    decreases q - p
  {
    if p < q && p <= |s| {
      assert MatchAt(s, p).None?;
      assert FindFrom(s, p) == FindFrom(s, p + 1);
      FindFromLeftmost(s, p + 1, q);
    }
  }

  /** Every match the `while (exec)` loop sees on `s` once `lastIndex` is
      `p`: each `exec` resumes where the previous match ended. */
  function Scan(s: string, p: nat): seq<Match>
    decreases |s| + 1 - p
  {
    match FindFrom(s, p)
    case None => []
    case Some(m) => [m] + Scan(s, m.after)
  }

  /** The matches of one line, scanned from its start. */
  function Links(line: string): seq<Match> {
    Scan(line, 0)
  }

  lemma ScanCons(s: string, p: nat, m: Match)
    requires FindFrom(s, p) == Some(m)
    ensures Scan(s, p) == [m] + Scan(s, m.after)
  {
  }

  /** Each match the scan reports has the link's shape and lies at or
      after where the scan started. */
  lemma {:induction false} ScanLinks(s: string, p: nat)
    ensures forall k :: 0 <= k < |Scan(s, p)| ==> IsLinkAt(s, Scan(s, p)[k]) && p <= Scan(s, p)[k].index
    decreases |s| + 1 - p
  {
    if FindFrom(s, p).Some? {
      var m := FindFrom(s, p).value;
      ScanCons(s, p, m);
      ScanLinks(s, m.after);
      MatchAtIff(s, m);
      var r, rest := Scan(s, p), Scan(s, m.after);
      forall k | 0 <= k < |r| ensures IsLinkAt(s, r[k]) && p <= r[k].index {
        if k > 0 { assert r[k] == rest[k - 1]; }
      }
    }
  }

  /** The reported matches come left to right without overlapping. */
  lemma {:induction false} ScanOrdered(s: string, p: nat)
    ensures forall k :: 0 <= k < |Scan(s, p)| - 1 ==> Scan(s, p)[k].after <= Scan(s, p)[k + 1].index
    decreases |s| + 1 - p
  {
    if FindFrom(s, p).Some? {
      var m := FindFrom(s, p).value;
      ScanCons(s, p, m);
      ScanOrdered(s, m.after);
      ScanLinks(s, m.after);
      var r, rest := Scan(s, p), Scan(s, m.after);
      forall k | 0 <= k < |r| - 1 ensures r[k].after <= r[k + 1].index {
        if k > 0 { assert r[k] == rest[k - 1] && r[k + 1] == rest[k]; }
        else { assert r[1] == rest[0]; }
      }
    }
  }

  /** Every reported match ends no later than any later one starts. */
  lemma ScanIncreasing(s: string, p: nat)
    ensures forall i, j :: 0 <= i < j < |Scan(s, p)| ==> Scan(s, p)[i].after <= Scan(s, p)[j].index
  {
    var r := Scan(s, p);
    ScanOrdered(s, p);
    ScanLinks(s, p);
    forall i, j | 0 <= i < j < |r| ensures r[i].after <= r[j].index {
      Chain(r, i, j);
    }
  }

  lemma {:induction false} Chain(r: seq<Match>, i: nat, j: nat)
    requires i < j < |r|
    requires forall k :: 0 <= k < |r| - 1 ==> r[k].after <= r[k + 1].index
    requires forall k :: 0 <= k < |r| ==> r[k].index <= r[k].after
    ensures r[i].after <= r[j].index
    decreases j - i
  {
    if i + 1 < j {
      Chain(r, i + 1, j);
    }
  }

  /** Position `q` lies inside one of the matches `r`. */
  predicate Covered(r: seq<Match>, q: nat) {
    exists k :: 0 <= k < |r| && r[k].index <= q < r[k].after
  }

  /** The scan is leftmost: any place at or after the start where the
      pattern would match lies inside a reported match. */
  lemma {:induction false} ScanCovers(s: string, p: nat, q: nat)
    requires p <= q && MatchAt(s, q).Some?
    ensures Covered(Scan(s, p), q)
    decreases |s| + 1 - p
  {
    if FindFrom(s, p).None? {
      FindFromLeftmost(s, p, q);
      assert false;
    } else {
      var m := FindFrom(s, p).value;
      ScanCons(s, p, m);
      var r, rest := Scan(s, p), Scan(s, m.after);
      if q < m.index {
        FindFromLeftmost(s, p, q);
        assert false;
      } else if q < m.after {
        assert r[0].index <= q < r[0].after;
      } else {
        ScanCovers(s, m.after, q);
        var k :| 0 <= k < |rest| && rest[k].index <= q < rest[k].after;
        assert r[k + 1] == rest[k];
      }
    }
  }

  /** The global `linkRe` object; only `lastIndex` changes. */
  class LinkRegex {
    var lastIndex: nat

    constructor ()
      ensures lastIndex == 0
    {
      lastIndex := 0;
    }

    /** `RegExp.prototype.exec` with the global flag: search from
        `lastIndex`; on a match move `lastIndex` past it, otherwise reset
        it to 0 and return null. */
    method Exec(s: string) returns (m: Option<Match>)
      modifies this
      ensures m == FindFrom(s, old(lastIndex))
      ensures lastIndex == if m.Some? then m.value.after else 0
    {
      var i := lastIndex;
      while i <= |s|
        invariant old(lastIndex) <= i
        invariant FindFrom(s, old(lastIndex)) == FindFrom(s, i)
        decreases |s| + 1 - i
      {
        var r := MatchAt(s, i);
        if r.Some? {
          lastIndex := r.value.after;
          return r;
        }
        i := i + 1;
      }
      lastIndex := 0;
      return None;
    }
  }
}
