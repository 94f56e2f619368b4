/** `isExternal` and `checkFile`: splitting a document into lines, scanning
    each line for links, skipping external and anchor-only targets,
    dropping the fragment, resolving the rest against the document's
    directory and testing that it exists (scripts/broken-links.js:22-48). */
module Checker {
  import opened Text
  import opened Paths
  import opened LinkScan

  /** The filesystem as `fs.existsSync` and `fs.readFileSync` see it:
      every path that exists (files, directories and anything else), the
      directories among them, and the text of each readable file. */
  datatype FileSystem = FileSystem(existing: set<Path>, directories: set<Path>, contents: map<Path, string>)

  /** `fs.existsSync` on a normalised absolute path. A trailing separator
      makes the lookup demand a directory. */
  predicate ExistsSync(fs: FileSystem, p: string)
    requires IsAbsolute(p)
  {
    var n := Parse(p);
    n.segments in fs.existing && (n.trailingSlash ==> n.segments in fs.directories)
  }

  // ---------------------------------------------------------------------
  // Lines

  /** A `\n`-terminated piece without the one `\r` that `\r?\n` takes
      along with the `\n`. */
  function DropCR(piece: string): string {
    if EndsWith(piece, "\r") then piece[..|piece| - 1] else piece
  }

  /** The pieces between `\n`s, each but the last without its `\r`. */
  function Unterminate(pieces: seq<string>): (lines: seq<string>)
    ensures |lines| == |pieces|
  {
    if |pieces| <= 1 then pieces else [DropCR(pieces[0])] + Unterminate(pieces[1..])
  }

  lemma {:induction false} UnterminateAt(pieces: seq<string>)
    ensures forall k :: 0 <= k < |pieces| ==>
              Unterminate(pieces)[k] == if k < |pieces| - 1 then DropCR(pieces[k]) else pieces[k]
  {
    if |pieces| > 1 {
      UnterminateAt(pieces[1..]);
      var u := Unterminate(pieces);
      forall k | 1 <= k < |pieces|
        ensures u[k] == if k < |pieces| - 1 then DropCR(pieces[k]) else pieces[k]
      {
        assert u[k] == Unterminate(pieces[1..])[k - 1] && pieces[k] == pieces[1..][k - 1];
      }
    }
  }

  /** `text.split(/\r?\n/)` (scripts/broken-links.js:29): a separator is a
      `\n` together with the one `\r` before it, if any. */
  function SplitLines(text: string): (lines: seq<string>)
    ensures |lines| >= 1
  {
    Unterminate(SplitOn(text, '\n'))
  }

  /** No line holds a line feed. */
  lemma SplitLinesNoNewline(text: string)
    ensures forall k :: 0 <= k < |SplitLines(text)| ==> '\n' !in SplitLines(text)[k]
  {
    var pieces := SplitOn(text, '\n');
    var lines := SplitLines(text);
    SplitOnPieces(text, '\n');
    UnterminateAt(pieces);
    forall k | 0 <= k < |lines| ensures '\n' !in lines[k] {
      if k < |pieces| - 1 && EndsWith(pieces[k], "\r") {
        assert lines[k] == pieces[k][..|lines[k]|];
      }
    }
  }

  /** For each `\n` between pieces, whether a `\r` came before it. */
  function Terminators(pieces: seq<string>): seq<bool>
    requires |pieces| >= 1
  {
    if |pieces| == 1 then [] else [EndsWith(pieces[0], "\r")] + Terminators(pieces[1..])
  }

  /** For each separator of `SplitLines(text)`, whether it was `\r\n`. */
  function CrFlags(text: string): seq<bool> {
    Terminators(SplitOn(text, '\n'))
  }

  /** The lines glued back with their separators. */
  function Glue(lines: seq<string>, crs: seq<bool>): string
    requires |lines| == |crs| + 1
  {
    if crs == [] then lines[0]
    else lines[0] + (if crs[0] then "\r\n" else "\n") + Glue(lines[1..], crs[1..])
  }

  /** Gluing the unterminated pieces with their separators is joining the
      pieces with `\n`. */
  lemma {:induction false} GlueJoin(pieces: seq<string>)
    requires |pieces| >= 1
    ensures |Terminators(pieces)| == |pieces| - 1
    ensures Glue(Unterminate(pieces), Terminators(pieces)) == JoinWith(pieces, '\n')
  {
    if |pieces| > 1 {
      GlueJoin(pieces[1..]);
      DropCRSeparator(pieces[0]);
      assert Unterminate(pieces)[1..] == Unterminate(pieces[1..]);
    }
  }

  lemma DropCRSeparator(piece: string)
    ensures DropCR(piece) + (if EndsWith(piece, "\r") then "\r\n" else "\n") == piece + "\n"
  {
    if EndsWith(piece, "\r") {
      assert piece == piece[..|piece| - 1] + "\r";
    }
  }

  /** Splitting loses nothing: the text is its lines joined by `\r\n` or
      `\n` separators, and a line before a bare `\n` does not end in `\r`
      (else the separator would have been `\r\n`). */
  lemma SplitLinesRoundTrip(text: string)
    ensures |SplitLines(text)| == |CrFlags(text)| + 1
    ensures Glue(SplitLines(text), CrFlags(text)) == text
    ensures forall k :: 0 <= k < |CrFlags(text)| ==>
              !CrFlags(text)[k] ==> !EndsWith(SplitLines(text)[k], "\r")
  {
    GlueJoin(SplitOn(text, '\n'));
    JoinSplit(text, '\n');
    TerminatorsAt(SplitOn(text, '\n'));
    UnterminateAt(SplitOn(text, '\n'));
  }

  lemma {:induction false} TerminatorsAt(pieces: seq<string>)
    requires |pieces| >= 1
    ensures |Terminators(pieces)| == |pieces| - 1
    ensures forall k :: 0 <= k < |pieces| - 1 ==> Terminators(pieces)[k] == EndsWith(pieces[k], "\r")
  {
    if |pieces| > 1 {
      TerminatorsAt(pieces[1..]);
      var t := Terminators(pieces);
      forall k | 1 <= k < |pieces| - 1 ensures t[k] == EndsWith(pieces[k], "\r") {
        assert t[k] == Terminators(pieces[1..])[k - 1] && pieces[k] == pieces[1..][k - 1];
      }
    }
  }

  // ---------------------------------------------------------------------
  // Classifying and resolving one target

  /** `/^(https?:)?\/\//.test(t)`: two slashes, possibly after `http:` or
      `https:`. */
  predicate SchemeSlashes(t: string) {
    (StartsWith(t, "https:") && StartsWith(t[6..], "//"))
    || (StartsWith(t, "http:") && StartsWith(t[5..], "//"))
    || StartsWith(t, "//")
  }

  /** `isExternal(target)` (scripts/broken-links.js:22-24). */
  predicate IsExternal(t: string) {
    SchemeSlashes(t) || StartsWith(t, "#") || StartsWith(t, "mailto:") || StartsWith(t, "tel:")
  }

  /** The six prefixes that mark a target as external or anchor-only. */
  predicate HasSkippedPrefix(t: string) {
    StartsWith(t, "//") || StartsWith(t, "http://") || StartsWith(t, "https://")
    || StartsWith(t, "#") || StartsWith(t, "mailto:") || StartsWith(t, "tel:")
  }

  lemma IsExternalIff(t: string)
    ensures IsExternal(t) <==> HasSkippedPrefix(t)
  {
    if |t| >= 7 {
      assert StartsWith(t, "http:") && StartsWith(t[5..], "//") <==> StartsWith(t, "http://") by {
        assert t[..7] == t[..5] + t[5..][..2];
      }
    }
    if |t| >= 8 {
      assert StartsWith(t, "https:") && StartsWith(t[6..], "//") <==> StartsWith(t, "https://") by {
        assert t[..8] == t[..6] + t[6..][..2];
      }
    }
    if |t| < 7 {
      assert !(StartsWith(t, "http:") && StartsWith(t[5..], "//")) by {
        if StartsWith(t, "http:") && |t| >= 5 { assert |t[5..]| < 2; }
      }
    }
    if |t| < 8 {
      assert !(StartsWith(t, "https:") && StartsWith(t[6..], "//")) by {
        if StartsWith(t, "https:") && |t| >= 6 { assert |t[6..]| < 2; }
      }
    }
  }

  /** The `continue` at scripts/broken-links.js:37. */
  predicate Skipped(href: string) {
    href == "" || IsExternal(href)
  }

  /** `href.split('#', 1)[0]`. */
  function Base(href: string): string {
    Before(href, '#')
  }

  /** `path.normalize(path.join(path.dirname(filePath), base))` for a
      document whose directory is `dir`. */
  function TargetPath(dir: Path, base: string): (p: string)
    ensures IsAbsolute(p)
  {
    Normalize(Join(PathString(dir), base))
  }

  /** Whether a trimmed target found in a document of directory `dir`
      ends up in `broken`. */
  predicate IsBroken(fs: FileSystem, dir: Path, href: string) {
    !Skipped(href) && Base(href) != "" && !ExistsSync(fs, TargetPath(dir, Base(href)))
  }

  /** The second `continue` (scripts/broken-links.js:39) is dead: a target
      that survives the first one starts with something other than `#`,
      so its base is not empty. */
  lemma BaseNonEmpty(href: string)
    requires !Skipped(href)
    ensures Base(href) != ""
  {
  }

  /** A prefix without `#` sees the same thing in a target and in its
      base. */
  lemma PrefixThroughBase(href: string, p: string)
    requires '#' !in p && Base(href) != ""
    ensures StartsWith(href, p) <==> StartsWith(Base(href), p)
  {
    var b := Base(href);
    if StartsWith(b, p) {
      assert href[..|p|] == b[..|p|];
    }
  }

  lemma SkippedThroughBase(href: string)
    requires Base(href) != ""
    ensures Skipped(href) <==> Skipped(Base(href))
  {
    IsExternalIff(href);
    IsExternalIff(Base(href));
    PrefixThroughBase(href, "//");
    PrefixThroughBase(href, "http://");
    PrefixThroughBase(href, "https://");
    assert href[0] == Base(href)[0];
    PrefixThroughBase(href, "mailto:");
    PrefixThroughBase(href, "tel:");
  }

  /** The fragment is irrelevant: two targets with the same part before
      the first `#` get the same verdict. */
  lemma FragmentInsensitive(fs: FileSystem, dir: Path, h1: string, h2: string)
    requires Base(h1) == Base(h2)
    ensures IsBroken(fs, dir, h1) == IsBroken(fs, dir, h2)
  {
    if Base(h1) != "" {
      SkippedThroughBase(h1);
      SkippedThroughBase(h2);
    }
  }

  /** The path tested for a base: the document's directory acted on by the
      base's components. It depends on nothing else, and it holds no `.`,
      `..` or empty component. */
  lemma TargetComponents(dir: Path, base: string)
    requires WellFormed(dir) && base != ""
    ensures Parse(TargetPath(dir, base)) ==
            var segs := Resolve(dir, SplitOn(base, '/'));
            NormPath(segs, segs != [] && EndsWith(base, "/"))
    ensures WellFormed(Parse(TargetPath(dir, base)).segments)
  {
    JoinComponents(dir, base);
    ParseCanonical(PathString(dir) + "/" + base);
    ParseRender(Parse(PathString(dir) + "/" + base));
    NormalizeIdempotent(PathString(dir) + "/" + base);
  }

  /** An internal target is broken exactly when the path it resolves to
      does not exist, where a trailing separator asks for a directory. */
  lemma BrokenIff(fs: FileSystem, dir: Path, href: string)
    requires WellFormed(dir) && !Skipped(href)
    ensures var base := Base(href);
            var segs := Resolve(dir, SplitOn(base, '/'));
            IsBroken(fs, dir, href) <==>
              segs !in fs.existing || (segs != [] && EndsWith(base, "/") && segs !in fs.directories)
  {
    BaseNonEmpty(href);
    TargetComponents(dir, Base(href));
  }

  // ---------------------------------------------------------------------
  // Collecting the broken links of a document

  datatype BrokenLink = BrokenLink(line: nat, labelText: string, href: string)

  /** The verdict on a trimmed target in a document whose directory is
      `dir`; the bookkeeping below takes the verdict as a parameter. */
  function Judge(fs: FileSystem, dir: Path): string -> bool {
    href => IsBroken(fs, dir, href)
  }

  /** The entry a match on line `lineNo` would push: the trimmed label and
      the trimmed target. */
  function Candidate(lineNo: nat, m: Match): BrokenLink {
    BrokenLink(lineNo, Trim(m.rawLabel), Trim(m.rawTarget))
  }

  /** What one match contributes to `broken` on line `lineNo`. */
  function Verdict(broken: string -> bool, lineNo: nat, m: Match): seq<BrokenLink> {
    if broken(Trim(m.rawTarget)) then [Candidate(lineNo, m)] else []
  }

  /** The entries the matches `ms`, in order, push for line `lineNo`. */
  function LineBroken(broken: string -> bool, lineNo: nat, ms: seq<Match>): seq<BrokenLink> {
    if ms == [] then []
    else LineBroken(broken, lineNo, ms[..|ms| - 1]) + Verdict(broken, lineNo, ms[|ms| - 1])
  }

  /** The matches of each line, in line order. */
  function LinksOf(lines: seq<string>): (mss: seq<seq<Match>>)
    ensures |mss| == |lines|
    ensures forall k :: 0 <= k < |lines| ==> mss[k] == Links(lines[k])
  {
    seq(|lines|, k requires 0 <= k < |lines| => Links(lines[k]))
  }

  /** The entries of the first `n` lines, given each line's matches. */
  function LinesBroken(broken: string -> bool, mss: seq<seq<Match>>, n: nat): seq<BrokenLink>
    requires n <= |mss|
  {
    if n == 0 then []
    else LinesBroken(broken, mss, n - 1) + LineBroken(broken, n, mss[n - 1])
  }

  /** The result of `checkFile`: the path relative to the root and the
      broken links in the order they were found. */
  datatype FileReport = FileReport(rel: string, broken: seq<BrokenLink>)

  /** `checkFile(filePath)` for a readable file below `root`. */
  function Report(fs: FileSystem, root: Path, file: Path): FileReport
    requires |root| < |file| && file[..|root|] == root
    requires file in fs.contents
  {
    var lines := SplitLines(fs.contents[file]);
    FileReport(Relative(root, file), LinesBroken(Judge(fs, Dirname(file)), LinksOf(lines), |lines|))
  }

  /** `checkFile(filePath)` (scripts/broken-links.js:26-48), with the
      shared `linkRe` passed in. It yields `None` where `readFileSync`
      throws. */
  method CheckFile(re: LinkRegex, fs: FileSystem, root: Path, file: Path) returns (r: Option<FileReport>)
    requires |root| < |file| && file[..|root|] == root
    requires re.lastIndex == 0
    modifies re
    ensures re.lastIndex == 0
    ensures r == if file in fs.contents then Some(Report(fs, root, file)) else None
  {
    var rel := Relative(root, file);
    if file !in fs.contents {
      return None;
    }
    var text := fs.contents[file];
    var lines := SplitLines(text);
    var dir := Dirname(file);
    var broken: seq<BrokenLink> := [];
    ghost var mss := LinksOf(lines);
    for idx := 0 to |lines|
      invariant re.lastIndex == 0
      invariant broken == LinesBroken(Judge(fs, dir), mss, idx)
    {
      broken := EachLine(re, fs, dir, lines[idx], idx, broken);
    }
    return Some(FileReport(rel, broken));
  }

  /** The callback `lines.forEach` runs on `line` at index `idx`
      (scripts/broken-links.js:32-45): it drives `exec` to the end of the
      line and pushes an entry, on line `idx + 1`, for every broken
      target. */
  method EachLine(re: LinkRegex, fs: FileSystem, dir: Path, line: string, idx: nat, broken0: seq<BrokenLink>)
    returns (broken: seq<BrokenLink>)
    requires re.lastIndex == 0
    modifies re
    ensures re.lastIndex == 0
    ensures broken == broken0 + LineBroken(Judge(fs, dir), idx + 1, Links(line))
  {
    broken := broken0;
    ghost var judge := Judge(fs, dir);
    ghost var done: seq<Match> := [];
    var m := re.Exec(line);
    if m.Some? { ScanCons(line, 0, m.value); }
    while m.Some?
      invariant m.Some? ==> re.lastIndex == m.value.after
      invariant m.None? ==> re.lastIndex == 0
      invariant m.None? ==> Links(line) == done
      invariant m.Some? ==> Links(line) == done + [m.value] + Scan(line, m.value.after)
      invariant broken == broken0 + LineBroken(judge, idx + 1, done)
      decreases |Links(line)| - |done|
    {
      ghost var before := broken;
      var v := m.value;
      broken := Visit(fs, dir, idx + 1, v, broken);
      m := re.Exec(line);
      LoopStep(judge, idx + 1, line, broken0, done, v, m, before, broken);
      done := done + [v];
    }
    assert done == Links(line);
  }

  /** One turn of the `while (exec)` loop on a match `m` of line `lineNo`
      (scripts/broken-links.js:35-43): trim both groups, skip empty,
      external and anchor-only targets, drop the fragment, resolve, test. */
  method Visit(fs: FileSystem, dir: Path, lineNo: nat, m: Match, broken0: seq<BrokenLink>)
    returns (broken: seq<BrokenLink>)
    ensures broken == broken0 + Verdict(Judge(fs, dir), lineNo, m)
  {
    broken := broken0;
    var labelText := Trim(m.rawLabel);
    var href := Trim(m.rawTarget);
    VerdictCases(fs, dir, lineNo, m);
    if href == "" || IsExternal(href) {
      return;
    }
    var base := Before(href, '#');
    if base == "" {
      return;
    }
    var targetPath := Normalize(Join(PathString(dir), base));
    if !ExistsSync(fs, targetPath) {
      broken := broken + [BrokenLink(lineNo, labelText, href)];
    }
  }

  /** One turn of the loop keeps its invariants: the match just visited
      joins those done, and `exec` yields the next one or the end. */
  lemma LoopStep(judge: string -> bool, lineNo: nat, line: string, broken0: seq<BrokenLink>, done: seq<Match>,
                 v: Match, next: Option<Match>, before: seq<BrokenLink>, after: seq<BrokenLink>)
    requires Links(line) == done + [v] + Scan(line, v.after)
    requires before == broken0 + LineBroken(judge, lineNo, done)
    requires after == before + Verdict(judge, lineNo, v)
    requires next == FindFrom(line, v.after)
    ensures next.None? ==> Links(line) == done + [v]
    ensures next.Some? ==> Links(line) == (done + [v]) + [next.value] + Scan(line, next.value.after)
    ensures after == broken0 + LineBroken(judge, lineNo, done + [v])
  {
    LineBrokenSnoc(judge, lineNo, done, v);
    if next.Some? {
      ScanCons(line, v.after, next.value);
    }
    Regroup(broken0, LineBroken(judge, lineNo, done), Verdict(judge, lineNo, v));
  }

  lemma LineBrokenSnoc(broken: string -> bool, lineNo: nat, ms: seq<Match>, m: Match)
    ensures LineBroken(broken, lineNo, ms + [m]) == LineBroken(broken, lineNo, ms) + Verdict(broken, lineNo, m)
  {
    assert (ms + [m])[..|ms|] == ms;
  }

  /** The three `continue`s and the existence test of one match, in the
      order the loop body takes them. */
  lemma VerdictCases(fs: FileSystem, dir: Path, lineNo: nat, m: Match)
    ensures var href := Trim(m.rawTarget);
            Verdict(Judge(fs, dir), lineNo, m) ==
              if href != "" && !IsExternal(href) && Before(href, '#') != ""
                 && !ExistsSync(fs, Normalize(Join(PathString(dir), Before(href, '#'))))
              then [BrokenLink(lineNo, Trim(m.rawLabel), href)] else []
  {
  }

  // ---------------------------------------------------------------------
  // What the entries of a document are

  /** `b` is the entry of one of the matches `ms` on line `lineNo`. */
  predicate EntryOf(lineNo: nat, ms: seq<Match>, b: BrokenLink) {
    exists k :: 0 <= k < |ms| && b == Candidate(lineNo, ms[k])
  }

  /** Each entry of a line is the entry of one of the line's matches and
      has a broken target, and every match with a broken target has its
      entry. */
  lemma LineBrokenIff(broken: string -> bool, lineNo: nat, ms: seq<Match>, b: BrokenLink)
    ensures b in LineBroken(broken, lineNo, ms) <==> EntryOf(lineNo, ms, b) && broken(b.href)
  {
    if b in LineBroken(broken, lineNo, ms) { LineBrokenSound(broken, lineNo, ms, b); }
    if EntryOf(lineNo, ms, b) && broken(b.href) { LineBrokenComplete(broken, lineNo, ms, b); }
  }

  lemma {:induction false} LineBrokenSound(broken: string -> bool, lineNo: nat, ms: seq<Match>, b: BrokenLink)
    requires b in LineBroken(broken, lineNo, ms)
    ensures EntryOf(lineNo, ms, b) && broken(b.href)
  {
    var init := ms[..|ms| - 1];
    if b in LineBroken(broken, lineNo, init) {
      LineBrokenSound(broken, lineNo, init, b);
      EntryOfPrefix(lineNo, ms, b);
    } else {
      EntryOfLast(lineNo, ms, b);
    }
  }

  lemma {:induction false} LineBrokenComplete(broken: string -> bool, lineNo: nat, ms: seq<Match>, b: BrokenLink)
    requires EntryOf(lineNo, ms, b) && broken(b.href)
    ensures b in LineBroken(broken, lineNo, ms)
  {
    var init := ms[..|ms| - 1];
    var last := ms[|ms| - 1];
    if b != Candidate(lineNo, last) {
      EntryOfSplit(lineNo, ms, b);
      LineBrokenComplete(broken, lineNo, init, b);
    }
  }

  lemma EntryOfPrefix(lineNo: nat, ms: seq<Match>, b: BrokenLink)
    requires ms != [] && EntryOf(lineNo, ms[..|ms| - 1], b)
    ensures EntryOf(lineNo, ms, b)
  {
    var k :| 0 <= k < |ms| - 1 && b == Candidate(lineNo, ms[..|ms| - 1][k]);
    assert ms[..|ms| - 1][k] == ms[k];
  }

  lemma EntryOfLast(lineNo: nat, ms: seq<Match>, b: BrokenLink)
    requires ms != [] && b == Candidate(lineNo, ms[|ms| - 1])
    ensures EntryOf(lineNo, ms, b)
  {
  }

  lemma EntryOfSplit(lineNo: nat, ms: seq<Match>, b: BrokenLink)
    requires ms != [] && EntryOf(lineNo, ms, b) && b != Candidate(lineNo, ms[|ms| - 1])
    ensures EntryOf(lineNo, ms[..|ms| - 1], b)
  {
    var k :| 0 <= k < |ms| && b == Candidate(lineNo, ms[k]);
    assert ms[..|ms| - 1][k] == ms[k];
  }

  /** Every entry in `bs` has a line number in `lo..hi`. */
  predicate LinesWithin(bs: seq<BrokenLink>, lo: nat, hi: nat) {
    forall k :: 0 <= k < |bs| ==> lo <= bs[k].line <= hi
  }

  /** No entry of `bs` has a smaller line number than one before it. */
  predicate LinesAscending(bs: seq<BrokenLink>) {
    forall i, j :: 0 <= i < j < |bs| ==> bs[i].line <= bs[j].line
  }

  /** Entries are grouped by line in ascending order: within the first `n`
      lines every line number is between 1 and `n`, and a later entry
      never has a smaller line number. */
  lemma {:induction false} LinesBrokenOrdered(broken: string -> bool, mss: seq<seq<Match>>, n: nat)
    requires n <= |mss|
    ensures LinesWithin(LinesBroken(broken, mss, n), 1, n)
    ensures LinesAscending(LinesBroken(broken, mss, n))
  {
    if n > 0 {
      LinesBrokenOrdered(broken, mss, n - 1);
      LineBrokenOnLine(broken, n, mss[n - 1]);
      AppendLine(LinesBroken(broken, mss, n - 1), LineBroken(broken, n, mss[n - 1]), n);
    }
  }

  lemma AppendLine(front: seq<BrokenLink>, here: seq<BrokenLink>, n: nat)
    requires n >= 1 && LinesWithin(front, 1, n - 1) && LinesAscending(front)
    requires LinesWithin(here, n, n)
    ensures LinesWithin(front + here, 1, n) && LinesAscending(front + here)
  {
    var all := front + here;
    assert forall k :: |front| <= k < |all| ==> all[k] == here[k - |front|];
    assert forall k :: 0 <= k < |front| ==> all[k] == front[k];
  }

  lemma {:induction false} LineBrokenOnLine(broken: string -> bool, lineNo: nat, ms: seq<Match>)
    ensures LinesWithin(LineBroken(broken, lineNo, ms), lineNo, lineNo)
  {
    if ms != [] { LineBrokenOnLine(broken, lineNo, ms[..|ms| - 1]); }
  }

  /** The positions, in ascending order, of the matches among `ms` whose
      targets are broken. */
  function Picked(broken: string -> bool, ms: seq<Match>): (ks: seq<nat>)
    ensures forall i :: 0 <= i < |ks| ==> ks[i] < |ms|
  {
    if ms == [] then []
    else Picked(broken, ms[..|ms| - 1]) + (if broken(Trim(ms[|ms| - 1].rawTarget)) then [|ms| - 1] else [])
  }

  /** `Picked` lists every match with a broken target, and no other, once
      each and in ascending order. */
  lemma {:induction false} PickedSpec(broken: string -> bool, ms: seq<Match>)
    ensures forall i, j :: 0 <= i < j < |Picked(broken, ms)| ==> Picked(broken, ms)[i] < Picked(broken, ms)[j]
    ensures forall k :: k in Picked(broken, ms) <==> 0 <= k < |ms| && broken(Trim(ms[k].rawTarget))
  {
    if ms != [] {
      var init := ms[..|ms| - 1];
      PickedSpec(broken, init);
      assert forall k :: 0 <= k < |init| ==> init[k] == ms[k];
    }
  }

  /** The entries of a line are the candidates of the picked matches, in
      the same order: entry `k` comes from the `k`-th match with a broken
      target. */
  lemma {:induction false} LineBrokenPicked(broken: string -> bool, lineNo: nat, ms: seq<Match>)
    ensures |LineBroken(broken, lineNo, ms)| == |Picked(broken, ms)|
    ensures forall k :: 0 <= k < |Picked(broken, ms)| ==>
              LineBroken(broken, lineNo, ms)[k] == Candidate(lineNo, ms[Picked(broken, ms)[k]])
  {
    if ms != [] {
      var init := ms[..|ms| - 1];
      LineBrokenPicked(broken, lineNo, init);
      var bs0, ks0 := LineBroken(broken, lineNo, init), Picked(broken, init);
      var bs, ks := LineBroken(broken, lineNo, ms), Picked(broken, ms);
      forall k | 0 <= k < |ks| ensures bs[k] == Candidate(lineNo, ms[ks[k]]) {
        if k < |ks0| {
          assert bs[k] == bs0[k] && ks[k] == ks0[k] && init[ks0[k]] == ms[ks0[k]];
        }
      }
    }
  }

  /** On one line, the entries are the candidates of the matches with
      broken targets, each once, in the order the scan meets them from
      left to right. */
  lemma LineEntriesInOrder(broken: string -> bool, lineNo: nat, line: string)
    ensures var ms := Links(line);
            var ks := Picked(broken, ms);
            var bs := LineBroken(broken, lineNo, ms);
            |bs| == |ks|
            && (forall k :: 0 <= k < |ks| ==> bs[k] == Candidate(lineNo, ms[ks[k]]) && broken(bs[k].href))
            && (forall i, j :: 0 <= i < j < |ks| ==> ks[i] < ks[j] && ms[ks[i]].after <= ms[ks[j]].index)
            && (forall k :: 0 <= k < |ms| && broken(Trim(ms[k].rawTarget)) ==> k in ks)
  {
    var ms := Links(line);
    var ks := Picked(broken, ms);
    LineBrokenPicked(broken, lineNo, ms);
    PickedSpec(broken, ms);
    ScanIncreasing(line, 0);
    forall k | 0 <= k < |ks| ensures broken(Trim(ms[ks[k]].rawTarget)) {
      assert ks[k] in ks;
    }
  }

  /** The entries of the first `n` lines are those of each line `1..n`,
      each found on its own line. */
  lemma {:induction false} LinesBrokenIff(broken: string -> bool, mss: seq<seq<Match>>, n: nat, b: BrokenLink)
    requires n <= |mss|
    ensures b in LinesBroken(broken, mss, n) <==>
            1 <= b.line <= n && b in LineBroken(broken, b.line, mss[b.line - 1])
  {
    if n > 0 {
      LinesBrokenIff(broken, mss, n - 1, b);
      var front := LinesBroken(broken, mss, n - 1);
      var here := LineBroken(broken, n, mss[n - 1]);
      assert LinesBroken(broken, mss, n) == front + here;
      if b in here {
        LineBrokenOnLine(broken, n, mss[n - 1]);
        var k :| 0 <= k < |here| && here[k] == b;
        assert b.line == n;
      }
    }
  }

  /** The entries of the first `n` lines are the entries of their matches
      whose targets are broken. */
  lemma LinesEntryIff(broken: string -> bool, mss: seq<seq<Match>>, n: nat, b: BrokenLink)
    requires n <= |mss|
    ensures b in LinesBroken(broken, mss, n) <==>
            1 <= b.line <= n && EntryOf(b.line, mss[b.line - 1], b) && broken(b.href)
  {
    LinesBrokenIff(broken, mss, n, b);
    if 1 <= b.line <= n {
      LineBrokenIff(broken, b.line, mss[b.line - 1], b);
    }
  }

  /** The same, for the lines of a document and their matches. */
  lemma LinesEntryIffOf(broken: string -> bool, lines: seq<string>, b: BrokenLink)
    ensures b in LinesBroken(broken, LinksOf(lines), |lines|) <==>
            1 <= b.line <= |lines| && EntryOf(b.line, Links(lines[b.line - 1]), b) && broken(b.href)
  {
    var mss := LinksOf(lines);
    var all := LinesBroken(broken, mss, |lines|);
    if 1 <= b.line <= |lines| {
      var ms := Links(lines[b.line - 1]);
      EntryIffOn(broken, mss, ms, b);
      assert b in all <==> EntryOf(b.line, ms, b) && broken(b.href);
    } else {
      LinesEntryIff(broken, mss, |lines|, b);
      assert b !in all;
    }
  }

  lemma EntryIffOn(broken: string -> bool, mss: seq<seq<Match>>, ms: seq<Match>, b: BrokenLink)
    requires 1 <= b.line <= |mss| && mss[b.line - 1] == ms
    ensures b in LinesBroken(broken, mss, |mss|) <==> EntryOf(b.line, ms, b) && broken(b.href)
  {
    LinesEntryIff(broken, mss, |mss|, b);
  }

  /** What ends up in a document's list: exactly the entries of matches on
      its lines whose targets are broken. */
  lemma ReportIff(fs: FileSystem, root: Path, file: Path, b: BrokenLink)
    requires |root| < |file| && file[..|root|] == root
    requires file in fs.contents
    ensures var lines := SplitLines(fs.contents[file]);
            b in Report(fs, root, file).broken <==>
              1 <= b.line <= |lines| && EntryOf(b.line, Links(lines[b.line - 1]), b)
              && IsBroken(fs, Dirname(file), b.href)
  {
    LinesEntryIffOf(Judge(fs, Dirname(file)), SplitLines(fs.contents[file]), b);
  }

  /** The entries of a document come line by line in ascending order, and
      each line number is one of its lines. */
  lemma ReportOrdered(fs: FileSystem, root: Path, file: Path)
    requires |root| < |file| && file[..|root|] == root
    requires file in fs.contents
    ensures var lines := SplitLines(fs.contents[file]);
            LinesWithin(Report(fs, root, file).broken, 1, |lines|)
            && LinesAscending(Report(fs, root, file).broken)
  {
    var lines := SplitLines(fs.contents[file]);
    LinesBrokenOrdered(Judge(fs, Dirname(file)), LinksOf(lines), |lines|);
  }

  /** None of the matches `ms` has a broken target. */
  predicate LineClean(broken: string -> bool, ms: seq<Match>) {
    forall k :: 0 <= k < |ms| ==> !broken(Trim(ms[k].rawTarget))
  }

  /** None of the first `n` lines has a match with a broken target. */
  predicate AllClean(broken: string -> bool, mss: seq<seq<Match>>, n: nat)
    requires n <= |mss|
  {
    forall k :: 0 <= k < n ==> LineClean(broken, mss[k])
  }

  /** A document gets an empty list exactly when none of its lines has a
      match with a broken target. */
  lemma {:induction false} NothingBroken(broken: string -> bool, mss: seq<seq<Match>>, n: nat)
    requires n <= |mss|
    ensures LinesBroken(broken, mss, n) == [] <==> AllClean(broken, mss, n)
  {
    if n > 0 {
      NothingBroken(broken, mss, n - 1);
      LineEmptyIff(broken, n, mss[n - 1]);
      CleanUpTo(broken, mss, n);
    }
  }

  lemma CleanUpTo(broken: string -> bool, mss: seq<seq<Match>>, n: nat)
    requires 0 < n <= |mss|
    ensures AllClean(broken, mss, n) <==> AllClean(broken, mss, n - 1) && LineClean(broken, mss[n - 1])
  {
  }

  lemma {:induction false} LineEmptyIff(broken: string -> bool, lineNo: nat, ms: seq<Match>)
    ensures LineBroken(broken, lineNo, ms) == [] <==> LineClean(broken, ms)
  {
    if ms != [] {
      var init := ms[..|ms| - 1];
      LineEmptyIff(broken, lineNo, init);
      assert forall k :: 0 <= k < |init| ==> init[k] == ms[k];
    }
  }

  /** The list of a document is empty exactly when no match on any of its
      lines has a broken target. */
  lemma ReportEmptyIff(fs: FileSystem, root: Path, file: Path)
    requires |root| < |file| && file[..|root|] == root
    requires file in fs.contents
    ensures var lines := SplitLines(fs.contents[file]);
            Report(fs, root, file).broken == [] <==>
              forall k :: 0 <= k < |lines| ==> LineClean(Judge(fs, Dirname(file)), Links(lines[k]))
  {
    var lines := SplitLines(fs.contents[file]);
    var mss := LinksOf(lines);
    NothingBroken(Judge(fs, Dirname(file)), mss, |lines|);
  }
}
