/** `main` (scripts/broken-links.js:50-73): walk the root, sort the paths,
    check each file, print a section per file with broken links, then the
    summary, and set the exit code. The console is modelled as the list of
    strings passed to `console.log`, in order. */
module Driver {
  import opened Text
  import opened Paths
  import opened PathOrder
  import opened LinkScan
  import opened Walker
  import opened Checker

  /** How a run ends: normally, with the console lines and the exit code,
      or with the exception `readFileSync` throws on `path`, after the
      lines written until then. */
  datatype Outcome =
    | Completed(log: seq<string>, exitCode: int)
    | ReadFailed(log: seq<string>, path: Path)

  const NoneFound := "No broken relative links found."

  const EntryPrefix := "  - line "

  /** The console line for one broken link (scripts/broken-links.js:63). */
  function EntryLine(b: BrokenLink): string {
    EntryPrefix + NatToString(b.line) + ": \"" + b.labelText + "\" -> " + b.href
  }

  function EntryLines(bs: seq<BrokenLink>): (r: seq<string>)
    ensures |r| == |bs|
  {
    if bs == [] then [] else EntryLines(bs[..|bs| - 1]) + [EntryLine(bs[|bs| - 1])]
  }

  /** The lines one checked file adds (scripts/broken-links.js:59-64):
      nothing when it has no broken link, else a heading and one line per
      entry. */
  function FileLines(rep: FileReport): seq<string> {
    if rep.broken == [] then [] else ["\n" + rep.rel] + EntryLines(rep.broken)
  }

  predicate AllBelow(root: Path, files: seq<Path>) {
    forall k :: 0 <= k < |files| ==> Below(root, files[k])
  }

  predicate Readable(fs: FileSystem, files: seq<Path>) {
    forall k :: 0 <= k < |files| ==> files[k] in fs.contents
  }

  /** `checkFile` as a value: the report of a readable file below `root`
      (the other files never reach it). */
  function Checked(fs: FileSystem, root: Path): Path -> FileReport {
    file => if Below(root, file) && file in fs.contents then Report(fs, root, file) else FileReport("", [])
  }

  /** The results of `check` on each of `files`, in order. */
  function Reports(check: Path -> FileReport, files: seq<Path>): (reps: seq<FileReport>)
    ensures |reps| == |files|
  {
    if files == [] then [] else Reports(check, files[..|files| - 1]) + [check(files[|files| - 1])]
  }

  lemma {:induction false} ReportsAt(check: Path -> FileReport, files: seq<Path>, k: nat)
    requires k < |files|
    ensures Reports(check, files)[k] == check(files[k])
  {
    var n := |files| - 1;
    if k < n {
      var init := files[..n];
      ReportsAt(check, init, k);
      assert init[k] == files[k];
    }
  }

  /** The console lines for the reports `reps`, in order. */
  function Logs(reps: seq<FileReport>): seq<string> {
    if reps == [] then [] else Logs(reps[..|reps| - 1]) + FileLines(reps[|reps| - 1])
  }

  /** `totalBroken` after the reports `reps` (scripts/broken-links.js:60). */
  function Total(reps: seq<FileReport>): nat {
    if reps == [] then 0 else Total(reps[..|reps| - 1]) + |reps[|reps| - 1].broken|
  }

  /** The closing lines (scripts/broken-links.js:67-72). */
  function Summary(total: nat): seq<string> {
    if total == 0 then [NoneFound] else ["\nTotal broken links: " + NatToString(total)]
  }

  function ExitCode(total: nat): int {
    if total == 0 then 0 else 1
  }

  /** The index of the first file that cannot be read. */
  function FirstUnreadable(fs: FileSystem, files: seq<Path>): (i: nat)
    requires !Readable(fs, files)
    ensures i < |files| && files[i] !in fs.contents
  {
    if files[0] !in fs.contents then 0
    else
      assert !Readable(fs, files[1..]) by {
        var k :| 0 <= k < |files| && files[k] !in fs.contents;
        assert files[1..][k - 1] == files[k];
      }
      1 + FirstUnreadable(fs, files[1..])
  }

  lemma {:induction false} FirstUnreadableSpec(fs: FileSystem, files: seq<Path>)
    requires !Readable(fs, files)
    ensures Readable(fs, files[..FirstUnreadable(fs, files)])
  {
    if files[0] in fs.contents {
      var rest := files[1..];
      assert !Readable(fs, rest) by {
        var k :| 0 <= k < |files| && files[k] !in fs.contents;
        assert rest[k - 1] == files[k];
      }
      FirstUnreadableSpec(fs, rest);
      var i := FirstUnreadable(fs, rest);
      var front, tail := files[..i + 1], rest[..i];
      forall k | 0 <= k < i + 1 ensures front[k] in fs.contents {
        if k > 0 { assert front[k] == tail[k - 1]; }
      }
    }
  }

  /** What `main` does once `walk` and the sort have produced `files`. */
  function Expected(fs: FileSystem, root: Path, files: seq<Path>): Outcome {
    if Readable(fs, files) then
      var reps := Reports(Checked(fs, root), files);
      Completed(Logs(reps) + Summary(Total(reps)), ExitCode(Total(reps)))
    else
      var i := FirstUnreadable(fs, files);
      ReadFailed(Logs(Reports(Checked(fs, root), files[..i])), files[i])
  }

  /** `main()` with `entries` the tree below `root`. */
  method Run(fs: FileSystem, root: Path, entries: seq<Entry>) returns (out: Outcome)
    ensures AllBelow(root, SortPaths(Collected(root, entries)))
    ensures out == Expected(fs, root, SortPaths(Collected(root, entries)))
  {
    var files := new FileList();
    Walk(root, entries, files);
    assert files.paths == Collected(root, entries);
    files.Sort();
    SortedBelow(root, entries);
    var re := new LinkRegex();
    out := CheckAll(re, fs, root, files.paths);
  }

  /** The loop over the sorted files and the closing lines
      (scripts/broken-links.js:57-72). */
  method CheckAll(re: LinkRegex, fs: FileSystem, root: Path, files: seq<Path>) returns (out: Outcome)
    requires AllBelow(root, files) && re.lastIndex == 0
    modifies re
    ensures out == Expected(fs, root, files)
  {
    var totalBroken: nat := 0;
    var log: seq<string> := [];
    ghost var reps: seq<FileReport> := [];
    for i := 0 to |files|
      invariant re.lastIndex == 0
      invariant Readable(fs, files[..i])
      invariant reps == Reports(Checked(fs, root), files[..i])
      invariant log == Logs(reps) && totalBroken == Total(reps)
    {
      var file := files[i];
      var r;
      r, log, totalBroken := Turn(re, fs, root, file, log, totalBroken);
      if r.None? {
        FirstUnreadableAt(fs, files, i);
        return ReadFailed(log, file);
      }
      Extend(fs, files, i);
      ghost var reps0 := reps;
      reps := reps + [r.value];
      assert reps[..|reps| - 1] == reps0;
    }
    assert files[..|files|] == files;
    if totalBroken == 0 {
      log := log + [NoneFound];
      return Completed(log, 0);
    } else {
      log := log + ["\nTotal broken links: " + NatToString(totalBroken)];
      return Completed(log, 1);
    }
  }

  /** One turn of the loop (scripts/broken-links.js:58-64): check `file`,
      skip it when it has no broken link, else count its entries and print
      its section. */
  method Turn(re: LinkRegex, fs: FileSystem, root: Path, file: Path, log0: seq<string>, total0: nat)
    returns (r: Option<FileReport>, log: seq<string>, total: nat)
    requires Below(root, file) && re.lastIndex == 0
    modifies re
    ensures re.lastIndex == 0
    ensures r == if file in fs.contents then Some(Checked(fs, root)(file)) else None
    ensures r.Some? ==> log == log0 + FileLines(r.value) && total == total0 + |r.value.broken|
    ensures r.None? ==> log == log0
  {
    log, total := log0, total0;
    r := CheckFile(re, fs, root, file);
    if r.None? {
      return;
    }
    var rep := r.value;
    if |rep.broken| == 0 {
      return;
    }
    total := total + |rep.broken|;
    log := Section(log, rep);
  }

  /** The lines printed for a file with broken links
      (scripts/broken-links.js:61-64). */
  method Section(log0: seq<string>, rep: FileReport) returns (log: seq<string>)
    requires rep.broken != []
    ensures log == log0 + FileLines(rep)
  {
    log := log0 + ["\n" + rep.rel];
    for j := 0 to |rep.broken|
      invariant log == log0 + ["\n" + rep.rel] + EntryLines(rep.broken[..j])
    {
      assert rep.broken[..j + 1][..j] == rep.broken[..j];
      log := log + [EntryLine(rep.broken[j])];
    }
    assert rep.broken[..|rep.broken|] == rep.broken;
  }

  /** Every sorted path lies below the root, as `checkFile` needs. */
  lemma SortedBelow(root: Path, entries: seq<Entry>)
    ensures AllBelow(root, SortPaths(Collected(root, entries)))
  {
    var c := Collected(root, entries);
    var s := SortPaths(c);
    SortPathsSpec(c);
    forall k | 0 <= k < |s| ensures Below(root, s[k]) {
      assert s[k] in multiset(c);
      CollectedShape(root, entries, s[k]);
    }
  }

  lemma FirstUnreadableAt(fs: FileSystem, files: seq<Path>, i: nat)
    requires i < |files| && Readable(fs, files[..i]) && files[i] !in fs.contents
    ensures !Readable(fs, files) && FirstUnreadable(fs, files) == i
    decreases i
  {
    if i > 0 {
      var rest := files[1..];
      var front, tail := files[..i], rest[..i - 1];
      assert files[0] == front[0];
      assert Readable(fs, tail) by {
        forall k | 0 <= k < i - 1 ensures tail[k] in fs.contents {
          assert tail[k] == front[k + 1];
        }
      }
      FirstUnreadableAt(fs, rest, i - 1);
    }
  }

  /** One more readable file extends the readable prefix. */
  lemma Extend(fs: FileSystem, files: seq<Path>, i: nat)
    requires i < |files| && Readable(fs, files[..i]) && files[i] in fs.contents
    ensures Readable(fs, files[..i + 1])
    ensures files[..i + 1][..i] == files[..i] && files[..i + 1][i] == files[i]
  {
    var next, front := files[..i + 1], files[..i];
    assert next[..i] == front;
    forall k | 0 <= k < i + 1 ensures next[k] in fs.contents {
      if k < i { assert next[k] == front[k]; }
    }
  }

  // ---------------------------------------------------------------------
  // What the output says

  /** The total is zero exactly when every report is empty. */
  lemma {:induction false} TotalZeroIff(reps: seq<FileReport>)
    ensures Total(reps) == 0 <==> forall k :: 0 <= k < |reps| ==> reps[k].broken == []
  {
    if reps != [] {
      var init := reps[..|reps| - 1];
      TotalZeroIff(init);
      assert forall k :: 0 <= k < |init| ==> init[k] == reps[k];
    }
  }

  /** Nothing is printed for the files themselves exactly when the total
      is zero. */
  lemma {:induction false} LogsEmptyIff(reps: seq<FileReport>)
    ensures Logs(reps) == [] <==> Total(reps) == 0
  {
    if reps != [] {
      LogsEmptyIff(reps[..|reps| - 1]);
    }
  }

  /** The lines printed before the summary all start with a newline or a
      space. */
  predicate Indented(line: string) {
    |line| >= 1 && (line[0] == '\n' || line[0] == ' ')
  }

  lemma {:induction false} EntryLinesIndented(bs: seq<BrokenLink>)
    ensures forall k :: 0 <= k < |EntryLines(bs)| ==> Indented(EntryLines(bs)[k])
  {
    if bs != [] {
      EntryLinesIndented(bs[..|bs| - 1]);
    }
  }

  lemma {:induction false} LogsIndented(reps: seq<FileReport>)
    ensures forall k :: 0 <= k < |Logs(reps)| ==> Indented(Logs(reps)[k])
  {
    if reps != [] {
      LogsIndented(reps[..|reps| - 1]);
      EntryLinesIndented(reps[|reps| - 1].broken);
    }
  }

  /** The reassurance line is never among the per-file lines. */
  lemma NotLogged(reps: seq<FileReport>)
    ensures NoneFound !in Logs(reps)
  {
    LogsIndented(reps);
    var logs := Logs(reps);
    forall k | 0 <= k < |logs| ensures logs[k] != NoneFound {
      assert Indented(logs[k]);
      assert NoneFound[0] == 'N';
    }
  }

  /** The summary is the reassurance line exactly when the total is zero. */
  lemma SummaryIff(total: nat)
    ensures NoneFound in Summary(total) <==> total == 0
  {
    if total != 0 {
      var line := "\nTotal broken links: " + NatToString(total);
      assert line[0] == '\n' && NoneFound[0] == 'N';
      assert Summary(total) == [line];
    }
  }

  /** Over the reports of a completed run: exit code 1 exactly when some
      report is not empty, the reassurance line exactly when all are, and
      then nothing else. */
  lemma OutcomeOf(reps: seq<FileReport>)
    ensures var log := Logs(reps) + Summary(Total(reps));
            var clean := forall k :: 0 <= k < |reps| ==> reps[k].broken == [];
            (ExitCode(Total(reps)) == 1 <==> !clean)
            && (ExitCode(Total(reps)) == 0 <==> clean)
            && (NoneFound in log <==> clean)
            && (clean ==> log == [NoneFound])
  {
    TotalZeroIff(reps);
    LogsEmptyIff(reps);
    NotLogged(reps);
    SummaryIff(Total(reps));
  }

  /** A run over readable files completes; it exits with 1 exactly when
      some file has a broken link, and prints the reassurance line exactly
      when none has, and then nothing else. */
  lemma Verdicts(fs: FileSystem, root: Path, files: seq<Path>)
    requires AllBelow(root, files) && Readable(fs, files)
    ensures var out := Expected(fs, root, files);
            var clean := forall k :: 0 <= k < |files| ==> Report(fs, root, files[k]).broken == [];
            out.Completed?
            && (out.exitCode == 1 <==> !clean)
            && (out.exitCode == 0 <==> clean)
            && (NoneFound in out.log <==> clean)
            && (clean ==> out.log == [NoneFound])
  {
    var reps := Reports(Checked(fs, root), files);
    OutcomeOf(reps);
    forall k | 0 <= k < |files| ensures reps[k] == Report(fs, root, files[k]) {
      ReportsAt(Checked(fs, root), files, k);
    }
  }

  /** The number of lines that report a broken link. */
  function CountEntries(log: seq<string>): nat {
    if log == [] then 0
    else CountEntries(log[..|log| - 1]) + (if StartsWith(log[|log| - 1], EntryPrefix) then 1 else 0)
  }

  lemma {:induction false} CountAppend(a: seq<string>, b: seq<string>)
    ensures CountEntries(a + b) == CountEntries(a) + CountEntries(b)
    decreases |b|
  {
    if b != [] {
      var b0 := b[..|b| - 1];
      var last := if StartsWith(b[|b| - 1], EntryPrefix) then 1 else 0;
      assert (a + b)[..|a + b| - 1] == a + b0;
      assert (a + b)[|a + b| - 1] == b[|b| - 1];
      assert CountEntries(a + b) == CountEntries(a + b0) + last;
      CountAppend(a, b0);
    } else {
      assert a + b == a;
    }
  }

  lemma {:induction false} CountEntryLines(bs: seq<BrokenLink>)
    ensures CountEntries(EntryLines(bs)) == |bs|
  {
    if bs != [] {
      var b := bs[|bs| - 1];
      var last := EntryLine(b);
      CountEntryLines(bs[..|bs| - 1]);
      CountAppend(EntryLines(bs[..|bs| - 1]), [last]);
      assert [last][..0] == [];
      EntryLineStarts(b);
    }
  }

  lemma EntryLineStarts(b: BrokenLink)
    ensures StartsWith(EntryLine(b), EntryPrefix)
  {
    var t := EntryLine(b);
    assert t == EntryPrefix + (NatToString(b.line) + ": \"" + b.labelText + "\" -> " + b.href);
  }

  /** The total equals the number of entry lines printed above it. */
  lemma {:induction false} TotalCountsEntries(reps: seq<FileReport>)
    ensures CountEntries(Logs(reps)) == Total(reps)
  {
    if reps != [] {
      var init := reps[..|reps| - 1];
      var rep := reps[|reps| - 1];
      TotalCountsEntries(init);
      CountAppend(Logs(init), FileLines(rep));
      if rep.broken != [] {
        var head := ["\n" + rep.rel];
        CountAppend(head, EntryLines(rep.broken));
        CountEntryLines(rep.broken);
        assert head[..0] == [];
        assert head[0][0] == '\n' && EntryPrefix[0] == ' ';
        assert CountEntries(head) == 0;
      }
    }
  }

  /** The line number can be read back from an entry line: the digits
      after the prefix, up to the first colon. */
  lemma EntryLineNumber(b: BrokenLink)
    ensures DecimalValue(Before(EntryLine(b)[|EntryPrefix|..], ':')) == b.line
  {
    var d := NatToString(b.line);
    var rest := " \"" + b.labelText + "\" -> " + b.href;
    var t := EntryLine(b);
    assert t == EntryPrefix + (d + [':'] + rest);
    assert t[|EntryPrefix|..] == d + [':'] + rest;
    NatToStringDigits(b.line);
    assert ':' !in d by {
      forall k | 0 <= k < |d| ensures d[k] != ':' { assert IsDigit(d[k]); }
    }
    BeforeFirst(d, ':', rest);
    DecimalRoundTrip(b.line);
  }
}
