# A verified model of the relative-link checker

`scripts/broken-links.js` checks the relative links in a tree of Markdown
documents:

1. It walks the tree from the repository root. Entries named `.git`, `_site` or `node_modules` are skipped, and every regular file ending in `.md` is collected.
2. It sorts the collected paths.
3. For each file, it splits the text into lines and scans every line for `[label](target)` with a global regular expression.
4. It skips targets that are empty, external (`//`, `http://`, `https://`, `mailto:`, `tel:`) or anchor-only (`#`).
5. It strips the fragment and resolves the rest against the document's directory with `path.join` and `path.normalize`.
6. It records the link as broken when `fs.existsSync` fails.
7. Finally it prints one section per file with broken links and a summary line, and sets the exit code to 1 when anything was broken.

This project models that pipeline in Dafny and proves what it promises.

The model has one module per stage:

| module | file | what it holds |
|---|---|---|
| `Text` | text.dfy | ECMAScript `trim`, `split` on a character, `split(c, 1)[0]`, `join`, decimal rendering of numbers, and the order `Array.prototype.sort` uses on strings |
| `Paths` | paths.dfy | the POSIX `path` functions the script uses (`normalize`, `join`, `dirname`, `relative`), on absolute paths kept as lists of components |
| `PathOrder` | order.dfy | the order `files.sort()` puts paths in |
| `LinkScan` | linkscan.dfy | a dedicated scanner for the fixed pattern `/\[([^\]]+)\]\(([^)]+)\)/g`, and the global regular-expression object as a class whose only state is `lastIndex` |
| `Walker` | walker.dfy | `walk`, over a directory listing given as a tree value, pushing into a `FileList` object |
| `Checker` | checker.dfy | `isExternal` and `checkFile`: line splitting, the `forEach`/`while (exec)` loops, classification, resolution and the existence test |
| `Driver` | driver.dfy | `main`: sort, the loop over files with the running total, the console lines, and the exit code |

The code is imperative where the source is:

- `walk`, `checkFile`, its per-line callback, the `exec` loop and `main` are methods with loops.
- Those methods are proved against specification functions: `Collected`, `Report`, `LineBroken`, `Expected`.
- Lemmas state what those functions mean, independently of how they are computed.

The filesystem is an abstract value with three parts:

- the set of existing paths;
- the directories among them;
- a map from readable files to their text.

The console is modelled as the list of strings passed to `console.log`. The run's result is either `Completed(log, exitCode)` or `ReadFailed(log, path)`. The latter is the uncaught exception of `readFileSync`, with the lines printed before it.

Three behaviours of the script are easy to miss; the model follows the code:

- **Ignored names.** They are tested before the entry type (scripts/broken-links.js:12), so a regular file named `_site` is skipped as well, not only directories.
- **Unreadable file.** It ends the run with an uncaught exception. No distinct exit code is modelled.
- **Trailing separator.** A target that exists counts as present even when it is a directory. When the base (the part of the target before the first `#`) ends in `/` and resolves to a path other than the filesystem root `/`, that path must be a directory, wherever it lies: for a regular file POSIX `stat` fails with `ENOTDIR`, so the link is broken. A trailing `/` after the `#`, or on a base that resolves to `/`, imposes nothing. The repository root is no exception: `[x](./)` in a top-level document is broken unless the repository root is among the directories. `Checker.BrokenIff` states exactly this.

## Model

| member | source | states |
|---|---|---|
| `Text.TrimStartSpec` | scripts/broken-links.js:35-36 | the leading part `trim` removes is all whitespace and is the longest such prefix |
| `Text.TrimEndSpec` | scripts/broken-links.js:35-36 | the trailing part removed is all whitespace and is the longest such suffix |
| `Text.TrimSlice` | scripts/broken-links.js:35-36 | the trimmed label or target is a contiguous slice of the group, with only whitespace around it |
| `Text.TrimTight` | scripts/broken-links.js:35-36 | the trimmed text neither starts nor ends with whitespace |
| `Text.TrimOfPadded` | scripts/broken-links.js:35-36 | trimming whitespace around a tight core gives exactly that core |
| `Text.TrimStartOfPadded` | scripts/broken-links.js:35-36 | stripping the start of a whitespace run followed by non-whitespace leaves the rest |
| `Text.TrimEndOfPadded` | scripts/broken-links.js:35-36 | stripping the end of text followed by a whitespace run leaves the text |
| `Text.TrimIdempotent` | scripts/broken-links.js:35-36 | trimming twice is trimming once |
| `Text.IndexOf` | scripts/broken-links.js:38 | the position found holds the character searched for |
| `Text.IndexOfSpec` | scripts/broken-links.js:38 | no earlier position holds that character |
| `Text.Before` | scripts/broken-links.js:38 | `href.split('#', 1)[0]` is a prefix of `href` without `#`, followed in `href` by `#` unless it is all of `href` |
| `Text.BeforeFirst` | scripts/broken-links.js:38 | the part before the first `#` does not depend on what follows it |
| `Text.SplitOn` | scripts/broken-links.js:29 | a split always yields at least one piece |
| `Text.SplitOnPieces` | scripts/broken-links.js:29 | no piece of a split holds the separator |
| `Text.SplitWithout` | scripts/broken-links.js:29 | a string without the separator splits into itself alone |
| `Text.SplitConcat` | scripts/broken-links.js:29 | splitting around one separator splits each side and concatenates the pieces |
| `Text.JoinSplit` | scripts/broken-links.js:29 | joining the pieces of a split with the separator gives the text back |
| `Text.SplitJoin` | scripts/broken-links.js:29 | splitting a join of separator-free pieces gives the pieces back |
| `Text.NatToString` | scripts/broken-links.js:63 | a rendered number has at least one character |
| `Text.NatToStringDigits` | scripts/broken-links.js:63 | the rendering is all decimal digits, with no leading zero except for 0 itself |
| `Text.DecimalRoundTrip` | scripts/broken-links.js:63 | reading the rendered digits back gives the number |
| `Text.LexTotal` | scripts/broken-links.js:55 | any two strings are comparable in the sort order |
| `Text.LexTransitive` | scripts/broken-links.js:55 | the sort order is transitive |
| `Text.LexAntisymmetric` | scripts/broken-links.js:55 | two strings each no later than the other are equal |
| `Paths.ParseCanonical` | scripts/broken-links.js:40 | `path.normalize` leaves no empty, `.` or `..` component, and `/` itself gets no trailing separator |
| `Paths.Render` | scripts/broken-links.js:40 | a normalised path is written as an absolute path |
| `Paths.Normalize` | scripts/broken-links.js:40 | normalising an absolute path gives an absolute path |
| `Paths.Join` | scripts/broken-links.js:13 | joining onto an absolute directory gives an absolute path |
| `Paths.Dirname` | scripts/broken-links.js:40 | `path.dirname` of a file is its path without the last component |
| `Paths.ResolveConcat` | scripts/broken-links.js:40 | resolving two lists of components one after the other resolves their concatenation |
| `Paths.ResolveKeepsWellFormed` | scripts/broken-links.js:40 | resolving separator-free components keeps a normalised path normalised |
| `Paths.ResolveWellFormed` | scripts/broken-links.js:40 | normal components are appended unchanged |
| `Paths.ResolveStaysBelow` | scripts/broken-links.js:40 | without a `..` component, resolution never leaves the starting directory |
| `Paths.ParseRender` | scripts/broken-links.js:40 | normalising the string of a normalised path gives the same path |
| `Paths.NormalizeIdempotent` | scripts/broken-links.js:40 | `path.normalize` is idempotent, so the outer `normalize` around `path.join` changes nothing |
| `Paths.SplitUnder` | scripts/broken-links.js:40 | the components of a walked directory followed by a relative part are the directory acted on by the part's components |
| `Paths.JoinComponents` | scripts/broken-links.js:40 | `path.join(dir, rel)` normalises to the directory acted on by `rel`'s components, keeping `rel`'s trailing separator unless the result is `/` |
| `Paths.JoinSegment` | scripts/broken-links.js:13 | `path.join(dir, entry.name)` appends the name as one component |
| `Paths.JoinLeadingSlash` | scripts/broken-links.js:40 | `path.join` treats a target starting with `/` as relative to the directory, not as absolute |
| `Paths.DoubleSlashComponents` | scripts/broken-links.js:40 | an empty component between two separators is dropped by normalisation |
| `Paths.RelativeJoin` | scripts/broken-links.js:27 | `path.relative(root, file)` splits at `/` into exactly the components of `file` below the root, and joining it back onto the root gives `file` |
| `Paths.JoinedComponents` | scripts/broken-links.js:27 | proper components joined with `/` form a non-empty path without a trailing separator that splits back into them |
| `PathOrder.InsertPermutes` | scripts/broken-links.js:55 | inserting a path into a list adds exactly that path |
| `PathOrder.InsertOrdered` | scripts/broken-links.js:55 | inserting into an ordered list keeps it ordered |
| `PathOrder.SortPathsSpec` | scripts/broken-links.js:55 | the sort yields the same paths, as a multiset, in ascending string order |
| `Walker.FileList.constructor` | scripts/broken-links.js:51 | `walk` starts from an empty array |
| `Walker.FileList.Push` | scripts/broken-links.js:17 | `acc.push(full)` appends exactly one path |
| `Walker.FileList.Sort` | scripts/broken-links.js:55 | `files.sort()` leaves the same paths in ascending order of their strings |
| `Walker.Walk` | scripts/broken-links.js:9-20 | the walk appends exactly the paths `Collected` describes, after what the list already held |
| `Walker.CollectedIff` | scripts/broken-links.js:9-20 | a path is collected exactly when it lies below the directory and leads, through entries that are not ignored, to a Markdown regular file |
| `Walker.EntryIff` | scripts/broken-links.js:11-18 | the same, for one entry of a listing |
| `Walker.BelowStep` | scripts/broken-links.js:13-15 | being below `dir/name` is being below `dir` with `name` as the next component |
| `Walker.ReachesLast` | scripts/broken-links.js:11 | a path is reached through a listing exactly when it is reached through its earlier entries or its last one |
| `Walker.ReachesShape` | scripts/broken-links.js:6-19 | a reached path ends in a name ending in `.md`, and none of its components is an ignored name |
| `Walker.CollectedShape` | scripts/broken-links.js:6-19 | every collected path lies strictly below the root, names a `.md` file, and has no ignored component below the root |
| `Walker.CollectedWellFormed` | scripts/broken-links.js:13 | walking a real listing from a normalised root yields normalised paths |
| `LinkScan.Find` | scripts/broken-links.js:7 | the search for `]` or `)` stops at that character or at the end |
| `LinkScan.FindSpec` | scripts/broken-links.js:7 | nothing before where the search stops is that character |
| `LinkScan.MatchAt` | scripts/broken-links.js:7 | a match at a position starts there and ends within the text |
| `LinkScan.MatchAtIff` | scripts/broken-links.js:7 | the pattern matches at a position exactly when the text there is `[L](T)` with `L` non-empty and free of `]` and `T` non-empty and free of `)`, and the groups are `L` and `T` |
| `LinkScan.MatchIsLink` | scripts/broken-links.js:7 | every match of the pattern is a `[L](T)` occurrence |
| `LinkScan.LinkIsMatch` | scripts/broken-links.js:7 | every `[L](T)` occurrence is a match of the pattern at its position |
| `LinkScan.LaidOutIff` | scripts/broken-links.js:7 | the character-by-character shape of a link is the same as the text being `"[" + L + "](" + T + ")"` |
| `LinkScan.FoundIsLink` | scripts/broken-links.js:7 | brackets at the places the two searches stop delimit a link |
| `LinkScan.FindFrom` | scripts/broken-links.js:34 | one `exec` from `lastIndex` returns a match at or after it |
| `LinkScan.FindFromLeftmost` | scripts/broken-links.js:34 | that match is leftmost: the pattern matches nowhere between `lastIndex` and it, nor anywhere from `lastIndex` when `exec` returns null |
| `LinkScan.ScanLinks` | scripts/broken-links.js:34-36 | every match the loop sees on a line is a `[L](T)` occurrence at or after where the scan began |
| `LinkScan.ScanOrdered` | scripts/broken-links.js:34 | the matches come left to right without overlapping |
| `LinkScan.ScanIncreasing` | scripts/broken-links.js:34 | every match the loop sees ends no later than any later match starts |
| `LinkScan.ScanCovers` | scripts/broken-links.js:34 | no occurrence is skipped: every place where the pattern would match lies inside a reported match |
| `LinkScan.LinkRegex.constructor` | scripts/broken-links.js:7 | a fresh global regular expression starts with `lastIndex` at 0 |
| `LinkScan.LinkRegex.Exec` | scripts/broken-links.js:34 | `exec` returns the leftmost match from `lastIndex`, and moves `lastIndex` past it or resets it to 0 on null |
| `Checker.Unterminate` | scripts/broken-links.js:29 | dropping the `\r` before each `\n` keeps the number of lines |
| `Checker.UnterminateAt` | scripts/broken-links.js:29 | every line but the last loses one trailing `\r`, and the last is unchanged |
| `Checker.SplitLines` | scripts/broken-links.js:29 | `text.split(/\r?\n/)` gives at least one line |
| `Checker.SplitLinesNoNewline` | scripts/broken-links.js:29 | no line holds a line feed |
| `Checker.GlueJoin` | scripts/broken-links.js:29 | gluing the lines with the separators they had is joining the raw pieces with `\n` |
| `Checker.SplitLinesRoundTrip` | scripts/broken-links.js:29 | the text is its lines joined by their `\r\n` or `\n` separators, and a line before a bare `\n` does not end in `\r` |
| `Checker.TerminatorsAt` | scripts/broken-links.js:29 | a separator is `\r\n` exactly when the piece before it ends in `\r` |
| `Checker.IsExternalIff` | scripts/broken-links.js:22-24 | `isExternal(t)` holds exactly when `t` starts with `//`, `http://`, `https://`, `#`, `mailto:` or `tel:` |
| `Checker.TargetPath` | scripts/broken-links.js:40 | the resolved target is an absolute path |
| `Checker.PrefixThroughBase` | scripts/broken-links.js:38 | a prefix without `#` is seen the same in a target and in its base |
| `Checker.SkippedThroughBase` | scripts/broken-links.js:37-38 | a target is skipped exactly when its non-empty base would be |
| `Checker.FragmentInsensitive` | scripts/broken-links.js:38-42 | two targets with the same part before the first `#` get the same verdict |
| `Checker.TargetComponents` | scripts/broken-links.js:40 | the tested path is the document's directory acted on by the base's components; it depends on nothing else and is normalised |
| `Checker.BrokenIff` | scripts/broken-links.js:40-42 | an internal target is broken exactly when its resolved components do not exist, or its base ends in `/`, resolves to a path other than `/` and is not a directory |
| `Checker.CheckFile` | scripts/broken-links.js:26-48 | `checkFile` returns the report `Report` describes for a readable file, fails for an unreadable one, and leaves `lastIndex` at 0 |
| `Checker.EachLine` | scripts/broken-links.js:32-45 | the callback for line `idx` appends, on line `idx + 1`, the entries of the line's matches in scan order, and `lastIndex` is back to 0 |
| `Checker.Visit` | scripts/broken-links.js:35-43 | one turn of the `while (exec)` loop appends the match's entry exactly when its verdict is broken |
| `Checker.BaseNonEmpty` | scripts/broken-links.js:37-39 | a target that gets past the first `continue` has a non-empty base, so the second `continue` is never taken |
| `Checker.LineBrokenIff` | scripts/broken-links.js:34-44 | the entries of a line are exactly the candidates of its matches whose targets are broken |
| `Checker.LineBrokenSound` | scripts/broken-links.js:34-44 | every entry of a line comes from one of its matches and has a broken target |
| `Checker.LineBrokenComplete` | scripts/broken-links.js:34-44 | every match with a broken target has its entry |
| `Checker.LineBrokenOnLine` | scripts/broken-links.js:42 | every entry of a line carries that line's number |
| `Checker.PickedSpec` | scripts/broken-links.js:34-43 | the positions of the matches with broken targets are listed in ascending order, and a position is listed exactly when its match has a broken target |
| `Checker.LineBrokenPicked` | scripts/broken-links.js:34-43 | the `k`-th entry of a line is the trimmed label and target of its `k`-th match with a broken target, so entries keep match order and repeated links give repeated entries |
| `Checker.LineEntriesInOrder` | scripts/broken-links.js:32-44 | on one line, the entries are the candidates of the matches with broken targets, each once, in strictly left-to-right order of their positions in the line |
| `Checker.LinesBrokenOrdered` | scripts/broken-links.js:32-45 | within a document, entries have line numbers in `1..n` in ascending order |
| `Checker.LinesBrokenIff` | scripts/broken-links.js:32-45 | the entries of the first `n` lines are exactly those of each line `1..n` |
| `Checker.LinesEntryIff` | scripts/broken-links.js:32-45 | those entries are exactly the candidates of the lines' matches whose targets are broken |
| `Checker.ReportIff` | scripts/broken-links.js:26-48 | an entry is in a document's list exactly when it is the trimmed label and target of a match on one of its lines, numbered from 1, whose target is broken |
| `Checker.ReportOrdered` | scripts/broken-links.js:29-45 | a document's entries are in ascending line order, each between 1 and the number of split lines |
| `Checker.NothingBroken` | scripts/broken-links.js:32-45 | no entries exactly when no line has a match with a broken target |
| `Checker.LineEmptyIff` | scripts/broken-links.js:34-44 | a line adds no entry exactly when none of its matches has a broken target |
| `Checker.ReportEmptyIff` | scripts/broken-links.js:26-48 | a document's list is empty exactly when no match on any line has a broken target |
| `Driver.EntryLines` | scripts/broken-links.js:62-64 | one console line per entry |
| `Driver.Reports` | scripts/broken-links.js:57-58 | one report per file |
| `Driver.ReportsAt` | scripts/broken-links.js:57-58 | the report for the `k`-th file is `checkFile` of that file |
| `Driver.FirstUnreadable` | scripts/broken-links.js:58 | the run stops at a file that cannot be read |
| `Driver.FirstUnreadableSpec` | scripts/broken-links.js:57-58 | every file before it can be read, so it is the first read that throws |
| `Driver.FirstUnreadableAt` | scripts/broken-links.js:57-58 | a file is the first unreadable one when all before it are readable and it is not |
| `Driver.Run` | scripts/broken-links.js:50-73 | `main` checks exactly the walked paths, sorted, and its log, exit code or failure are those `Expected` gives for them |
| `Driver.SortedBelow` | scripts/broken-links.js:52-55 | every sorted path lies below the root |
| `Driver.CheckAll` | scripts/broken-links.js:57-72 | the loop over the sorted files and the closing lines produce `Expected`: the sections of the files with broken links in order, then the summary and the exit code, or the failure at the first unreadable file |
| `Driver.Turn` | scripts/broken-links.js:58-64 | one turn checks the file, adds its count to the total and prints its section, or prints nothing when it has no broken link |
| `Driver.Section` | scripts/broken-links.js:61-64 | a file's section is its relative path after a blank line, then one line per entry in order |
| `Driver.TotalZeroIff` | scripts/broken-links.js:60-67 | `totalBroken` is 0 exactly when every file's list is empty |
| `Driver.LogsEmptyIff` | scripts/broken-links.js:59-64 | nothing is printed for the files exactly when the total is 0 |
| `Driver.EntryLinesIndented` | scripts/broken-links.js:63 | entry lines start with a space |
| `Driver.LogsIndented` | scripts/broken-links.js:61-63 | every line printed for the files starts with a newline or a space |
| `Driver.NotLogged` | scripts/broken-links.js:61-68 | the reassurance line is never one of the per-file lines |
| `Driver.SummaryIff` | scripts/broken-links.js:67-71 | the summary is `No broken relative links found.` exactly when the total is 0 |
| `Driver.OutcomeOf` | scripts/broken-links.js:57-72 | over the reports: exit code 1 exactly when some report is not empty, 0 exactly when all are, the reassurance line exactly when all are, and then it is the only line |
| `Driver.Verdicts` | scripts/broken-links.js:50-73 | a run over readable files completes; it exits with 1 exactly when some file has a broken link, and prints `No broken relative links found.` exactly when none has, as its only line |
| `Driver.CountEntryLines` | scripts/broken-links.js:62-64 | a section has one entry line per broken link |
| `Driver.EntryLineStarts` | scripts/broken-links.js:63 | an entry line starts with `  - line ` |
| `Driver.TotalCountsEntries` | scripts/broken-links.js:60-63 | `totalBroken` equals the number of entry lines printed above the summary |
| `Driver.EntryLineNumber` | scripts/broken-links.js:63 | the line number is read back from an entry line: the digits after the prefix, up to the first colon |

## Left out

- `scripts/github-workflow-demo.js` is not part of this model. It drives a browser against a web site with timers and randomness, and shares no logic with the checker.
- The real filesystem calls (`fs.readdirSync`, `fs.readFileSync`, `fs.existsSync`) are replaced by parameters: a directory tree value and a filesystem value. Failures to list a directory (permissions, a directory removed during the walk) are not modelled.
- The tree and the filesystem value are independent parameters, and the model does not require them to agree.
- The text `readFileSync` decodes as UTF-8 is given as a string. Decoding, byte order marks and invalid byte sequences are not modelled.
- An uncaught `readFileSync` exception ends the run as `ReadFailed` with the path and the lines printed before it. The stack trace Node prints and its exit status are not modelled.
- `console.log` and `process.exitCode` are modelled as the returned list of lines and the exit code.
- The root is a parameter. `path.resolve(__dirname, '..')` at scripts/broken-links.js:5 is not modelled.
- Strings are sequences of Unicode scalar values, while JavaScript strings are UTF-16 code units. `Array.prototype.sort` therefore orders characters above U+FFFF against those in U+E000–U+FFFF differently from the model. `trim` is unaffected, since every whitespace character is a single code unit.
- `PathOrder.SortPathsSpec` describes the result of `files.sort()`, not the engine's sorting algorithm. `Walker.FileList.Sort` replaces the list by its sorted form.
- Only POSIX paths are modelled: `/` separators and no Windows drive letters or `\`.
  - `path.normalize` works only on absolute strings (every path the script builds is absolute).
  - `path.dirname` works only on walked paths with at least one component.
  - `path.relative` only strips the root from a path below it.
- Symbolic links are listed as `Other` entries: a symlink's `Dirent` is neither a directory nor a file, so `walk` ignores it. Whether `existsSync` follows a link is left to the filesystem value.
- Line numbers and `totalBroken` are unbounded integers. JavaScript numbers are exact only up to 2^53.
- The general regular-expression engine is not modelled. Only the fixed link pattern is scanned, by a dedicated matcher.
