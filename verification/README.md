# hotfilefinder, modelled in Dafny

`hotfilefinder` ranks the files of a git repository by *hotness*: the number
of lines added plus removed over the history, not counting the lines of a
file's creation. Changes made before a file was last deleted do not count
either. It reads `git log --summary --numstat --format=format:`, and that log
is a list of lines:

- blank lines separate commits, newest first;
- numstat lines have the form `added<TAB>removed<TAB>path`, with `-` as both
  counts for a binary file;
- summary lines look like ` create mode 100644 path` or
  ` delete mode 100644 path`.

`crappyfilefinder` is the earlier version of the tool. It reads plain
`--numstat` output. Within one commit, a later line for a path replaces an
earlier one. The per-commit sizes are then summed across commits.

This project models the pure core of both versions. That core has four
steps:

- grouping the log into commit records;
- parsing each record into a map from path to size;
- combining the maps;
- the pipeline that joins those steps.

The later version replays commits oldest first. A size of `-1` marks a
deletion and wipes that path's running total. A ` create` line removes the
counts that earlier lines of the same record gave the path.

Modules:

- `Results` holds `Option`, `Result` and `MapAll`. `MapAll` models a list
  comprehension whose element function may raise.
- `Text` models `str.split` with and without a limit, and Python 2's
  `int()` on a byte string: surrounding whitespace, an optional sign, which
  whitespace may follow, then ASCII digits. Those are the only digits `int()` accepts there.
- `Grouping` models `_group_into_commits`, which is identical in both
  versions. It has two forms, the corrected one and the one as written (see
  Findings).
- `Tally` models the `defaultdict(int)` lookup and per-path sums over a
  sequence of maps.
- `LogLines` classifies one record line the way the branches of
  `_parse_commit_change_size` do.
- `HotFileFinder` covers parsing, combining and `calculate_hotness` of the
  later version.
- `CrappyFileFinder` covers the same steps for the earlier version.
- `Versions` shows that the two versions agree on logs in which every
  content line is a numstat line with integer, non-negative counts. Such
  logs have no summary lines and no binary files. On a log where both
  versions fail, they need not report the same error. The
  later version parses the oldest record first and the earlier one the
  newest, so each reports the first bad line in its own order.
- `Scenarios` states the result of whole runs on small histories. The
  counts are arbitrary, the path holds no tab and the file mode holds no
  space. One scenario is the example from the tool's own description.

`_group_into_commits` starts from `commit = None`, so a non-blank first
log line raises `AttributeError`; see Findings. Both pipelines are modelled
twice:

- `CalculateHotness` uses the corrected grouping;
- `CalculateHotnessAsWritten` uses the loop as written.

`HotnessAsWrittenAgrees` shows the two differ only on a log whose first
line is a content line. The pipeline lemmas are stated about
`CalculateHotness`.

## Model

| member | source | states |
|---|---|---|
| Results.MapAll | hotfilefinder/__init__.py:26 | building the list of parsed commits succeeds exactly when every commit parses; the values match element by element, in order; on failure the error is that of the first commit that fails |
| Grouping.Group | hotfilefinder/__init__.py:48-58 | every record is non-empty and has no blank line; concatenated, the records are exactly the log's non-blank lines, in order |
| Grouping.GroupRender | crappyfilefinder/__init__.py:24-34 | grouping inverts rendering: records written out with a blank line before each are read back unchanged |
| Grouping.GroupAllBlank | hotfilefinder/__init__.py:51-54 | an empty or all-blank log yields no records, because an empty `commit` is never yielded |
| Grouping.GroupCollapsesBlanks | hotfilefinder/__init__.py:51-54 | a second blank line in a row adds no record |
| Grouping.GroupTrailingRun | hotfilefinder/__init__.py:57-58 | content lines after the last blank line, with no closing blank line, still form the last record |
| Grouping.GroupedLines | hotfilefinder/__init__.py:50-56 | a line lies in some record exactly when it is a non-blank line of the log: grouping neither drops nor invents lines |
| Grouping.GroupAsWrittenAgrees | hotfilefinder/__init__.py:49-56 | the loop as written fails with `NoOpenRecord` exactly when the first log line is non-blank; otherwise it gives the corrected grouping |
| HotFileFinder.HotnessAsWrittenAgrees | hotfilefinder/__init__.py:22-28 | `calculate_hotness` with the grouping loop as written fails with `NoOpenRecord` on a log whose first line is a content line, and otherwise gives the same result as the corrected pipeline; so it fails exactly when the first line is a content line or some content line is malformed |
| CrappyFileFinder.HotnessAsWrittenAgrees | crappyfilefinder/__init__.py:57-61 | the same for the earlier version: a content line first fails; any other log gives the corrected pipeline's result; so it fails exactly when the first line is a content line or some content line is not a numstat line with integer counts |
| Grouping.LeadingLineRejectedAsWritten | hotfilefinder/__init__.py:49-56 | on the log `["3\t2\ta.py"]` the code as written fails, while the corrected grouping gives the single record `["3\t2\ta.py"]` |
| Text.SplitJoin | hotfilefinder/__init__.py:83 | splitting on a separator undoes joining fields that do not contain it, so a line built from three tab-free fields splits back into those three fields |
| Text.ParseIntShowNat | hotfilefinder/__init__.py:90 | `int()` reads back the decimal form of any natural number, and of its negation |
| Text.ParseIntRejectsDash | crappyfilefinder/__init__.py:40 | `int('-')` and `int('')` fail |
| LogLines.ClassifyDeleteLine | hotfilefinder/__init__.py:72-74 | a ` delete mode <mode> <path>` line marks the whole path, spaces included, as deleted |
| LogLines.ClassifyCreateLine | hotfilefinder/__init__.py:75-78 | a ` create mode <mode> <path>` line names the whole path, spaces included, as created |
| LogLines.ClassifyNumStatLine | hotfilefinder/__init__.py:82-90 | the numstat line git prints for counts `a` and `r` and a tab-free path is read as exactly those counts and that path |
| LogLines.ClassifyBinaryLine | hotfilefinder/__init__.py:87-89 | the `-<TAB>-<TAB>path` line of a binary file is recognised as binary and is not an error |
| LogLines.ClassifyOtherSummary | hotfilefinder/__init__.py:82-86 | a line with no tab and none of the three summary prefixes, such as a rename summary, fails the tuple unpacking |
| HotFileFinder.ApplyLine | hotfilefinder/__init__.py:71-90 | after one line: a deleted path reads `-1`; a created path is absent; a numstat path reads added plus removed; every other path is unchanged |
| HotFileFinder.ParseWithFails | hotfilefinder/__init__.py:82-86 | parsing a record fails exactly when some line is malformed; the error carries the first malformed line |
| HotFileFinder.ParseWithLastWriter | hotfilefinder/__init__.py:70-91 | a path no line touches is absent from the record's map; otherwise its entry is the one the last touching line leaves |
| HotFileFinder.ParseWithSkipsInert | hotfilefinder/__init__.py:79-80 | a mode-change or binary line anywhere in a record changes nothing in the result |
| HotFileFinder.ParseWithWellFormed | hotfilefinder/__init__.py:68-91 | with non-negative counts, a record's map holds only `-1` markers and non-negative sizes |
| HotFileFinder.ApplyItemsIsMerge | hotfilefinder/__init__.py:95-101 | folding a commit's entries in any enumeration order gives the same map: the order of `iteritems` does not matter |
| HotFileFinder.CombineForgetsBeforeDelete | hotfilefinder/__init__.py:97-99 | once a commit marks a path deleted, the combined total for that path is the same as if every earlier commit were left out |
| HotFileFinder.CombineWithoutDeletes | hotfilefinder/__init__.py:100-101 | for a path never marked deleted, the path is in the totals exactly when some commit mentions it, and its total is the sum of its sizes |
| HotFileFinder.CombineNonNegative | hotfilefinder/__init__.py:93-102 | combining maps that hold only `-1` markers and non-negative sizes gives non-negative totals |
| HotFileFinder.CombineOrderIndependent | hotfilefinder/__init__.py:93-102 | without deletion markers, combining any permutation of the commits gives the same totals |
| HotFileFinder.ReversedPermutes | hotfilefinder/__init__.py:25 | reversing the commit list keeps the same commits |
| HotFileFinder.HotnessFailsIff | hotfilefinder/__init__.py:22-28 | a run fails exactly when some non-blank log line is malformed; reversing does not change whether the run fails |
| HotFileFinder.HotnessReplaysOldestFirst | hotfilefinder/__init__.py:24-27 | a successful run combines the commits' maps oldest first, the reverse of log order |
| HotFileFinder.HotnessNonNegative | hotfilefinder/__init__.py:22-28 | on a log whose counts are non-negative, every hotness a successful run reports is non-negative |
| HotFileFinder.ReplayForgetsOlderCommits | hotfilefinder/__init__.py:24-25 | if log commit `i` deletes a path, that path's hotness depends only on the newer commits `0..i-1` |
| CrappyFileFinder.ParseWithFails | crappyfilefinder/__init__.py:38-40 | parsing a record fails exactly when some line cannot be read as three fields with integer counts; the error carries the first such line |
| CrappyFileFinder.ParseWithKeys | crappyfilefinder/__init__.py:36-41 | a path is in the record's map exactly when some line names it |
| CrappyFileFinder.ParseWithLastWriter | crappyfilefinder/__init__.py:38-40 | a path's entry is the size given by the last line that names it |
| CrappyFileFinder.ParseWithNonNegative | crappyfilefinder/__init__.py:36-41 | non-negative line sizes give a map with non-negative entries |
| CrappyFileFinder.AddItemsIsAdd | crappyfilefinder/__init__.py:45-47 | adding a commit's entries in any enumeration order gives the same map |
| CrappyFileFinder.CombineSums | crappyfilefinder/__init__.py:43-48 | a path is in the totals exactly when some commit mentions it, and its total is the sum of its sizes over all commits |
| CrappyFileFinder.CombineOrderIndependent | crappyfilefinder/__init__.py:43-48 | combining any permutation of the commits gives the same totals |
| CrappyFileFinder.CombineNonNegative | crappyfilefinder/__init__.py:43-48 | non-negative sizes give non-negative totals |
| CrappyFileFinder.HotnessFailsIff | crappyfilefinder/__init__.py:50-61 | a run fails exactly when some non-blank log line cannot be read as a numstat line with integer counts |
| CrappyFileFinder.HotnessIsSum | crappyfilefinder/__init__.py:57-61 | a run whose records all parse succeeds; a path is reported exactly when some commit mentions it, with the sum of its sizes as its hotness |
| CrappyFileFinder.HotnessNonNegative | crappyfilefinder/__init__.py:50-61 | on a log whose sizes are non-negative, every hotness a successful run reports is non-negative |
| Versions.ReadersAgreeOnNumStat | crappyfilefinder/__init__.py:39-40 | the earlier version reads any numstat line with integer counts as its path and added plus removed, as the later one does |
| Versions.BinaryLineFatalForCrappy | crappyfilefinder/__init__.py:40 | a binary file's `-` counts, which the later version skips, end the earlier version's run |
| Versions.TablessLineFatalForCrappy | crappyfilefinder/__init__.py:39 | a line with no tab, such as any summary line, ends the earlier version's run |
| Versions.ParsersAgree | hotfilefinder/__init__.py:82-90 | on a record of numstat lines with non-negative counts, both versions' parsers succeed with the same map |
| Versions.CombineAgrees | hotfilefinder/__init__.py:93-102 | without deletion markers, the later version's combine equals the earlier version's plain sum |
| Versions.ReplayIsSum | hotfilefinder/__init__.py:24-27 | without deletion markers, replaying oldest first gives the same totals as summing in log order |
| Versions.VersionsAgree | crappyfilefinder/__init__.py:50-61 | on a log of plain numstat lines with non-negative counts, both versions succeed and report the same hotness |
| Scenarios.CreationNotCounted | hotfilefinder/__init__.py:8-10 | a file created with `c` lines and then changed by `a` added and `r` removed lines has hotness `a + r`; the creation does not count |
| Scenarios.CreateLineOrderMatters | hotfilefinder/__init__.py:75-78 | a ` create` line removes only what earlier lines of its own record put there: after the numstat line it leaves nothing, and before it the count stands |
| Scenarios.DeletionForgetsHistory | hotfilefinder/__init__.py:24-25 | a file changed and then deleted has no hotness; combining in log order instead would let the older change survive |
| Scenarios.HotDeletion | hotfilefinder/__init__.py:72-74 | a record of a deleted file's numstat line followed by its ` delete` line parses to the `-1` marker |

## Left out

- `_get_git_log` (both versions) is left out. It launches `git`,
  right-strips each line with `rstrip()` and raises when git exits
  non-zero. The model takes the already right-stripped log as its input.
- The `since`, `until` and `path` arguments are only passed through to
  `git`, so the model leaves them out.
- `_process_args` and the `__main__` blocks are left out. They parse
  arguments, sort by hotness, truncate to `-n` results and print. This is
  I/O and presentation, not scoring.
- The debug `print` of the failing commit before the re-raise
  (`hotfilefinder/__init__.py:85`) is left out. The model still returns
  the failure, carrying the offending line.
- `Combine` in both versions is a left fold over a commit's map as a whole.
  The per-entry order of `iteritems` is covered separately by
  `ApplyItemsIsMerge` and `AddItemsIsAdd`.
- Generators and the lazy `reversed` are modelled as the lists they
  produce. The grouping loop can fail only on the log's first line, before
  any record is parsed, so laziness does not change which failure comes
  first.
- HotFileFinder.CalculateHotness and CrappyFileFinder.CalculateHotness use
  the corrected grouping. They agree with the code only on logs that are
  empty or start with a blank line (`HotnessAsWrittenAgrees`). The
  `CalculateHotnessAsWritten` functions model the crash.
- `Scenarios` has no end-to-end run of the earlier version on the
  description's example. The earlier version never sees summary lines, so
  there the example is just a plain sum, which `CrappyFileFinder.HotnessIsSum`
  covers.
- `setup.py` is packaging only.

## Findings

| source | as written | input that shows it | evidently intended | confidence | as-written member | corrected member |
|---|---|---|---|---|---|---|
| hotfilefinder/__init__.py:48-58 (same in crappyfilefinder/__init__.py:24-34) | `commit` starts as `None`, so a non-blank first log line calls `append` on `None` and the run raises | the log `["3\t2\ta.py"]` | a record is open from the start of the log, so the first line joins it | not executed; medium (the code as written and the corrected model agree on every log whose first line is blank) | Grouping.LeadingLineRejectedAsWritten | Grouping.Group |
