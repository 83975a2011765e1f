/** The hotness calculation of `crappyfilefinder`, the earlier version of
    the tool: every record line must be a numstat line with integer counts,
    each commit maps a path to its added plus removed count, and the totals
    are plain sums over all commits, in log order. */
module CrappyFileFinder {
  import opened Results
  import opened Text
  import opened Tally
  import LogLines
  import Grouping

  /** `incr, decr, path = line.split('\t')` followed by
      `int(incr) + int(decr)`: the path and its size, or `None` when the
      unpacking or either conversion raises. */
  function ReadLine(line: string): Option<(string, int)> {
    match LogLines.NumStatFields(line)
    case None => None
    case Some((incr, decr, path)) =>
      match (ParseInt(incr), ParseInt(decr))
      case (Some(a), Some(r)) => Some((path, a + r))
      case _ => None
  }

  /** The line loop of `_parse_commit_change_size`, for a given reading of
      lines: each line sets its path's size, and the first line that cannot
      be read ends the run. */
  function ParseWith(read: string -> Option<(string, int)>, commit: seq<string>): Result<map<string, int>>
    decreases |commit|
  {
    if |commit| == 0 then Ok(map[])
    else
      var n := |commit| - 1;
      var m :- ParseWith(read, commit[..n]);
      var entry := read(commit[n]);
      if entry.None? then Err(MalformedRecord(commit[n]))
      else Ok(m[entry.value.0 := entry.value.1])
  }

  /** `_parse_commit_change_size` on one commit record. */
  function ParseCommit(commit: seq<string>): Result<map<string, int>> {
    ParseWith(ReadLine, commit)
  }

  /** Line `i` is the first line of the record that cannot be read. */
  predicate FirstUnreadable(read: string -> Option<(string, int)>, commit: seq<string>, i: int) {
    && 0 <= i < |commit|
    && read(commit[i]).None?
    && forall j :: 0 <= j < i ==> read(commit[j]).Some?
  }

  /** A record fails exactly when one of its lines cannot be read, and the
      error names the first such line. */
  lemma {:induction false} ParseWithFails(read: string -> Option<(string, int)>, commit: seq<string>)
    ensures ParseWith(read, commit).Err? <==>
      exists i :: 0 <= i < |commit| && read(commit[i]).None?
    ensures ParseWith(read, commit).Err? ==>
      exists i :: FirstUnreadable(read, commit, i) && ParseWith(read, commit).error == MalformedRecord(commit[i])
    decreases |commit|
  {
    if |commit| > 0 {
      var n := |commit| - 1;
      var front := commit[..n];
      ParseWithFails(read, front);
      assert forall j :: 0 <= j < n ==> front[j] == commit[j];
      if ParseWith(read, front).Err? {
        var i :| FirstUnreadable(read, front, i) && ParseWith(read, front).error == MalformedRecord(front[i]);
        assert FirstUnreadable(read, commit, i);
      } else if read(commit[n]).None? {
        assert FirstUnreadable(read, commit, n);
      }
    }
  }

  /** `ParseWithFails` for git's lines. */
  lemma ParseCommitFails(commit: seq<string>)
    ensures ParseCommit(commit).Err? <==>
      exists i :: 0 <= i < |commit| && ReadLine(commit[i]).None?
    ensures ParseCommit(commit).Err? ==>
      exists i :: FirstUnreadable(ReadLine, commit, i) && ParseCommit(commit).error == MalformedRecord(commit[i])
  {
    ParseWithFails(ReadLine, commit);
  }

  /** The line is read as naming path `p`. */
  predicate Names(read: string -> Option<(string, int)>, line: string, p: string) {
    read(line).Some? && read(line).value.0 == p
  }

  /** Line `i` is the last line of the record that names `p`. */
  predicate LastNaming(read: string -> Option<(string, int)>, commit: seq<string>, p: string, i: int) {
    && 0 <= i < |commit|
    && Names(read, commit[i], p)
    && forall j :: i < j < |commit| ==> !Names(read, commit[j], p)
  }

  /** The map of a record holds exactly the paths its lines name. */
  lemma {:induction false} ParseWithKeys(read: string -> Option<(string, int)>, commit: seq<string>, p: string)
    requires ParseWith(read, commit).Ok?
    ensures p in ParseWith(read, commit).value <==> exists i :: 0 <= i < |commit| && Names(read, commit[i], p)
    decreases |commit|
  {
    if |commit| > 0 {
      var n := |commit| - 1;
      var front := commit[..n];
      ParseWithKeys(read, front, p);
      if !Names(read, commit[n], p) && exists i :: 0 <= i < |commit| && Names(read, commit[i], p) {
        var i :| 0 <= i < |commit| && Names(read, commit[i], p);
        assert front[i] == commit[i];
      }
      if exists i :: 0 <= i < n && Names(read, front[i], p) {
        var i :| 0 <= i < n && Names(read, front[i], p);
        assert front[i] == commit[i];
      }
    }
  }

  /** Each path of a record's map holds the size from the last line that
      names it. */
  lemma {:induction false} ParseWithLastWriter(read: string -> Option<(string, int)>, commit: seq<string>, p: string, i: nat)
    requires ParseWith(read, commit).Ok? && LastNaming(read, commit, p, i)
    ensures p in ParseWith(read, commit).value && ParseWith(read, commit).value[p] == read(commit[i]).value.1
    decreases |commit|
  {
    var n := |commit| - 1;
    if i < n {
      var front := commit[..n];
      assert forall j :: i < j < n ==> front[j] == commit[j];
      assert front[i] == commit[i];
      ParseWithLastWriter(read, front, p, i);
    }
  }

  /** Every line of the record that can be read has a non-negative size. */
  predicate SizesNonNegative(read: string -> Option<(string, int)>, commit: seq<string>) {
    forall i :: 0 <= i < |commit| && read(commit[i]).Some? ==> read(commit[i]).value.1 >= 0
  }

  lemma {:induction false} ParseWithNonNegative(read: string -> Option<(string, int)>, commit: seq<string>)
    requires ParseWith(read, commit).Ok? && SizesNonNegative(read, commit)
    ensures forall p :: p in ParseWith(read, commit).value ==> ParseWith(read, commit).value[p] >= 0
    decreases |commit|
  {
    if |commit| > 0 {
      var n := |commit| - 1;
      assert forall j :: 0 <= j < n ==> commit[..n][j] == commit[j];
      ParseWithNonNegative(read, commit[..n]);
    }
  }

  // ---------------------------------------------------------------------
  // Summing the commits

  /** One `(path, value)` item added to the running total. */
  function AddItem(total: map<string, int>, p: string, value: int): map<string, int> {
    total[p := Get(total, p) + value]
  }

  /** The inner loop of `_combine_changes`: a commit's items in the order
      the dictionary yields them. */
  function AddItems(total: map<string, int>, items: seq<(string, int)>): map<string, int>
    decreases |items|
  {
    if |items| == 0 then total
    else AddItems(AddItem(total, items[0].0, items[0].1), items[1..])
  }

  /** One commit's map added to the running total, all paths at once. */
  function Add(total: map<string, int>, delta: map<string, int>): map<string, int> {
    map p | p in total.Keys + delta.Keys :: Get(total, p) + Get(delta, p)
  }

  lemma AddStep(total: map<string, int>, delta: map<string, int>, p: string)
    requires p in delta
    ensures Add(AddItem(total, p, delta[p]), delta - {p}) == Add(total, delta)
  {
  }

  /** Whatever order the dictionary yields a commit's items in, the loop
      ends with the commit's map added to the total. */
  lemma {:induction false} AddItemsIsAdd(total: map<string, int>, delta: map<string, int>, items: seq<(string, int)>)
    requires Enumerates(items, delta)
    ensures AddItems(total, items) == Add(total, delta)
    decreases |items|
  {
    if |items| == 0 {
      assert delta == map[];
      assert Add(total, delta) == total;
    } else {
      var p := items[0].0;
      EnumeratesRest(items, delta);
      AddItemsIsAdd(AddItem(total, p, delta[p]), delta - {p}, items[1..]);
      AddStep(total, delta, p);
    }
  }

  /** `_combine_changes`: the commits' maps added one after another to an
      initially empty total. */
  function Combine(deltas: seq<map<string, int>>): map<string, int>
    decreases |deltas|
  {
    if |deltas| == 0 then map[]
    else Add(Combine(deltas[..|deltas| - 1]), deltas[|deltas| - 1])
  }

  /** A path has a total exactly when some commit mentions it, and the total
      is the sum of its per-commit sizes. */
  lemma {:induction false} CombineSums(deltas: seq<map<string, int>>, p: string)
    ensures p in Combine(deltas) <==> Mentioned(deltas, p)
    ensures p in Combine(deltas) ==> Combine(deltas)[p] == SumOf(deltas, p)
    decreases |deltas|
  {
    if |deltas| > 0 {
      var n := |deltas| - 1;
      assert forall i :: 0 <= i < n ==> deltas[..n][i] == deltas[i];
      CombineSums(deltas[..n], p);
      if p !in Combine(deltas[..n]) {
        SumOfUnmentioned(deltas[..n], p);
      }
    }
  }

  /** The totals do not depend on the order of the commits. */
  lemma CombineOrderIndependent(a: seq<map<string, int>>, b: seq<map<string, int>>)
    requires multiset(a) == multiset(b)
    ensures Combine(a) == Combine(b)
  {
    forall p
      ensures AgreeAt(Combine(a), Combine(b), p)
    {
      CombineSums(a, p);
      CombineSums(b, p);
      MentionedPermutation(a, b, p);
      SumOfPermutation(a, b, p);
    }
    AgreeEverywhere(Combine(a), Combine(b));
  }

  /** With non-negative sizes in every commit, every total is
      non-negative. */
  lemma {:induction false} CombineNonNegative(deltas: seq<map<string, int>>)
    requires forall i, p :: 0 <= i < |deltas| && p in deltas[i] ==> deltas[i][p] >= 0
    ensures forall p :: p in Combine(deltas) ==> Combine(deltas)[p] >= 0
    decreases |deltas|
  {
    if |deltas| > 0 {
      var n := |deltas| - 1;
      assert forall i :: 0 <= i < n ==> deltas[..n][i] == deltas[i];
      CombineNonNegative(deltas[..n]);
    }
  }

  // ---------------------------------------------------------------------
  // The pipeline

  /** `calculate_hotness` on the already collected and right-stripped log
      lines: group into records in log order, parse each, and sum. */
  function CalculateHotness(log: seq<string>): Result<map<string, int>> {
    var changes :- MapAll(ParseCommit, Grouping.Group(log));
    Ok(Combine(changes))
  }

  /** `calculate_hotness` with the grouping loop as written. The list
      comprehension pulls records from the generator one at a time, but the
      loop can only fail on the log's first line, before any record has been
      parsed, so a failure of the grouping comes first. */
  function CalculateHotnessAsWritten(log: seq<string>): Result<map<string, int>> {
    var commits :- Grouping.GroupAsWritten(log);
    var changes :- MapAll(ParseCommit, commits);
    Ok(Combine(changes))
  }

  /** The code as written fails on a log whose first line is a content
      line; on every other log it computes what `CalculateHotness` does.
      So it fails exactly when the first line is a content line or some
      content line cannot be read. */
  lemma HotnessAsWrittenAgrees(log: seq<string>)
    ensures |log| > 0 && !Grouping.IsBlank(log[0]) ==>
      CalculateHotnessAsWritten(log) == Err(NoOpenRecord(log[0]))
    ensures |log| == 0 || Grouping.IsBlank(log[0]) ==>
      CalculateHotnessAsWritten(log) == CalculateHotness(log)
    ensures CalculateHotnessAsWritten(log).Err? <==>
      || (|log| > 0 && !Grouping.IsBlank(log[0]))
      || exists k :: 0 <= k < |log| && !Grouping.IsBlank(log[k]) && ReadLine(log[k]).None?
  {
    Grouping.GroupAsWrittenAgrees(log);
    HotnessFailsIff(log);
  }

  /** A run fails exactly when some content line of the log cannot be read
      as a numstat line with integer counts. */
  lemma HotnessFailsIff(log: seq<string>)
    ensures CalculateHotness(log).Err? <==>
      exists k :: 0 <= k < |log| && !Grouping.IsBlank(log[k]) && ReadLine(log[k]).None?
  {
    if MapAll(ParseCommit, Grouping.Group(log)).Err? {
      FailureHasUnreadableLine(log);
    }
    if exists k :: 0 <= k < |log| && !Grouping.IsBlank(log[k]) && ReadLine(log[k]).None? {
      var k :| 0 <= k < |log| && !Grouping.IsBlank(log[k]) && ReadLine(log[k]).None?;
      UnreadableLineFails(log, k);
    }
  }

  /** A record that fails to parse holds a content line of the log that cannot be read. */
  lemma FailureHasUnreadableLine(log: seq<string>)
    requires MapAll(ParseCommit, Grouping.Group(log)).Err?
    ensures exists k :: 0 <= k < |log| && !Grouping.IsBlank(log[k]) && ReadLine(log[k]).None?
  {
    var groups := Grouping.Group(log);
    var i :| 0 <= i < |groups| && ParseCommit(groups[i]).Err?;
    ParseCommitFails(groups[i]);
    var j :| 0 <= j < |groups[i]| && ReadLine(groups[i][j]).None?;
    Grouping.GroupedLines(log, groups[i][j]);
  }

  /** A content line that cannot be read makes its record fail to parse. */
  lemma UnreadableLineFails(log: seq<string>, k: int)
    requires 0 <= k < |log| && !Grouping.IsBlank(log[k]) && ReadLine(log[k]).None?
    ensures MapAll(ParseCommit, Grouping.Group(log)).Err?
  {
    var groups := Grouping.Group(log);
    Grouping.GroupedLines(log, log[k]);
    var i, j :| 0 <= i < |groups| && 0 <= j < |groups[i]| && groups[i][j] == log[k];
    ParseCommitFails(groups[i]);
  }

  /** A successful run gives each path named in the log the sum, over the
      commits, of the path's size in each commit. */
  lemma HotnessIsSum(log: seq<string>, deltas: seq<map<string, int>>, p: string)
    requires MapAll(ParseCommit, Grouping.Group(log)) == Ok(deltas)
    ensures CalculateHotness(log).Ok?
    ensures p in CalculateHotness(log).value <==> Mentioned(deltas, p)
    ensures p in CalculateHotness(log).value ==> CalculateHotness(log).value[p] == SumOf(deltas, p)
  {
    CombineSums(deltas, p);
  }

  /** When every line of the log that can be read has a non-negative
      size, as every line git prints does, every hotness is non-negative. */
  lemma HotnessNonNegative(log: seq<string>)
    requires SizesNonNegative(ReadLine, log)
    ensures CalculateHotness(log).Ok? ==>
      forall p :: p in CalculateHotness(log).value ==> CalculateHotness(log).value[p] >= 0
  {
    var groups := Grouping.Group(log);
    var r := MapAll(ParseCommit, groups);
    if r.Ok? {
      forall i | 0 <= i < |groups|
        ensures forall p :: p in r.value[i] ==> r.value[i][p] >= 0
      {
        forall j | 0 <= j < |groups[i]| && ReadLine(groups[i][j]).Some?
          ensures ReadLine(groups[i][j]).value.1 >= 0
        {
          Grouping.GroupedLines(log, groups[i][j]);
        }
        ParseWithNonNegative(ReadLine, groups[i]);
      }
      CombineNonNegative(r.value);
    }
  }
}
