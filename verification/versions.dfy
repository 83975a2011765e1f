/** How the two versions of the tool relate: the later one reads every line
    the earlier one reads, in the same way, and also accepts summary lines
    and binary files; without deletions its replay is the earlier one's sum,
    so on a log of plain numstat lines the two give the same hotness. */
module Versions {
  import opened Results
  import opened Tally
  import opened LogLines
  import Text
  import Grouping
  import Hot = HotFileFinder
  import Crappy = CrappyFileFinder

  /** A numstat line with integer counts is read by the earlier version as
      its path and added plus removed count. */
  lemma ReadersAgreeOnNumStat(line: string)
    requires Classify(line).NumStat?
    ensures Crappy.ReadLine(line) == Some((Classify(line).path, Classify(line).added + Classify(line).removed))
  {
  }

  /** A binary file's line, which the later version skips, ends the earlier
      version's run. */
  lemma BinaryLineFatalForCrappy(line: string)
    requires Classify(line).Binary?
    ensures Crappy.ReadLine(line).None?
  {
    Text.ParseIntRejectsDash();
  }

  /** A line with no tab, such as every summary line, ends the earlier
      version's run; that version never asks git for summary lines. */
  lemma TablessLineFatalForCrappy(line: string)
    requires '\t' !in line
    ensures Crappy.ReadLine(line).None?
  {
    Text.SplitJoin([line], '\t');
  }

  /** `hot` reads the line as a numstat line with non-negative counts,
      and `crappy` reads it as that line's path and size. */
  predicate LineReadAlike(hot: string -> LineKind, crappy: string -> Option<(string, int)>, line: string) {
    && hot(line).NumStat?
    && hot(line).added >= 0 && hot(line).removed >= 0
    && crappy(line) == Some((hot(line).path, hot(line).added + hot(line).removed))
  }

  /** Every line of the record is read alike. */
  predicate ReadAlike(hot: string -> LineKind, crappy: string -> Option<(string, int)>, commit: seq<string>) {
    forall i :: 0 <= i < |commit| ==> LineReadAlike(hot, crappy, commit[i])
  }

  /** On such a record both parsers succeed with the same map, and no entry
      of it is the deletion marker. */
  lemma {:induction false} ParsersAgree(hot: string -> LineKind, crappy: string -> Option<(string, int)>, commit: seq<string>)
    requires ReadAlike(hot, crappy, commit)
    ensures Hot.ParseWith(hot, commit).Ok?
    ensures Hot.ParseWith(hot, commit) == Crappy.ParseWith(crappy, commit)
    ensures forall p :: p in Hot.ParseWith(hot, commit).value ==> Hot.ParseWith(hot, commit).value[p] >= 0
    decreases |commit|
  {
    if |commit| > 0 {
      var n := |commit| - 1;
      assert forall j :: 0 <= j < n ==> commit[..n][j] == commit[j];
      ParsersAgree(hot, crappy, commit[..n]);
      var m := Hot.ParseWith(hot, commit[..n]).value;
      var k := hot(commit[n]);
      assert LineReadAlike(hot, crappy, commit[n]);
      assert Hot.ParseWith(hot, commit).value == Hot.ApplyLine(m, k) == m[k.path := k.added + k.removed];
    }
  }

  /** Merging a map with no deletion markers is adding it. */
  lemma MergeIsAdd(total: map<string, int>, delta: map<string, int>)
    requires forall p :: p in delta ==> delta[p] != Hot.Deleted
    ensures Hot.Merge(total, delta) == Crappy.Add(total, delta)
  {
  }

  /** Without deletions, the later version's replay is the earlier
      version's sum. */
  lemma {:induction false} CombineAgrees(deltas: seq<map<string, int>>)
    requires Hot.NoDeletions(deltas)
    ensures Hot.Combine(deltas) == Crappy.Combine(deltas)
    decreases |deltas|
  {
    if |deltas| > 0 {
      var n := |deltas| - 1;
      assert forall i :: 0 <= i < n ==> deltas[..n][i] == deltas[i];
      CombineAgrees(deltas[..n]);
      MergeIsAdd(Hot.Combine(deltas[..n]), deltas[n]);
    }
  }

  /** Every content line of the log is a numstat line with integer,
      non-negative counts: no summary lines and no binary files. */
  predicate PlainNumStat(log: seq<string>) {
    forall k :: 0 <= k < |log| && !Grouping.IsBlank(log[k]) ==>
      Classify(log[k]).NumStat? && Classify(log[k]).added >= 0 && Classify(log[k]).removed >= 0
  }

  lemma PlainLinesReadAlike(log: seq<string>)
    requires PlainNumStat(log)
    ensures forall k :: 0 <= k < |log| && !Grouping.IsBlank(log[k]) ==> LineReadAlike(Classify, Crappy.ReadLine, log[k])
  {
    forall k | 0 <= k < |log| && !Grouping.IsBlank(log[k])
      ensures LineReadAlike(Classify, Crappy.ReadLine, log[k])
    {
      ReadersAgreeOnNumStat(log[k]);
    }
  }

  lemma RecordsReadAlike(log: seq<string>)
    requires forall k :: 0 <= k < |log| && !Grouping.IsBlank(log[k]) ==> LineReadAlike(Classify, Crappy.ReadLine, log[k])
    ensures forall i :: 0 <= i < |Grouping.Group(log)| ==> ReadAlike(Classify, Crappy.ReadLine, Grouping.Group(log)[i])
  {
    var groups := Grouping.Group(log);
    forall i, j | 0 <= i < |groups| && 0 <= j < |groups[i]|
      ensures LineReadAlike(Classify, Crappy.ReadLine, groups[i][j])
    {
      Grouping.GroupedLines(log, groups[i][j]);
    }
  }

  /** On such a log both versions parse every record to the same map. */
  lemma RecordsParseAlike(log: seq<string>)
    requires PlainNumStat(log)
    ensures forall i :: 0 <= i < |Grouping.Group(log)| ==>
      && Hot.ParseCommit(Grouping.Group(log)[i]).Ok?
      && Hot.ParseCommit(Grouping.Group(log)[i]) == Crappy.ParseCommit(Grouping.Group(log)[i])
      && forall p :: p in Hot.ParseCommit(Grouping.Group(log)[i]).value ==> Hot.ParseCommit(Grouping.Group(log)[i]).value[p] >= 0
  {
    var groups := Grouping.Group(log);
    PlainLinesReadAlike(log);
    RecordsReadAlike(log);
    forall i | 0 <= i < |groups|
      ensures Hot.ParseCommit(groups[i]).Ok?
      ensures Hot.ParseCommit(groups[i]) == Crappy.ParseCommit(groups[i])
      ensures forall p :: p in Hot.ParseCommit(groups[i]).value ==> Hot.ParseCommit(groups[i]).value[p] >= 0
    {
      ParsersAgree(Classify, Crappy.ReadLine, groups[i]);
    }
  }

  /** Without deletions, replaying the commits oldest first is summing
      them in log order. */
  lemma ReplayIsSum(deltas: seq<map<string, int>>)
    requires Hot.NoDeletions(deltas)
    ensures Hot.Combine(Hot.Reversed(deltas)) == Crappy.Combine(deltas)
  {
    var rev := Hot.Reversed(deltas);
    assert Hot.NoDeletions(rev);
    CombineAgrees(rev);
    Hot.ReversedPermutes(deltas);
    Crappy.CombineOrderIndependent(rev, deltas);
  }

  /** On a log of plain numstat lines both versions succeed and give the
      same hotness: the replay order only matters through deletions. */
  lemma VersionsAgree(log: seq<string>)
    requires PlainNumStat(log)
    ensures Hot.CalculateHotness(log).Ok?
    ensures Hot.CalculateHotness(log) == Crappy.CalculateHotness(log)
  {
    var groups := Grouping.Group(log);
    RecordsParseAlike(log);
    MapAllCongruent(Hot.ParseCommit, Crappy.ParseCommit, groups);
    var deltas := MapAll(Hot.ParseCommit, groups).value;
    Hot.HotnessReplaysOldestFirst(log, deltas);
    ReplayIsSum(deltas);
  }
}
