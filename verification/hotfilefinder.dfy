/** The hotness calculation of `hotfilefinder`: each commit record becomes a
    map from path to churn, where a deletion is marked with -1 and a creation
    wipes the path; the maps are then replayed oldest first, so that a
    deletion forgets a file's history and a re-created file starts again. */
module HotFileFinder {
  import opened Results
  import opened LogLines
  import opened Tally
  import Grouping

  /** The value a commit's map holds for a file the commit deletes. */
  const Deleted: int := -1

  /** What a commit's map says about `p`, with a missing key kept apart
      from a stored value: inside one commit a ` create` line removes the
      key, which is not the same as storing 0. The running totals are read
      through `Tally.Get`, which gives 0 for a missing key, as
      `defaultdict(int)` does. */
  function Lookup(m: map<string, int>, p: string): Option<int> {
    if p in m then Some(m[p]) else None
  }

  // ---------------------------------------------------------------------
  // One commit record

  /** A line that decides what the commit's map holds for `p`. */
  predicate Touches(k: LineKind, p: string) {
    (k.Delete? || k.Create? || k.NumStat?) && k.path == p
  }

  /** What a touching line leaves in the map for its path: the deletion
      marker, nothing, or the line's added plus removed count. */
  function EntryAfter(k: LineKind): Option<int>
    requires k.Delete? || k.Create? || k.NumStat?
  {
    match k
    case Delete(_) => Some(Deleted)
    case Create(_) => None
    case NumStat(a, r, _) => Some(a + r)
  }

  /** One iteration of the line loop, for a line that does not raise. */
  function ApplyLine(m: map<string, int>, k: LineKind): (m': map<string, int>)
    requires !k.Malformed?
    ensures forall p :: Touches(k, p) ==> Lookup(m', p) == EntryAfter(k)
    ensures forall p :: !Touches(k, p) ==> Lookup(m', p) == Lookup(m, p)
  {
    match k
    case Delete(p) => m[p := Deleted]
    case Create(p) => m - {p}
    case Mode => m
    case Binary(_) => m
    case NumStat(a, r, p) => m[p := a + r]
  }

  /** The line loop of `_parse_commit_change_size`, for a given reading of
      lines: the lines are applied in order to an empty map, and the first
      line read as malformed ends the run. */
  function ParseWith(read: string -> LineKind, commit: seq<string>): Result<map<string, int>>
    decreases |commit|
  {
    if |commit| == 0 then Ok(map[])
    else
      var n := |commit| - 1;
      var m :- ParseWith(read, commit[..n]);
      var k := read(commit[n]);
      if k.Malformed? then Err(MalformedRecord(commit[n])) else Ok(ApplyLine(m, k))
  }

  /** `_parse_commit_change_size` on one commit record. */
  function ParseCommit(commit: seq<string>): Result<map<string, int>> {
    ParseWith(Classify, commit)
  }

  /** Line `i` is the first line of the record read as malformed. */
  predicate FirstMalformed(read: string -> LineKind, commit: seq<string>, i: int) {
    && 0 <= i < |commit|
    && read(commit[i]).Malformed?
    && forall j :: 0 <= j < i ==> !read(commit[j]).Malformed?
  }

  /** A record fails exactly when one of its lines is malformed, and the
      error names the first such line. */
  lemma {:induction false} ParseWithFails(read: string -> LineKind, commit: seq<string>)
    ensures ParseWith(read, commit).Err? <==>
      exists i :: 0 <= i < |commit| && read(commit[i]).Malformed?
    ensures ParseWith(read, commit).Err? ==>
      exists i :: FirstMalformed(read, commit, i) && ParseWith(read, commit).error == MalformedRecord(commit[i])
    decreases |commit|
  {
    if |commit| > 0 {
      var n := |commit| - 1;
      var front := commit[..n];
      ParseWithFails(read, front);
      assert forall j :: 0 <= j < n ==> front[j] == commit[j];
      if ParseWith(read, front).Err? {
        var i :| FirstMalformed(read, front, i) && ParseWith(read, front).error == MalformedRecord(front[i]);
        assert FirstMalformed(read, commit, i);
      } else if read(commit[n]).Malformed? {
        assert FirstMalformed(read, commit, n);
      }
    }
  }

  /** `ParseWithFails` for git's lines. */
  lemma ParseCommitFails(commit: seq<string>)
    ensures ParseCommit(commit).Err? <==>
      exists i :: 0 <= i < |commit| && Classify(commit[i]).Malformed?
    ensures ParseCommit(commit).Err? ==>
      exists i :: FirstMalformed(Classify, commit, i) && ParseCommit(commit).error == MalformedRecord(commit[i])
  {
    ParseWithFails(Classify, commit);
  }

  /** Line `i` is the last line of the record that touches `p`. */
  predicate LastTouch(read: string -> LineKind, commit: seq<string>, p: string, i: int) {
    && 0 <= i < |commit|
    && Touches(read(commit[i]), p)
    && forall j :: i < j < |commit| ==> !Touches(read(commit[j]), p)
  }

  /** The map of a record, path by path: the last line that touches a path
      decides its entry, and a path no line touches has none. */
  lemma {:induction false} ParseWithLastWriter(read: string -> LineKind, commit: seq<string>, p: string)
    requires ParseWith(read, commit).Ok?
    ensures (forall i :: 0 <= i < |commit| ==> !Touches(read(commit[i]), p)) ==>
      p !in ParseWith(read, commit).value
    ensures forall i :: LastTouch(read, commit, p, i) ==>
      Lookup(ParseWith(read, commit).value, p) == EntryAfter(read(commit[i]))
    decreases |commit|
  {
    if |commit| > 0 {
      var n := |commit| - 1;
      var front := commit[..n];
      assert forall j :: 0 <= j < n ==> front[j] == commit[j];
      ParseWithLastWriter(read, front, p);
      var k := read(commit[n]);
      var m := ParseWith(read, front).value;
      assert ParseWith(read, commit).value == ApplyLine(m, k);
      forall i | LastTouch(read, commit, p, i)
        ensures Lookup(ParseWith(read, commit).value, p) == EntryAfter(read(commit[i]))
      {
        if i < n {
          assert !Touches(k, p);
          assert LastTouch(read, front, p, i);
        }
      }
    }
  }

  /** A line read as a mode change or a binary file, wherever it sits in a
      record, changes nothing about the record's map. */
  lemma {:induction false} ParseWithSkipsInert(read: string -> LineKind, xs: seq<string>, line: string, ys: seq<string>)
    requires read(line).Mode? || read(line).Binary?
    ensures ParseWith(read, xs + [line] + ys) == ParseWith(read, xs + ys)
    decreases |ys|
  {
    if |ys| == 0 {
      assert (xs + [line] + ys)[..|xs|] == xs;
      assert xs + ys == xs;
    } else {
      var n := |ys| - 1;
      ParseWithSkipsInert(read, xs, line, ys[..n]);
      InitOfAppend(xs + [line], ys);
      InitOfAppend(xs, ys);
    }
  }

  lemma InitOfAppend(a: seq<string>, b: seq<string>)
    requires |b| > 0
    ensures (a + b)[..|a + b| - 1] == a + b[..|b| - 1]
    ensures (a + b)[|a + b| - 1] == b[|b| - 1]
  {
  }

  /** A map whose every entry is the deletion marker or a count. */
  predicate WellFormed(m: map<string, int>) {
    forall p :: p in m ==> m[p] == Deleted || m[p] >= 0
  }

  /** No line of the record is read as a numstat line with a negative
      count; none that git prints is. */
  predicate CountsNonNegative(read: string -> LineKind, commit: seq<string>) {
    forall i :: 0 <= i < |commit| && read(commit[i]).NumStat? ==>
      read(commit[i]).added >= 0 && read(commit[i]).removed >= 0
  }

  lemma {:induction false} ParseWithWellFormed(read: string -> LineKind, commit: seq<string>)
    requires ParseWith(read, commit).Ok? && CountsNonNegative(read, commit)
    ensures WellFormed(ParseWith(read, commit).value)
    decreases |commit|
  {
    if |commit| > 0 {
      var n := |commit| - 1;
      assert forall j :: 0 <= j < n ==> commit[..n][j] == commit[j];
      ParseWithWellFormed(read, commit[..n]);
      var k := read(commit[n]);
      var m := ParseWith(read, commit[..n]).value;
      assert ParseWith(read, commit).value == ApplyLine(m, k);
    }
  }

  // ---------------------------------------------------------------------
  // Folding the commits into one total

  /** One `(path, size)` item of a commit's map applied to the running
      total: the marker drops the path, any other size is added to it. */
  function ApplyItem(total: map<string, int>, p: string, size: int): map<string, int> {
    if size == Deleted then total - {p} else total[p := Get(total, p) + size]
  }

  /** The inner loop of `_combine_changes`: a commit's items in the order
      the dictionary yields them. */
  function ApplyItems(total: map<string, int>, items: seq<(string, int)>): map<string, int>
    decreases |items|
  {
    if |items| == 0 then total
    else ApplyItems(ApplyItem(total, items[0].0, items[0].1), items[1..])
  }

  /** The whole of one commit's map applied to the running total at once. */
  function Merge(total: map<string, int>, delta: map<string, int>): map<string, int> {
    map p | p in total.Keys + delta.Keys && !(p in delta && delta[p] == Deleted) ::
      Get(total, p) + Get(delta, p)
  }

  lemma MergeStep(total: map<string, int>, delta: map<string, int>, p: string)
    requires p in delta
    ensures Merge(ApplyItem(total, p, delta[p]), delta - {p}) == Merge(total, delta)
  {
  }

  /** Whatever order the dictionary yields a commit's items in, the loop
      ends with the same total: the commit's map merged into it. */
  lemma {:induction false} ApplyItemsIsMerge(total: map<string, int>, delta: map<string, int>, items: seq<(string, int)>)
    requires Enumerates(items, delta)
    ensures ApplyItems(total, items) == Merge(total, delta)
    decreases |items|
  {
    if |items| == 0 {
      assert delta == map[];
      assert Merge(total, delta) == total;
    } else {
      var p := items[0].0;
      EnumeratesRest(items, delta);
      ApplyItemsIsMerge(ApplyItem(total, p, delta[p]), delta - {p}, items[1..]);
      MergeStep(total, delta, p);
    }
  }

  /** `_combine_changes`: the commits' maps merged one after another into
      an initially empty total. */
  function Combine(deltas: seq<map<string, int>>): map<string, int>
    decreases |deltas|
  {
    if |deltas| == 0 then map[]
    else Merge(Combine(deltas[..|deltas| - 1]), deltas[|deltas| - 1])
  }

  /** With well-formed commits, no total is ever negative. */
  lemma {:induction false} CombineNonNegative(deltas: seq<map<string, int>>)
    requires forall i :: 0 <= i < |deltas| ==> WellFormed(deltas[i])
    ensures forall p :: p in Combine(deltas) ==> Combine(deltas)[p] >= 0
    decreases |deltas|
  {
    if |deltas| > 0 {
      var n := |deltas| - 1;
      assert forall i :: 0 <= i < n ==> deltas[..n][i] == deltas[i];
      CombineNonNegative(deltas[..n]);
    }
  }

  lemma CombineAgreeAfter(a: seq<map<string, int>>, b: seq<map<string, int>>, d: map<string, int>, p: string)
    requires AgreeAt(Combine(a), Combine(b), p)
    ensures AgreeAt(Merge(Combine(a), d), Merge(Combine(b), d), p)
  {
  }

  /** A commit that deletes `p` makes every earlier commit irrelevant to
      `p`: the total for `p` is what the later commits alone give. */
  lemma {:induction false} CombineForgetsBeforeDelete(deltas: seq<map<string, int>>, k: nat, p: string)
    requires k < |deltas| && p in deltas[k] && deltas[k][p] == Deleted
    ensures AgreeAt(Combine(deltas), Combine(deltas[k + 1..]), p)
    decreases |deltas|
  {
    var n := |deltas| - 1;
    var tail := deltas[k + 1..];
    if k == n {
      assert tail == [];
      assert p !in Combine(deltas);
    } else {
      assert deltas[..n][k] == deltas[k];
      CombineForgetsBeforeDelete(deltas[..n], k, p);
      assert deltas[..n][k + 1..] == tail[..|tail| - 1];
      assert tail[|tail| - 1] == deltas[n];
      CombineAgreeAfter(deltas[..n], tail[..|tail| - 1], deltas[n], p);
    }
  }

  /** No commit deletes `p`. */
  predicate NeverDeleted(deltas: seq<map<string, int>>, p: string) {
    forall i :: 0 <= i < |deltas| && p in deltas[i] ==> deltas[i][p] != Deleted
  }

  /** For a file no commit deletes, the total is present exactly when some
      commit mentions the file, and is the sum of its per-commit sizes. */
  lemma {:induction false} CombineWithoutDeletes(deltas: seq<map<string, int>>, p: string)
    requires NeverDeleted(deltas, p)
    ensures p in Combine(deltas) <==> Mentioned(deltas, p)
    ensures p in Combine(deltas) ==> Combine(deltas)[p] == SumOf(deltas, p)
    decreases |deltas|
  {
    if |deltas| > 0 {
      var n := |deltas| - 1;
      assert forall i :: 0 <= i < n ==> deltas[..n][i] == deltas[i];
      CombineWithoutDeletes(deltas[..n], p);
      if p !in Combine(deltas[..n]) {
        assert SumOf(deltas[..n], p) == 0 by {
          SumOfUnmentioned(deltas[..n], p);
        }
      }
      if Mentioned(deltas, p) && p !in deltas[n] {
        var i :| 0 <= i < |deltas| && p in deltas[i];
        assert deltas[..n][i] == deltas[i];
      }
    }
  }

  /** No commit deletes anything. */
  predicate NoDeletions(deltas: seq<map<string, int>>) {
    forall i, p :: 0 <= i < |deltas| && p in deltas[i] ==> deltas[i][p] != Deleted
  }

  /** Without deletions the replay order does not matter: any reordering of
      the commits gives the same totals. */
  lemma CombineOrderIndependent(a: seq<map<string, int>>, b: seq<map<string, int>>)
    requires multiset(a) == multiset(b) && NoDeletions(a)
    ensures Combine(a) == Combine(b)
  {
    assert NoDeletions(b) by {
      forall p, j | 0 <= j < |b| && p in b[j]
        ensures b[j][p] != Deleted
      {
        assert b[j] in multiset(a);
        var i :| 0 <= i < |a| && a[i] == b[j];
      }
    }
    forall p
      ensures AgreeAt(Combine(a), Combine(b), p)
    {
      assert NeverDeleted(a, p) && NeverDeleted(b, p);
      CombineWithoutDeletes(a, p);
      CombineWithoutDeletes(b, p);
      MentionedPermutation(a, b, p);
      SumOfPermutation(a, b, p);
    }
    AgreeEverywhere(Combine(a), Combine(b));
  }

  // ---------------------------------------------------------------------
  // The pipeline

  /** `reversed(list(commits))`: git prints the newest commit first. */
  function Reversed<T>(s: seq<T>): seq<T> {
    seq(|s|, i requires 0 <= i < |s| => s[|s| - 1 - i])
  }

  /** Reversing keeps every element, as often as it occurs. */
  lemma {:induction false} ReversedPermutes<T>(s: seq<T>)
    ensures multiset(Reversed(s)) == multiset(s)
    decreases |s|
  {
    if |s| > 0 {
      var n := |s| - 1;
      ReversedPermutes(s[..n]);
      assert Reversed(s) == [s[n]] + Reversed(s[..n]);
      assert s == s[..n] + [s[n]];
    }
  }

  /** `calculate_hotness` on the already collected and right-stripped log
      lines: group into records, replay them oldest first, and combine. */
  function CalculateHotness(log: seq<string>): Result<map<string, int>> {
    var changes :- MapAll(ParseCommit, Reversed(Grouping.Group(log)));
    Ok(Combine(changes))
  }

  /** `calculate_hotness` with the grouping loop as written:
      `reversed(list(commits))` drains the generator before any record is
      parsed, so a failure of the grouping comes first. */
  function CalculateHotnessAsWritten(log: seq<string>): Result<map<string, int>> {
    var commits :- Grouping.GroupAsWritten(log);
    var changes :- MapAll(ParseCommit, Reversed(commits));
    Ok(Combine(changes))
  }

  /** The code as written fails on a log whose first line is a content
      line; on every other log it computes what `CalculateHotness` does.
      So it fails exactly when the first line is a content line or some
      content line cannot be read. */
  lemma HotnessAsWrittenAgrees(log: seq<string>)
    ensures |log| > 0 && !Grouping.IsBlank(log[0]) ==>
      CalculateHotnessAsWritten(log) == Err(NoOpenRecord(log[0]))
    ensures |log| == 0 || Grouping.IsBlank(log[0]) ==>
      CalculateHotnessAsWritten(log) == CalculateHotness(log)
    ensures CalculateHotnessAsWritten(log).Err? <==>
      || (|log| > 0 && !Grouping.IsBlank(log[0]))
      || exists k :: 0 <= k < |log| && !Grouping.IsBlank(log[k]) && Classify(log[k]).Malformed?
  {
    Grouping.GroupAsWrittenAgrees(log);
    HotnessFailsIff(log);
  }

  /** Mapping a fallible function over the reversed sequence succeeds
      exactly when mapping it over the sequence does, with the results
      reversed. */
  lemma MapAllReversed<A, B>(f: A -> Result<B>, xs: seq<A>)
    ensures MapAll(f, Reversed(xs)).Ok? <==> MapAll(f, xs).Ok?
    ensures MapAll(f, xs).Ok? ==> MapAll(f, Reversed(xs)).value == Reversed(MapAll(f, xs).value)
  {
    var rev := Reversed(xs);
    if MapAll(f, rev).Ok? {
      forall i | 0 <= i < |xs|
        ensures f(xs[i]).Ok?
      {
        assert rev[|xs| - 1 - i] == xs[i];
      }
    }
    if MapAll(f, xs).Ok? {
      var ys := MapAll(f, xs).value;
      forall c | 0 <= c < |rev|
        ensures f(rev[c]) == Ok(Reversed(ys)[c])
      {
        assert rev[c] == xs[|xs| - 1 - c];
      }
    }
  }

  /** A run fails exactly when some content line of the log is malformed;
      blank lines and the line's position never matter. */
  lemma HotnessFailsIff(log: seq<string>)
    ensures CalculateHotness(log).Err? <==>
      exists k :: 0 <= k < |log| && !Grouping.IsBlank(log[k]) && Classify(log[k]).Malformed?
  {
    MapAllReversed(ParseCommit, Grouping.Group(log));
    HotnessFailsInOrder(log);
  }

  /** Replaying oldest first is the same as parsing in log order and
      folding the parsed maps in reverse. */
  lemma HotnessReplaysOldestFirst(log: seq<string>, deltas: seq<map<string, int>>)
    requires MapAll(ParseCommit, Grouping.Group(log)) == Ok(deltas)
    ensures CalculateHotness(log) == Ok(Combine(Reversed(deltas)))
  {
    MapAllReversed(ParseCommit, Grouping.Group(log));
  }

  /** When every numstat count in the log is non-negative, so is every
      count in every record. */
  lemma RecordsCountsNonNegative(log: seq<string>)
    requires CountsNonNegative(Classify, log)
    ensures forall i :: 0 <= i < |Grouping.Group(log)| ==> CountsNonNegative(Classify, Grouping.Group(log)[i])
  {
    var groups := Grouping.Group(log);
    forall i, j | 0 <= i < |groups| && 0 <= j < |groups[i]| && Classify(groups[i][j]).NumStat?
      ensures Classify(groups[i][j]).added >= 0 && Classify(groups[i][j]).removed >= 0
    {
      Grouping.GroupedLines(log, groups[i][j]);
      var k :| 0 <= k < |log| && !Grouping.IsBlank(log[k]) && log[k] == groups[i][j];
      assert Classify(log[k]).NumStat?;
    }
  }

  /** When every numstat count in the log is non-negative, every hotness is
      non-negative. */
  lemma HotnessNonNegative(log: seq<string>)
    requires CountsNonNegative(Classify, log)
    ensures CalculateHotness(log).Ok? ==>
      forall p :: p in CalculateHotness(log).value ==> CalculateHotness(log).value[p] >= 0
  {
    var groups := Grouping.Group(log);
    var r := MapAll(ParseCommit, groups);
    if r.Ok? {
      RecordsCountsNonNegative(log);
      forall i | 0 <= i < |groups|
        ensures WellFormed(r.value[i])
      {
        ParseWithWellFormed(Classify, groups[i]);
      }
      WellFormedReversed(r.value);
      HotnessReplaysOldestFirst(log, r.value);
      CombineNonNegative(Reversed(r.value));
    } else {
      HotnessFailsIff(log);
      HotnessFailsInOrder(log);
    }
  }

  lemma WellFormedReversed(deltas: seq<map<string, int>>)
    requires forall i :: 0 <= i < |deltas| ==> WellFormed(deltas[i])
    ensures forall i :: 0 <= i < |Reversed(deltas)| ==> WellFormed(Reversed(deltas)[i])
  {
  }

  /** Parsing the records in log order fails exactly when some content
      line is malformed, as replaying them oldest first does. */
  lemma HotnessFailsInOrder(log: seq<string>)
    ensures MapAll(ParseCommit, Grouping.Group(log)).Err? <==>
      exists k :: 0 <= k < |log| && !Grouping.IsBlank(log[k]) && Classify(log[k]).Malformed?
  {
    if MapAll(ParseCommit, Grouping.Group(log)).Err? {
      FailureHasMalformedLine(log);
    }
    if exists k :: 0 <= k < |log| && !Grouping.IsBlank(log[k]) && Classify(log[k]).Malformed? {
      var k :| 0 <= k < |log| && !Grouping.IsBlank(log[k]) && Classify(log[k]).Malformed?;
      MalformedLineFails(log, k);
    }
  }

  /** A record that fails to parse holds a content line of the log that is malformed. */
  lemma FailureHasMalformedLine(log: seq<string>)
    requires MapAll(ParseCommit, Grouping.Group(log)).Err?
    ensures exists k :: 0 <= k < |log| && !Grouping.IsBlank(log[k]) && Classify(log[k]).Malformed?
  {
    var groups := Grouping.Group(log);
    var i :| 0 <= i < |groups| && ParseCommit(groups[i]).Err?;
    ParseCommitFails(groups[i]);
    var j :| 0 <= j < |groups[i]| && Classify(groups[i][j]).Malformed?;
    Grouping.GroupedLines(log, groups[i][j]);
  }

  /** A content line that is malformed makes its record fail to parse. */
  lemma MalformedLineFails(log: seq<string>, k: int)
    requires 0 <= k < |log| && !Grouping.IsBlank(log[k]) && Classify(log[k]).Malformed?
    ensures MapAll(ParseCommit, Grouping.Group(log)).Err?
  {
    var groups := Grouping.Group(log);
    Grouping.GroupedLines(log, log[k]);
    var i, j :| 0 <= i < |groups| && 0 <= j < |groups[i]| && groups[i][j] == log[k];
    ParseCommitFails(groups[i]);
  }

  lemma ReversedPrefix<T>(s: seq<T>, i: nat)
    requires i <= |s|
    ensures Reversed(s)[|s| - i..] == Reversed(s[..i])
  {
    var a, b := Reversed(s)[|s| - i..], Reversed(s[..i]);
    forall c | 0 <= c < i
      ensures a[c] == b[c]
    {
      assert a[c] == Reversed(s)[|s| - i + c] == s[i - 1 - c];
      assert b[c] == s[..i][i - 1 - c];
    }
  }

  /** Replaying commits oldest first, a commit that deletes `p` hides
      every commit older than it. */
  lemma ReplayForgets(deltas: seq<map<string, int>>, i: nat, p: string)
    requires i < |deltas| && p in deltas[i] && deltas[i][p] == Deleted
    ensures AgreeAt(Combine(Reversed(deltas)), Combine(Reversed(deltas[..i])), p)
  {
    var rev := Reversed(deltas);
    var k := |deltas| - 1 - i;
    assert rev[k] == deltas[i];
    CombineForgetsBeforeDelete(rev, k, p);
    ReversedPrefix(deltas, i);
  }

  /** If commit `i` of the log (newest first) deletes `p`, the hotness of
      `p` is what the commits newer than `i` alone give it. */
  lemma ReplayForgetsOlderCommits(log: seq<string>, deltas: seq<map<string, int>>, i: nat, p: string)
    requires MapAll(ParseCommit, Grouping.Group(log)) == Ok(deltas)
    requires i < |deltas| && p in deltas[i] && deltas[i][p] == Deleted
    ensures CalculateHotness(log).Ok?
    ensures AgreeAt(CalculateHotness(log).value, Combine(Reversed(deltas[..i])), p)
  {
    HotnessReplaysOldestFirst(log, deltas);
    ReplayForgets(deltas, i, p);
  }
}
