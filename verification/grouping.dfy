/** Splitting the flat `git log` output into commit records: blank lines
    separate records, runs of blank lines count once, and a record still
    open at the end of the log is emitted. Both versions of the tool share
    this step. */
module Grouping {
  import opened Results

  /** Python's `not line` on an already right-stripped log line. */
  predicate IsBlank(line: string) {
    |line| == 0
  }

  /** The log's content lines, in order. */
  function NonBlank(log: seq<string>): seq<string>
    decreases |log|
  {
    if |log| == 0 then []
    else if IsBlank(log[0]) then NonBlank(log[1..])
    else [log[0]] + NonBlank(log[1..])
  }

  function Flatten(groups: seq<seq<string>>): seq<string>
    decreases |groups|
  {
    if |groups| == 0 then [] else groups[0] + Flatten(groups[1..])
  }

  /** A commit record: at least one line, none of them blank. */
  predicate IsRecord(g: seq<string>) {
    |g| > 0 && forall j :: 0 <= j < |g| ==> !IsBlank(g[j])
  }

  predicate AllRecords(groups: seq<seq<string>>) {
    forall i :: 0 <= i < |groups| ==> IsRecord(groups[i])
  }

  /** `if commit: yield commit` */
  function Flush(pending: seq<string>): seq<seq<string>> {
    if |pending| > 0 then [pending] else []
  }

  /** The grouping loop from the point where `pending` lines have been
      collected and `rest` is still to be read. */
  function GroupFrom(pending: seq<string>, rest: seq<string>): (groups: seq<seq<string>>)
    requires forall j :: 0 <= j < |pending| ==> !IsBlank(pending[j])
    ensures AllRecords(groups)
    ensures Flatten(groups) == pending + NonBlank(rest)
    decreases |rest|
  {
    if |rest| == 0 then
      assert Flatten(Flush(pending)) == pending by {
        FlushFlatten(pending);
      }
      Flush(pending)
    else if IsBlank(rest[0]) then
      var later := GroupFrom([], rest[1..]);
      FlushThen(pending, later);
      Flush(pending) + later
    else
      var pending' := pending + [rest[0]];
      var groups := GroupFrom(pending', rest[1..]);
      AppendOne(pending, rest[0], NonBlank(rest[1..]));
      groups
  }

  lemma FlushFlatten(pending: seq<string>)
    ensures Flatten(Flush(pending)) == pending
  {
    if |pending| > 0 {
      assert Flatten([pending]) == pending + Flatten([]);
    }
  }

  /** Emitting the pending record in front of later records. */
  lemma FlushThen(pending: seq<string>, later: seq<seq<string>>)
    requires forall j :: 0 <= j < |pending| ==> !IsBlank(pending[j])
    requires AllRecords(later)
    ensures AllRecords(Flush(pending) + later)
    ensures Flatten(Flush(pending) + later) == pending + Flatten(later)
  {
    FlattenConcat(Flush(pending), later);
    FlushFlatten(pending);
  }

  lemma AppendOne(pending: seq<string>, x: string, tail: seq<string>)
    ensures pending + [x] + tail == pending + ([x] + tail)
  {
  }

  /** The commit records of a log, with the record at the start of the log
      opened implicitly. */
  function Group(log: seq<string>): (groups: seq<seq<string>>)
    ensures AllRecords(groups)
    ensures Flatten(groups) == NonBlank(log)
  {
    GroupFrom([], log)
  }

  lemma {:induction false} FlattenConcat(a: seq<seq<string>>, b: seq<seq<string>>)
    ensures Flatten(a + b) == Flatten(a) + Flatten(b)
    decreases |a|
  {
    if |a| > 0 {
      calc {
        Flatten(a + b);
        (a + b)[0] + Flatten((a + b)[1..]);
        { assert (a + b)[0] == a[0]; assert (a + b)[1..] == a[1..] + b; }
        a[0] + Flatten(a[1..] + b);
        { FlattenConcat(a[1..], b); }
        a[0] + (Flatten(a[1..]) + Flatten(b));
        (a[0] + Flatten(a[1..])) + Flatten(b);
      }
    } else {
      assert a + b == b;
    }
  }

  // ---------------------------------------------------------------------
  // The loop as written starts from `commit = None`: a non-blank first line
  // calls `append` on `None` and the run dies with an AttributeError.

  function GroupFromAsWritten(commit: Option<seq<string>>, rest: seq<string>): Result<seq<seq<string>>>
    decreases |rest|
  {
    if |rest| == 0 then
      Ok(if commit.Some? then Flush(commit.value) else [])
    else if IsBlank(rest[0]) then
      var later :- GroupFromAsWritten(Some([]), rest[1..]);
      Ok((if commit.Some? then Flush(commit.value) else []) + later)
    else if commit.None? then
      Err(NoOpenRecord(rest[0]))
    else
      GroupFromAsWritten(Some(commit.value + [rest[0]]), rest[1..])
  }

  function GroupAsWritten(log: seq<string>): Result<seq<seq<string>>> {
    GroupFromAsWritten(None, log)
  }

  /** Once a record is open, the code as written and the corrected model
      take the same steps. */
  lemma {:induction false} GroupFromAsWrittenOpen(pending: seq<string>, rest: seq<string>)
    requires forall j :: 0 <= j < |pending| ==> !IsBlank(pending[j])
    ensures GroupFromAsWritten(Some(pending), rest) == Ok(GroupFrom(pending, rest))
    decreases |rest|
  {
    if |rest| > 0 {
      if IsBlank(rest[0]) {
        GroupFromAsWrittenOpen([], rest[1..]);
      } else {
        GroupFromAsWrittenOpen(pending + [rest[0]], rest[1..]);
      }
    }
  }

  /** The code as written fails exactly when the log's first line is not
      blank, and otherwise produces the corrected grouping. */
  lemma GroupAsWrittenAgrees(log: seq<string>)
    ensures |log| > 0 && !IsBlank(log[0]) ==> GroupAsWritten(log) == Err(NoOpenRecord(log[0]))
    ensures |log| == 0 || IsBlank(log[0]) ==> GroupAsWritten(log) == Ok(Group(log))
  {
    if |log| > 0 && IsBlank(log[0]) {
      GroupFromAsWrittenOpen([], log[1..]);
    }
  }

  /** The input that shows the discrepancy: a log whose first line is a
      change line, which the corrected model groups as one record. */
  lemma LeadingLineRejectedAsWritten()
    ensures GroupAsWritten(["3\t2\ta.py"]).Err?
    ensures Group(["3\t2\ta.py"]) == [["3\t2\ta.py"]]
  {
    var line := "3\t2\ta.py";
    assert !IsBlank(line);
    assert [line][1..] == [];
    assert [] + [line] == [line];
    assert GroupFrom([], [line]) == GroupFrom([line], []);
  }

  // ---------------------------------------------------------------------
  // Properties of the corrected grouping

  /** A log without content lines has no records, whether it is empty or
      all blank. */
  lemma {:induction false} GroupAllBlank(log: seq<string>)
    requires forall i :: 0 <= i < |log| ==> IsBlank(log[i])
    ensures Group(log) == []
    decreases |log|
  {
    NonBlankAllBlank(log);
  }

  lemma {:induction false} NonBlankAllBlank(log: seq<string>)
    requires forall i :: 0 <= i < |log| ==> IsBlank(log[i])
    ensures NonBlank(log) == []
    decreases |log|
  {
    if |log| > 0 {
      NonBlankAllBlank(log[1..]);
    }
  }

  /** A run of content lines extends the open record. */
  lemma {:induction false} GroupFromRun(pending: seq<string>, run: seq<string>, rest: seq<string>)
    requires forall j :: 0 <= j < |pending| ==> !IsBlank(pending[j])
    requires forall j :: 0 <= j < |run| ==> !IsBlank(run[j])
    ensures GroupFrom(pending, run + rest) == GroupFrom(pending + run, rest)
    decreases |run|
  {
    if |run| > 0 {
      var pending' := pending + [run[0]];
      calc {
        GroupFrom(pending, run + rest);
        { assert (run + rest)[0] == run[0]; assert (run + rest)[1..] == run[1..] + rest; }
        GroupFrom(pending', run[1..] + rest);
        { GroupFromRun(pending', run[1..], rest); }
        GroupFrom(pending' + run[1..], rest);
        { assert pending' + run[1..] == pending + run; }
        GroupFrom(pending + run, rest);
      }
    } else {
      assert run + rest == rest && pending + run == pending;
    }
  }

  /** A trailing run of content lines with no closing blank line is still
      emitted as the last record. */
  lemma {:induction false} GroupFromTrailing(pending: seq<string>, xs: seq<string>, run: seq<string>)
    requires forall j :: 0 <= j < |pending| ==> !IsBlank(pending[j])
    requires IsRecord(run)
    requires |xs| > 0 && IsBlank(xs[|xs| - 1])
    ensures GroupFrom(pending, xs + run) == GroupFrom(pending, xs) + [run]
    decreases |xs|
  {
    assert (xs + run)[0] == xs[0];
    assert (xs + run)[1..] == xs[1..] + run;
    if |xs| == 1 {
      GroupFromRun([], run, []);
      assert run + [] == run;
      assert [] + run == run;
    } else if IsBlank(xs[0]) {
      GroupFromTrailing([], xs[1..], run);
    } else {
      GroupFromTrailing(pending + [xs[0]], xs[1..], run);
    }
  }

  lemma GroupTrailingRun(xs: seq<string>, run: seq<string>)
    requires IsRecord(run)
    requires |xs| == 0 || IsBlank(xs[|xs| - 1])
    ensures Group(xs + run) == Group(xs) + [run]
  {
    if |xs| == 0 {
      assert xs + run == run + [];
      assert [] + run == run;
      GroupFromRun([], run, []);
    } else {
      GroupFromTrailing([], xs, run);
    }
  }

  /** A second blank line in a row adds no record. */
  lemma {:induction false} GroupFromCollapsesBlanks(pending: seq<string>, xs: seq<string>, ys: seq<string>)
    requires forall j :: 0 <= j < |pending| ==> !IsBlank(pending[j])
    ensures GroupFrom(pending, xs + ["", ""] + ys) == GroupFrom(pending, xs + [""] + ys)
    decreases |xs|
  {
    var long, short := xs + ["", ""] + ys, xs + [""] + ys;
    if |xs| == 0 {
      assert long[0] == "" && long[1..] == [""] + ys;
      assert short[0] == "" && short[1..] == ys;
      assert [""] + ys == [] + [""] + ys;
    } else {
      assert long[0] == xs[0] && long[1..] == xs[1..] + ["", ""] + ys;
      assert short[0] == xs[0] && short[1..] == xs[1..] + [""] + ys;
      if IsBlank(xs[0]) {
        GroupFromCollapsesBlanks([], xs[1..], ys);
      } else {
        GroupFromCollapsesBlanks(pending + [xs[0]], xs[1..], ys);
      }
    }
  }

  lemma GroupCollapsesBlanks(xs: seq<string>, ys: seq<string>)
    ensures Group(xs + ["", ""] + ys) == Group(xs + [""] + ys)
  {
    GroupFromCollapsesBlanks([], xs, ys);
  }

  /** Records written out the way the log presents them: each one
      introduced by a blank line. */
  function Render(groups: seq<seq<string>>): seq<string>
    decreases |groups|
  {
    if |groups| == 0 then [] else [""] + groups[0] + Render(groups[1..])
  }

  lemma {:induction false} GroupFromRender(pending: seq<string>, groups: seq<seq<string>>)
    requires forall j :: 0 <= j < |pending| ==> !IsBlank(pending[j])
    requires AllRecords(groups)
    ensures GroupFrom(pending, Render(groups)) == Flush(pending) + groups
    decreases |groups|
  {
    if |groups| > 0 {
      var g := groups[0];
      var tail := Render(groups[1..]);
      var log := [""] + g + tail;
      assert Render(groups) == log;
      assert log[0] == "" && log[1..] == g + tail;
      assert IsRecord(g);
      GroupFromRun([], g, tail);
      assert [] + g == g;
      GroupFromRender(g, groups[1..]);
      assert groups == [g] + groups[1..];
    }
  }

  /** Grouping inverts rendering: records rendered with blank separators
      are read back unchanged. */
  lemma GroupRender(groups: seq<seq<string>>)
    requires AllRecords(groups)
    ensures Group(Render(groups)) == groups
  {
    GroupFromRender([], groups);
  }

  // ---------------------------------------------------------------------
  // Which lines end up in records

  lemma {:induction false} FlattenMembers(groups: seq<seq<string>>, x: string)
    ensures x in Flatten(groups) <==>
      exists i, j :: 0 <= i < |groups| && 0 <= j < |groups[i]| && groups[i][j] == x
    decreases |groups|
  {
    if |groups| > 0 {
      FlattenMembers(groups[1..], x);
      if x in groups[0] {
        var j :| 0 <= j < |groups[0]| && groups[0][j] == x;
        assert groups[0][j] == x;
      }
      if exists i, j :: 0 <= i < |groups| && 0 <= j < |groups[i]| && groups[i][j] == x {
        var i, j :| 0 <= i < |groups| && 0 <= j < |groups[i]| && groups[i][j] == x;
        if i > 0 {
          assert groups[1..][i - 1][j] == x;
        }
      }
    }
  }

  lemma {:induction false} NonBlankMembers(log: seq<string>, x: string)
    ensures x in NonBlank(log) <==> exists k :: 0 <= k < |log| && !IsBlank(log[k]) && log[k] == x
    decreases |log|
  {
    if |log| > 0 {
      NonBlankMembers(log[1..], x);
      if exists k :: 0 <= k < |log| && !IsBlank(log[k]) && log[k] == x {
        var k :| 0 <= k < |log| && !IsBlank(log[k]) && log[k] == x;
        if k > 0 {
          assert log[1..][k - 1] == x;
        }
      }
      if x in NonBlank(log[1..]) {
        var k :| 0 <= k < |log[1..]| && !IsBlank(log[1..][k]) && log[1..][k] == x;
        assert log[k + 1] == x;
      }
    }
  }

  /** A line belongs to some record exactly when it is a content line of
      the log: grouping neither drops nor invents lines. */
  lemma GroupedLines(log: seq<string>, x: string)
    ensures (exists i, j :: 0 <= i < |Group(log)| && 0 <= j < |Group(log)[i]| && Group(log)[i][j] == x)
        <==> (exists k :: 0 <= k < |log| && !IsBlank(log[k]) && log[k] == x)
  {
    FlattenMembers(Group(log), x);
    NonBlankMembers(log, x);
  }
}
