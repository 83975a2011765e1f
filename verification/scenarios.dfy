/** Whole runs on small histories, stated for any counts and any path: the
    example from `hotfilefinder`'s description, a deletion that wipes a
    file's history, and why the commits must be replayed oldest first. */
module Scenarios {
  import opened Results
  import opened Text
  import opened LogLines
  import Grouping
  import Hot = HotFileFinder

  /** A path as `--numstat` prints it holds no tab. */
  predicate PlainPath(p: string) {
    '\t' !in p
  }

  /** A one-line record, parsed by the later version. */
  lemma HotParseOne(a: string)
    requires !Classify(a).Malformed?
    ensures Hot.ParseCommit([a]) == Ok(Hot.ApplyLine(map[], Classify(a)))
  {
    var none: seq<string> := [];
    assert [a][..0] == none;
    assert Hot.ParseWith(Classify, none) == Ok(map[]);
  }

  /** A two-line record, parsed by the later version. */
  lemma HotParseTwo(a: string, b: string)
    requires !Classify(a).Malformed? && !Classify(b).Malformed?
    ensures Hot.ParseCommit([a, b]) == Ok(Hot.ApplyLine(Hot.ApplyLine(map[], Classify(a)), Classify(b)))
  {
    assert [a, b][..1] == [a];
    HotParseOne(a);
  }

  lemma MapAllTwo<A, B>(f: A -> Result<B>, x: A, y: A)
    requires f(x).Ok? && f(y).Ok?
    ensures MapAll(f, [x, y]) == Ok([f(x).value, f(y).value])
  {
    var none: seq<A> := [];
    var nothing: seq<B> := [];
    assert [x, y][..1] == [x] && [x][..0] == none;
    assert MapAll(f, none) == Ok(nothing);
    assert nothing + [f(x).value] == [f(x).value];
    assert MapAll(f, [x]) == Ok([f(x).value]);
    assert [f(x).value] + [f(y).value] == [f(x).value, f(y).value];
  }

  /** A log of two records, newest first, run by the later version: the
      older record's map is merged first. */
  lemma HotRunTwo(newer: seq<string>, older: seq<string>)
    requires Grouping.AllRecords([newer, older])
    requires Hot.ParseCommit(newer).Ok? && Hot.ParseCommit(older).Ok?
    ensures Hot.CalculateHotness(Grouping.Render([newer, older])) ==
      Ok(Hot.Merge(Hot.Merge(map[], Hot.ParseCommit(older).value), Hot.ParseCommit(newer).value))
  {
    Grouping.GroupRender([newer, older]);
    assert Hot.Reversed([newer, older]) == [older, newer];
    MapAllTwo(Hot.ParseCommit, older, newer);
    HotCombineTwo(Hot.ParseCommit(older).value, Hot.ParseCommit(newer).value);
  }

  lemma HotCombineTwo(d1: map<string, int>, d2: map<string, int>)
    ensures Hot.Combine([d1, d2]) == Hot.Merge(Hot.Merge(map[], d1), d2)
  {
    var none: seq<map<string, int>> := [];
    assert [d1, d2][..1] == [d1] && [d1][..0] == none;
    assert Hot.Combine([d1]) == Hot.Merge(map[], d1);
  }

  /** A record changing one file. */
  lemma HotChange(a: nat, r: nat, p: string)
    requires PlainPath(p)
    ensures Hot.ParseCommit([NumStatLine(a, r, p)]) == Ok(map[p := a + r])
  {
    ClassifyNumStatLine(a, r, p);
    HotParseOne(NumStatLine(a, r, p));
  }

  /** A record creating a file: its numstat line, then ` create mode`. */
  lemma HotCreation(c: nat, p: string, mode: string)
    requires PlainPath(p) && ' ' !in mode
    ensures Hot.ParseCommit([NumStatLine(c, 0, p), SummaryLine("create", mode, p)]) == Ok(map[])
  {
    ClassifyNumStatLine(c, 0, p);
    ClassifyCreateLine(mode, p);
    HotParseTwo(NumStatLine(c, 0, p), SummaryLine("create", mode, p));
    assert map[p := c] - {p} == map[];
  }

  /** Within one record a ` create` line removes only what the lines
      before it put there: after the numstat line it leaves nothing, before
      it the numstat line's count stands. */
  lemma CreateLineOrderMatters(c: nat, p: string, mode: string)
    requires PlainPath(p) && ' ' !in mode
    ensures Hot.ParseCommit([NumStatLine(c, 0, p), SummaryLine("create", mode, p)]) == Ok(map[])
    ensures Hot.ParseCommit([SummaryLine("create", mode, p), NumStatLine(c, 0, p)]) == Ok(map[p := c])
  {
    HotCreation(c, p, mode);
    ClassifyNumStatLine(c, 0, p);
    ClassifyCreateLine(mode, p);
    HotParseTwo(SummaryLine("create", mode, p), NumStatLine(c, 0, p));
    var empty: map<string, int> := map[];
    assert empty - {p} == empty;
  }

  /** A record deleting a file: its numstat line, then ` delete mode`. */
  lemma HotDeletion(x: nat, p: string, mode: string)
    requires PlainPath(p) && ' ' !in mode
    ensures Hot.ParseCommit([NumStatLine(0, x, p), SummaryLine("delete", mode, p)]) == Ok(map[p := Hot.Deleted])
  {
    ClassifyNumStatLine(0, x, p);
    ClassifyDeleteLine(mode, p);
    HotParseTwo(NumStatLine(0, x, p), SummaryLine("delete", mode, p));
    assert map[p := x][p := Hot.Deleted] == map[p := Hot.Deleted];
  }

  lemma LinesNonBlank(a: nat, r: nat, p: string, event: string, mode: string)
    ensures |NumStatLine(a, r, p)| > 0 && |SummaryLine(event, mode, p)| > 0
  {
  }

  /** The history of the description of `hotfilefinder`: a file created
      with `created` lines and then changed by `added` and `removed` lines
      has hotness `added + removed`; the creation does not count. */
  lemma CreationNotCounted(created: nat, added: nat, removed: nat, p: string, mode: string)
    requires PlainPath(p) && ' ' !in mode
    ensures Hot.CalculateHotness(Grouping.Render([
      [NumStatLine(added, removed, p)],
      [NumStatLine(created, 0, p), SummaryLine("create", mode, p)]])) == Ok(map[p := added + removed])
  {
    LinesNonBlank(added, removed, p, "create", mode);
    LinesNonBlank(created, 0, p, "create", mode);
    HotChange(added, removed, p);
    HotCreation(created, p, mode);
    ChangeAfterCreation([NumStatLine(added, removed, p)], [NumStatLine(created, 0, p), SummaryLine("create", mode, p)], p, added + removed);
  }

  /** A file changed and later deleted (the newest commit, printed first,
      changes it once more and deletes it) has no hotness; folded in log
      order instead, the older change would survive the deletion. */
  lemma DeletionForgetsHistory(added: nat, removed: nat, last: nat, p: string, mode: string)
    requires PlainPath(p) && ' ' !in mode
    ensures Hot.CalculateHotness(Grouping.Render([
      [NumStatLine(0, last, p), SummaryLine("delete", mode, p)],
      [NumStatLine(added, removed, p)]])) == Ok(map[])
    ensures Hot.Combine([map[p := Hot.Deleted], map[p := added + removed]]) == map[p := added + removed]
  {
    LinesNonBlank(0, last, p, "delete", mode);
    LinesNonBlank(added, removed, p, "delete", mode);
    HotDeletion(last, p, mode);
    HotChange(added, removed, p);
    DeletionAfterChange([NumStatLine(0, last, p), SummaryLine("delete", mode, p)], [NumStatLine(added, removed, p)], p, added + removed);
  }

  /** A record that leaves nothing, followed in time by one that changes
      `p` by `v`. */
  lemma ChangeAfterCreation(newer: seq<string>, older: seq<string>, p: string, v: nat)
    requires Grouping.AllRecords([newer, older])
    requires Hot.ParseCommit(newer) == Ok(map[p := v]) && Hot.ParseCommit(older) == Ok(map[])
    ensures Hot.CalculateHotness(Grouping.Render([newer, older])) == Ok(map[p := v])
  {
    HotRunTwo(newer, older);
    var empty: map<string, int> := map[];
    assert Hot.Merge(empty, empty) == empty;
    assert Hot.Merge(empty, map[p := v]) == map[p := v];
  }

  /** A record that changes `p` by `v`, followed in time by one that
      deletes `p`; folded the other way round, the change survives. */
  lemma DeletionAfterChange(newer: seq<string>, older: seq<string>, p: string, v: nat)
    requires Grouping.AllRecords([newer, older])
    requires Hot.ParseCommit(newer) == Ok(map[p := Hot.Deleted]) && Hot.ParseCommit(older) == Ok(map[p := v])
    ensures Hot.CalculateHotness(Grouping.Render([newer, older])) == Ok(map[])
    ensures Hot.Combine([map[p := Hot.Deleted], map[p := v]]) == map[p := v]
  {
    HotRunTwo(newer, older);
    HotCombineTwo(map[p := Hot.Deleted], map[p := v]);
    var empty: map<string, int> := map[];
    assert Hot.Merge(empty, map[p := v]) == map[p := v];
    assert Hot.Merge(map[p := v], map[p := Hot.Deleted]) == empty;
    assert Hot.Merge(empty, map[p := Hot.Deleted]) == empty;
  }
}
