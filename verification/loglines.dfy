/** What one line of a commit record says. `git log --summary --numstat`
    prints, per commit, numstat lines `added<TAB>removed<TAB>path` (with `-`
    for both counts of a binary file) followed by summary lines such as
    ` create mode 100644 path`, ` delete mode 100644 path` and
    ` mode change 100644 => 100755 path`. */
module LogLines {
  import opened Results
  import opened Text

  datatype LineKind =
    | Delete(path: string)
    | Create(path: string)
    | Mode
    | Binary(path: string)
    | NumStat(added: int, removed: int, path: string)
    | Malformed

  const DeletePrefix: string := " delete"
  const CreatePrefix: string := " create"
  const ModePrefix: string := " mode"

  /** `line.split(' ', 4)[-1]`: the text after the fourth space, which for
      git's ` delete mode 100644 path` is the whole path, spaces included. */
  function SummaryPath(line: string): string {
    var parts := SplitN(line, ' ', 4);
    parts[|parts| - 1]
  }

  /** `incr, decr, path = line.split('\t')`, or `None` when the line does not
      have exactly three tab-separated fields and the unpacking raises. */
  function NumStatFields(line: string): Option<(string, string, string)> {
    var fields := Split(line, '\t');
    if |fields| == 3 then Some((fields[0], fields[1], fields[2])) else None
  }

  /** The branches of the line loop in `_parse_commit_change_size`, tried in
      the source's order: the three summary prefixes first, then a numstat
      line, skipped when either count is `-` and fatal when a count is not an
      integer or the line has the wrong number of fields. */
  function Classify(line: string): LineKind {
    if StartsWith(line, DeletePrefix) then Delete(SummaryPath(line))
    else if StartsWith(line, CreatePrefix) then Create(SummaryPath(line))
    else if StartsWith(line, ModePrefix) then Mode
    else
      match NumStatFields(line)
      case None => Malformed
      case Some((incr, decr, path)) =>
        if incr == "-" || decr == "-" then Binary(path)
        else
          match (ParseInt(incr), ParseInt(decr))
          case (Some(a), Some(r)) => NumStat(a, r, path)
          case _ => Malformed
  }

  // ---------------------------------------------------------------------
  // The lines git prints are read back as what they say.

  lemma StartsWithConcat(x: string, y: string)
    ensures StartsWith(x + y, x)
  {
    assert (x + y)[..|x|] == x;
  }

  /** A line whose first character is not a space starts with none of the
      summary prefixes. */
  lemma NoSummaryPrefix(line: string)
    requires |line| > 0 && line[0] != ' '
    ensures !StartsWith(line, DeletePrefix) && !StartsWith(line, CreatePrefix) && !StartsWith(line, ModePrefix)
  {
    assert DeletePrefix[0] == ' ' && CreatePrefix[0] == ' ' && ModePrefix[0] == ' ';
  }

  /** The path of ` <event> mode <mode> <path>` is everything after the
      mode, even when it holds spaces. */
  lemma SummaryPathOf(event: string, mode: string, p: string)
    requires ' ' !in event && ' ' !in mode
    ensures SummaryPath(SummaryLine(event, mode, p)) == p
  {
    var parts := ["", event, "mode", mode, p];
    var line := SummaryLine(event, mode, p);
    assert Join(parts, ' ') == line by {
      assert Join(parts[4..], ' ') == p;
      assert Join(parts[3..], ' ') == mode + " " + p;
      assert Join(parts[2..], ' ') == "mode" + " " + (mode + " " + p);
      assert Join(parts[1..], ' ') == event + " " + ("mode" + " " + (mode + " " + p));
    }
    assert ' ' !in "mode";
    assert CutsClean(parts, ' ');
    SplitNJoin(parts, ' ', 4);
  }

  /** The two summary lines that name a file's creation or deletion. */
  function SummaryLine(event: string, mode: string, p: string): string {
    " " + event + " mode " + mode + " " + p
  }

  lemma ClassifyDeleteLine(mode: string, p: string)
    requires ' ' !in mode
    ensures Classify(SummaryLine("delete", mode, p)) == Delete(p)
  {
    var line := SummaryLine("delete", mode, p);
    assert line == DeletePrefix + (" mode " + mode + " " + p);
    StartsWithConcat(DeletePrefix, " mode " + mode + " " + p);
    assert ' ' !in "delete";
    SummaryPathOf("delete", mode, p);
  }

  lemma ClassifyCreateLine(mode: string, p: string)
    requires ' ' !in mode
    ensures Classify(SummaryLine("create", mode, p)) == Create(p)
  {
    var line := SummaryLine("create", mode, p);
    assert line == CreatePrefix + (" mode " + mode + " " + p);
    StartsWithConcat(CreatePrefix, " mode " + mode + " " + p);
    NotDeleteLine(line);
    assert ' ' !in "create";
    SummaryPathOf("create", mode, p);
  }

  lemma NotDeleteLine(line: string)
    requires StartsWith(line, CreatePrefix)
    ensures !StartsWith(line, DeletePrefix)
  {
    assert line[1] == CreatePrefix[1] == 'c';
    assert DeletePrefix[1] == 'd';
  }

  /** The three fields of `x<TAB>y<TAB>p`. */
  lemma NumStatFieldsOf(x: string, y: string, p: string)
    requires '\t' !in x && '\t' !in y && '\t' !in p
    ensures NumStatFields(x + "\t" + y + "\t" + p) == Some((x, y, p))
  {
    var parts := [x, y, p];
    assert Join(parts, '\t') == x + "\t" + y + "\t" + p by {
      assert Join(parts[2..], '\t') == p;
      assert Join(parts[1..], '\t') == y + "\t" + p;
    }
    SplitJoin(parts, '\t');
  }

  lemma DigitsHaveNoTab(s: string)
    requires AllDigits(s)
    ensures '\t' !in s && s != "-"
  {
    forall i | 0 <= i < |s|
      ensures s[i] != '\t' && s[i] != '-'
    {
      assert IsDigit(s[i]);
    }
    assert "-"[0] == '-';
  }

  /** The numstat line git prints for a file with `a` lines added and `r`
      removed. */
  function NumStatLine(a: nat, r: nat, p: string): string {
    ShowNat(a) + "\t" + ShowNat(r) + "\t" + p
  }

  /** A numstat line as git prints it is read back with its counts. */
  lemma ClassifyNumStatLine(a: nat, r: nat, p: string)
    requires '\t' !in p
    ensures Classify(NumStatLine(a, r, p)) == NumStat(a, r, p)
  {
    var x, y := ShowNat(a), ShowNat(r);
    var line := NumStatLine(a, r, p);
    DigitsHaveNoTab(x);
    DigitsHaveNoTab(y);
    assert line[0] == x[0] && IsDigit(x[0]);
    NoSummaryPrefix(line);
    NumStatFieldsOf(x, y, p);
    ParseIntShowNat(a);
    ParseIntShowNat(r);
  }

  /** A binary file's numstat line is recognised as such. */
  lemma ClassifyBinaryLine(p: string)
    requires '\t' !in p
    ensures Classify("-\t-\t" + p) == Binary(p)
  {
    var line := "-\t-\t" + p;
    assert line == "-" + "\t" + "-" + "\t" + p;
    assert line[0] == '-';
    NoSummaryPrefix(line);
    NumStatFieldsOf("-", "-", p);
  }

  /** A line with no tab has one field where three are unpacked, so the
      run ends; this is the fate of every summary line other than the three
      recognised ones, such as git's ` rename old => new (100%)`. */
  lemma ClassifyOtherSummary(line: string)
    requires '\t' !in line
    requires !StartsWith(line, DeletePrefix) && !StartsWith(line, CreatePrefix) && !StartsWith(line, ModePrefix)
    ensures Classify(line).Malformed?
  {
    SplitJoin([line], '\t');
  }
}
