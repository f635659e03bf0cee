/**
 * Specification of the line reader of csv_checker.py (`_read_csv_file`): blank lines are
 * dropped, the first remaining line is the header, every later line is split at its first
 * ';' into two stripped columns, and problems cite the line numbers of the file as read.
 */
module CsvReader {
  import opened Strings
  import opened Diagnostics

  /** What opening one file yields: its decoded lines, or the failure that stopped the read. */
  datatype Content = Text(lines: seq<string>) | Undecodable | Unreadable(reason: string)

  /** A non-blank line: its 1-based number in the file and its stripped text. */
  datatype NumberedLine = NumberedLine(num: nat, text: string)

  /** What the reader returns: the data rows (lists of columns) and the problems found. */
  datatype Parsed = Parsed(rows: seq<seq<string>>, problems: seq<Problem>)

  /** Every line stripped of surrounding white space, as the reader does before anything else. */
  function StrippedLines(lines: seq<string>): (ss: seq<string>)
    ensures |ss| == |lines|
  {
    seq(|lines|, i requires 0 <= i < |lines| => Strip(lines[i]))
  }

  /** The non-empty strings of `ss` with their 1-based positions, in order. */
  function Numbered(ss: seq<string>): (e: seq<NumberedLine>)
    ensures |e| <= |ss|
    ensures forall k | 0 <= k < |e| :: 1 <= e[k].num <= |ss| && e[k].text == ss[e[k].num - 1] && e[k].text != ""
    ensures forall k, m | 0 <= k < m < |e| :: e[k].num < e[m].num
  {
    if ss == [] then []
    else
      var init := Numbered(ss[..|ss| - 1]);
      var text := ss[|ss| - 1];
      if text == "" then init else init + [NumberedLine(|ss|, text)]
  }

  /** The non-blank lines of a file, in file order, each with its original line number and
      its stripped text. */
  function NonBlank(lines: seq<string>): seq<NumberedLine> {
    Numbered(StrippedLines(lines))
  }

  /** Every non-empty string is among the numbered ones. */
  lemma {:induction false} NumberedCovers(ss: seq<string>, i: nat)
    requires i < |ss| && ss[i] != ""
    ensures exists k :: 0 <= k < |Numbered(ss)| && Numbered(ss)[k] == NumberedLine(i + 1, ss[i])
  {
    var init := ss[..|ss| - 1];
    if i < |ss| - 1 {
      NumberedCovers(init, i);
      var k :| 0 <= k < |Numbered(init)| && Numbered(init)[k] == NumberedLine(i + 1, init[i]);
      assert Numbered(ss)[k] == Numbered(init)[k];
    } else {
      assert Numbered(ss)[|Numbered(ss)| - 1] == NumberedLine(i + 1, ss[i]);
    }
  }

  /** Whitespace-only lines are dropped and every other line is kept, numbered as in the file. */
  lemma NonBlankSpec(lines: seq<string>)
    ensures forall k | 0 <= k < |NonBlank(lines)| ::
      var l := NonBlank(lines)[k];
      1 <= l.num <= |lines| && l.text == Strip(lines[l.num - 1]) && !AllSpace(lines[l.num - 1])
    ensures forall i | 0 <= i < |lines| && !AllSpace(lines[i]) ::
      exists k :: 0 <= k < |NonBlank(lines)| && NonBlank(lines)[k] == NumberedLine(i + 1, Strip(lines[i]))
  {
    forall k | 0 <= k < |NonBlank(lines)|
      ensures !AllSpace(lines[NonBlank(lines)[k].num - 1])
    {
      StripBlank(lines[NonBlank(lines)[k].num - 1]);
    }
    forall i | 0 <= i < |lines| && !AllSpace(lines[i])
      ensures exists k :: 0 <= k < |NonBlank(lines)| && NonBlank(lines)[k] == NumberedLine(i + 1, Strip(lines[i]))
    {
      NonBlankKeeps(lines, i);
    }
  }

  /** A line that is not blank is kept, stripped, under its own number. */
  lemma NonBlankKeeps(lines: seq<string>, i: nat)
    requires i < |lines| && !AllSpace(lines[i])
    ensures exists k :: 0 <= k < |NonBlank(lines)| && NonBlank(lines)[k] == NumberedLine(i + 1, Strip(lines[i]))
  {
    var ss := StrippedLines(lines);
    StripBlank(lines[i]);
    assert ss[i] == Strip(lines[i]);
    NumberedCovers(ss, i);
    var k :| 0 <= k < |Numbered(ss)| && Numbered(ss)[k] == NumberedLine(i + 1, ss[i]);
    assert NonBlank(lines)[k] == NumberedLine(i + 1, Strip(lines[i]));
  }

  /** The columns of a data line: the line split at its first ';', each piece stripped. */
  function Columns(text: string): (cols: seq<string>)
    ensures |cols| == if ';' in text then 2 else 1
  {
    var parts := SplitOnce(text, ';');
    seq(|parts|, i requires 0 <= i < |parts| => Strip(parts[i]))
  }

  /** A data line's columns are the code before its first ';' (which holds no ';') and the
      rest of the line, which may, both stripped. */
  lemma ColumnsSpec(text: string)
    requires ';' in text
    ensures var cols := Columns(text);
      && ';' !in cols[0]
      && cols[0] == Strip(SplitOnce(text, ';')[0]) && cols[1] == Strip(SplitOnce(text, ';')[1])
      && Strip(cols[0]) == cols[0] && Strip(cols[1]) == cols[1]
  {
    var parts := SplitOnce(text, ';');
    SplitOnceSpec(text, ';');
    StripKeeps(parts[0], ';');
    StripIdempotent(parts[0]);
    StripIdempotent(parts[1]);
  }

  /** The rows a data line contributes: its columns, when it has a ';'. */
  function LineRow(l: NumberedLine): seq<seq<string>> {
    if ';' !in l.text then []
    else if |Columns(l.text)| < 2 then []
    else [Columns(l.text)]
  }

  /** The problems a data line contributes; the second one cannot arise since a line with ';'
      always splits into two columns, and is kept because the reader has that branch. */
  function LineProblem(l: NumberedLine): seq<Problem> {
    if ';' !in l.text then [InvalidLine(l.num, l.text)]
    else if |Columns(l.text)| < 2 then [MissingColumns(l.num, l.text)]
    else []
  }

  function Rows(e: seq<NumberedLine>): seq<seq<string>> {
    if e == [] then [] else Rows(e[..|e| - 1]) + LineRow(e[|e| - 1])
  }

  function LineProblems(e: seq<NumberedLine>): seq<Problem> {
    if e == [] then [] else LineProblems(e[..|e| - 1]) + LineProblem(e[|e| - 1])
  }

  function HeaderProblems(header: NumberedLine): seq<Problem> {
    if ';' !in header.text then [InvalidHeader(header.num, header.text)] else []
  }

  /** What the reader returns once the non-blank lines are known. */
  function ParseNumbered(e: seq<NumberedLine>): (p: Parsed)
    ensures forall q | q in p.problems :: q.FromReader()
  {
    if e == [] then Parsed([], [FileEmpty])
    else
      ReaderProblemsKinds(e[1..]);
      Parsed(Rows(e[1..]), HeaderProblems(e[0]) + LineProblems(e[1..]))
  }

  /** What `_read_csv_file` returns for a file's content. */
  function Parse(c: Content): (p: Parsed)
    ensures forall q | q in p.problems :: q.FromReader()
  {
    match c
    case Undecodable => Parsed([], [EncodingError])
    case Unreadable(reason) => Parsed([], [ReadFailure(reason)])
    case Text(lines) => ParseNumbered(NonBlank(lines))
  }

  predicate Increasing(e: seq<NumberedLine>) {
    forall k, m | 0 <= k < m < |e| :: e[k].num < e[m].num
  }

  lemma {:induction false} ReaderProblemsKinds(e: seq<NumberedLine>)
    ensures forall q | q in LineProblems(e) :: q.InvalidLine? || q.MissingColumns?
  {
    if e != [] {
      ReaderProblemsKinds(e[..|e| - 1]);
    }
  }

  /** Every data line yields exactly one row or exactly one problem. */
  lemma {:induction false} OneOutcomePerLine(e: seq<NumberedLine>)
    ensures |Rows(e)| + |LineProblems(e)| == |e|
  {
    if e != [] {
      OneOutcomePerLine(e[..|e| - 1]);
    }
  }

  /** Each row is a data line's two stripped columns: a code without ';' and the rest of the line. */
  lemma {:induction false} RowsShape(e: seq<NumberedLine>)
    ensures forall r | r in Rows(e) ::
      |r| == 2 && ';' !in r[0] && Strip(r[0]) == r[0] && Strip(r[1]) == r[1]
  {
    if e != [] {
      RowsShape(e[..|e| - 1]);
      var l := e[|e| - 1];
      if ';' in l.text {
        ColumnsSpec(l.text);
      }
    }
  }

  /** `row` is the columns of one of the lines `e` that contain a ';'. */
  predicate FromDataLine(e: seq<NumberedLine>, row: seq<string>) {
    exists k | 0 <= k < |e| :: ';' in e[k].text && row == Columns(e[k].text)
  }

  /** Each row comes from a data line with a ';', split into its columns. */
  lemma RowsFromLines(e: seq<NumberedLine>)
    ensures forall j | 0 <= j < |Rows(e)| :: FromDataLine(e, Rows(e)[j])
  {
    forall j | 0 <= j < |Rows(e)| ensures FromDataLine(e, Rows(e)[j]) {
      RowFromLine(e, j);
    }
  }

  /** Row `j` is the columns of some data line with a ';'. */
  lemma {:induction false} RowFromLine(e: seq<NumberedLine>, j: nat)
    requires j < |Rows(e)|
    ensures FromDataLine(e, Rows(e)[j])
  {
    var init := e[..|e| - 1];
    var last := e[|e| - 1];
    assert Rows(e) == Rows(init) + LineRow(last);
    if j < |Rows(init)| {
      RowFromLine(init, j);
      var k :| 0 <= k < |init| && ';' in init[k].text && Rows(init)[j] == Columns(init[k].text);
      assert e[k] == init[k];
      assert Rows(e)[j] == Rows(init)[j];
    } else {
      assert ';' in last.text && LineRow(last) == [Columns(last.text)];
      assert Rows(e)[j] == Columns(e[|e| - 1].text);
    }
  }

  /** One more data line: the step the reader's loop takes. */
  lemma LinesStep(e: seq<NumberedLine>, j: nat)
    requires 1 <= j < |e|
    ensures Rows(e[1..j + 1]) == Rows(e[1..j]) + LineRow(e[j])
    ensures LineProblems(e[1..j + 1]) == LineProblems(e[1..j]) + LineProblem(e[j])
  {
    assert e[1..j + 1][..j - 1] == e[1..j];
  }

  /** Problems on data lines cite lines within the numbered lines' range, in file order. */
  lemma {:induction false} LineProblemsOrdered(e: seq<NumberedLine>)
    requires Increasing(e)
    ensures forall q | q in LineProblems(e) :: q.HasLine() && e[0].num <= q.line <= e[|e| - 1].num
    ensures forall i, j | 0 <= i < j < |LineProblems(e)| ::
      LineProblems(e)[i].HasLine() && LineProblems(e)[j].HasLine() && LineProblems(e)[i].line < LineProblems(e)[j].line
  {
    ReaderProblemsKinds(e);
    if e != [] {
      var init := e[..|e| - 1];
      var last := e[|e| - 1];
      LineProblemsOrdered(init);
      var ip := LineProblems(init);
      var lp := LineProblem(last);
      assert LineProblems(e) == ip + lp;
      assert forall q | q in ip :: q.line < last.num by {
        if init != [] {
          assert init[|init| - 1] == e[|e| - 2];
        }
      }
      assert forall q | q in lp :: q.line == last.num;
      assert forall q | q in ip :: e[0].num <= q.line by {
        if init != [] {
          assert init[0] == e[0];
        }
      }
      forall i, j | 0 <= i < j < |LineProblems(e)|
        ensures LineProblems(e)[i].line < LineProblems(e)[j].line
      {
        if j >= |ip| {
          assert LineProblems(e)[j] in lp;
          if i < |ip| {
            assert LineProblems(e)[i] in ip;
          }
        } else {
          assert LineProblems(e)[i] == ip[i] && LineProblems(e)[j] == ip[j];
        }
      }
    }
  }

  /** A data line always splits into two columns, so the "missing columns" branch is dead. */
  lemma {:induction false} NoMissingColumnsIn(e: seq<NumberedLine>)
    ensures forall q | q in LineProblems(e) :: !q.MissingColumns?
  {
    if e != [] {
      NoMissingColumnsIn(e[..|e| - 1]);
    }
  }

  /** The reader never reports missing columns, whatever the file holds. */
  lemma NoMissingColumns(c: Content)
    ensures forall q | q in Parse(c).problems :: !q.MissingColumns?
  {
    if c.Text? && NonBlank(c.lines) != [] {
      NoMissingColumnsIn(NonBlank(c.lines)[1..]);
    }
  }

  /** The outcomes of the first `k` lines are a prefix of the outcomes of all of them. */
  lemma {:induction false} OutcomesPrefix(e: seq<NumberedLine>, k: nat)
    requires k <= |e|
    ensures Rows(e[..k]) <= Rows(e)
    ensures LineProblems(e[..k]) <= LineProblems(e)
    decreases |e|
  {
    if k < |e| {
      var init := e[..|e| - 1];
      assert e[..k] == init[..k];
      OutcomesPrefix(init, k);
    } else {
      assert e[..k] == e;
    }
  }

  /** The outcomes of the first `k + 1` lines: those of the first `k`, then line `k`'s own. */
  lemma OutcomesSnoc(e: seq<NumberedLine>, k: nat)
    requires k < |e|
    ensures Rows(e[..k + 1]) == Rows(e[..k]) + LineRow(e[k])
    ensures LineProblems(e[..k + 1]) == LineProblems(e[..k]) + LineProblem(e[k])
  {
    var p := e[..k + 1];
    assert p[..|p| - 1] == e[..k] && p[|p| - 1] == e[k];
  }

  /**
   * Each data line gets its own outcome, in file order: a line without ';' gives exactly the
   * "invalid line" problem citing its own number and text, and comes after the problems of the
   * lines before it; a line with ';' gives the row of its columns, right after the rows of the
   * lines before it, and no problem.
   */
  lemma LineOutcome(e: seq<NumberedLine>, k: nat)
    requires k < |e|
    ensures Rows(e[..k]) + LineRow(e[k]) <= Rows(e)
    ensures LineProblems(e[..k]) + LineProblem(e[k]) <= LineProblems(e)
    ensures ';' !in e[k].text ==>
      && LineRow(e[k]) == [] && LineProblem(e[k]) == [InvalidLine(e[k].num, e[k].text)]
      && InvalidLine(e[k].num, e[k].text) in LineProblems(e)
      && LineProblems(e)[|LineProblems(e[..k])|] == InvalidLine(e[k].num, e[k].text)
    ensures ';' in e[k].text ==>
      && LineRow(e[k]) == [Columns(e[k].text)] && LineProblem(e[k]) == []
      && Columns(e[k].text) in Rows(e)
      && Rows(e)[|Rows(e[..k])|] == Columns(e[k].text)
  {
    OutcomesPrefix(e, k + 1);
    OutcomesSnoc(e, k);
    var rs, ps := Rows(e[..k]), LineProblems(e[..k]);
    if ';' in e[k].text {
      assert Rows(e)[|rs|] == (rs + [Columns(e[k].text)])[|rs|];
    } else {
      assert LineProblems(e)[|ps|] == (ps + [InvalidLine(e[k].num, e[k].text)])[|ps|];
    }
  }

  /** A data line with ';' adds a row: more rows come from the lines up to any later point. */
  lemma RowCountGrows(e: seq<NumberedLine>, k: nat, m: nat)
    requires k < m <= |e| && ';' in e[k].text
    ensures |Rows(e[..k])| < |Rows(e[..m])|
  {
    OutcomesSnoc(e, k);
    OutcomesPrefix(e[..m], k + 1);
    assert e[..m][..k + 1] == e[..k + 1];
  }

  /** Every line-format problem comes from one data line, and cites that line's number. */
  lemma {:induction false} ProblemFromLine(e: seq<NumberedLine>, q: Problem)
    requires q in LineProblems(e)
    ensures exists m :: 0 <= m < |e| && q in LineProblem(e[m]) && q.HasLine() && q.line == e[m].num
  {
    var init := e[..|e| - 1];
    if q in LineProblems(init) {
      ProblemFromLine(init, q);
      var m :| 0 <= m < |init| && q in LineProblem(init[m]) && q.HasLine() && q.line == init[m].num;
      assert e[m] == init[m];
    } else {
      assert q in LineProblem(e[|e| - 1]);
    }
  }

  /** When line numbers increase, the problems citing a data line's number are exactly that
      line's own outcome: the one "invalid line" problem when it lacks ';', and none otherwise. */
  lemma ProblemsOfLine(e: seq<NumberedLine>, k: nat)
    requires Increasing(e) && k < |e|
    ensures forall q :: q in LineProblems(e) && q.HasLine() && q.line == e[k].num <==> q in LineProblem(e[k])
  {
    forall q | q in LineProblems(e) && q.HasLine() && q.line == e[k].num
      ensures q in LineProblem(e[k])
    {
      CitingProblemIsOwn(e, k, q);
    }
    forall q | q in LineProblem(e[k])
      ensures q in LineProblems(e) && q.HasLine() && q.line == e[k].num
    {
      OwnProblemReported(e, k, q);
    }
  }

  /** A problem citing line `k`'s number is line `k`'s own, since numbers do not repeat. */
  lemma CitingProblemIsOwn(e: seq<NumberedLine>, k: nat, q: Problem)
    requires Increasing(e) && k < |e|
    requires q in LineProblems(e) && q.HasLine() && q.line == e[k].num
    ensures q in LineProblem(e[k])
  {
    ProblemFromLine(e, q);
    var m :| 0 <= m < |e| && q in LineProblem(e[m]) && q.HasLine() && q.line == e[m].num;
    assert m == k;
  }

  /** Line `k`'s own problem is reported, citing its number. */
  lemma OwnProblemReported(e: seq<NumberedLine>, k: nat, q: Problem)
    requires k < |e| && q in LineProblem(e[k])
    ensures q in LineProblems(e) && q.HasLine() && q.line == e[k].num
  {
    LineOutcome(e, k);
    var ps := LineProblems(e[..k]);
    assert q == (ps + LineProblem(e[k]))[|ps|];
    assert LineProblems(e)[|ps|] == q;
  }

  /** Rows keep the order of their lines: of two data lines with ';', the earlier one's row
      comes first. */
  lemma RowsInLineOrder(e: seq<NumberedLine>, k: nat, m: nat)
    requires k < m < |e| && ';' in e[k].text && ';' in e[m].text
    ensures |Rows(e[..k])| < |Rows(e[..m])| < |Rows(e)|
    ensures Rows(e)[|Rows(e[..k])|] == Columns(e[k].text)
    ensures Rows(e)[|Rows(e[..m])|] == Columns(e[m].text)
  {
    LineOutcome(e, k);
    LineOutcome(e, m);
    RowCountGrows(e, k, m);
    RowCountGrows(e, m, |e|);
    assert e[..|e|] == e;
  }

  /** A file with no non-blank line gives exactly the one "empty file" problem and no rows;
      any other text file never gives that problem. */
  lemma EmptyIffBlank(lines: seq<string>)
    ensures Parse(Text(lines)) == Parsed([], [FileEmpty]) <==> forall i | 0 <= i < |lines| :: AllSpace(lines[i])
  {
    var ss := StrippedLines(lines);
    var e := NonBlank(lines);
    assert Parse(Text(lines)) == ParseNumbered(e);
    NumberedEmpty(ss);
    BlankStripped(lines);
    ParsedEmptyIff(e);
  }

  lemma BlankStripped(lines: seq<string>)
    ensures forall i | 0 <= i < |lines| :: StrippedLines(lines)[i] == "" <==> AllSpace(lines[i])
  {
    forall i | 0 <= i < |lines| ensures StrippedLines(lines)[i] == "" <==> AllSpace(lines[i]) {
      StripBlank(lines[i]);
    }
  }

  lemma ParsedEmptyIff(e: seq<NumberedLine>)
    ensures ParseNumbered(e) == Parsed([], [FileEmpty]) <==> e == []
  {
    if e != [] {
      ReaderProblemsKinds(e[1..]);
      assert FileEmpty !in ParseNumbered(e).problems;
    }
  }

  lemma NumberedEmpty(ss: seq<string>)
    ensures Numbered(ss) == [] <==> forall i | 0 <= i < |ss| :: ss[i] == ""
  {
    if exists i :: 0 <= i < |ss| && ss[i] != "" {
      var i :| 0 <= i < |ss| && ss[i] != "";
      NumberedCovers(ss, i);
    }
  }

  /** The header is never a row: rows come from the lines after it, at most one per line. */
  lemma HeaderNotARow(e: seq<NumberedLine>)
    requires e != []
    ensures |ParseNumbered(e).rows| < |e|
  {
    OneOutcomePerLine(e[1..]);
  }

  /** A header without ';' gives exactly one "invalid header" problem, first in the list and
      citing the header's own line number; a header with ';' gives none. */
  lemma HeaderProblemIff(e: seq<NumberedLine>)
    requires e != []
    ensures var ps := ParseNumbered(e).problems;
      && (';' !in e[0].text ==> ps[0] == InvalidHeader(e[0].num, e[0].text))
      && (forall i | 1 <= i < |ps| :: !ps[i].InvalidHeader?)
      && ((exists q :: q in ps && q.InvalidHeader?) <==> ';' !in e[0].text)
  {
    ReaderProblemsKinds(e[1..]);
    var ps := ParseNumbered(e).problems;
    var lp := LineProblems(e[1..]);
    if ';' in e[0].text {
      assert ps == lp;
    } else {
      assert ps == [InvalidHeader(e[0].num, e[0].text)] + lp;
      assert ps[0] in ps;
    }
    forall i | 1 <= i < |ps| ensures !ps[i].InvalidHeader? {
      if ';' !in e[0].text {
        assert ps[i] == lp[i - 1] && lp[i - 1] in lp;
      } else {
        assert ps[i] == lp[i] && lp[i] in lp;
      }
    }
  }

  /** Problems of a text file cite line numbers in strictly increasing order: file order. */
  lemma ProblemsInFileOrder(e: seq<NumberedLine>)
    requires e != [] && Increasing(e)
    ensures var ps := ParseNumbered(e).problems;
      && (forall q | q in ps :: q.HasLine() && e[0].num <= q.line)
      && (forall i, j | 0 <= i < j < |ps| :: ps[i].HasLine() && ps[j].HasLine() && ps[i].line < ps[j].line)
  {
    var hp := HeaderProblems(e[0]);
    var lp := LineProblems(e[1..]);
    ReaderProblemsKinds(e[1..]);
    if |e| > 1 {
      LineProblemsOrdered(e[1..]);
      assert e[1..][0] == e[1];
    } else {
      assert lp == [];
    }
    assert ParseNumbered(e).problems == hp + lp;
    OrderedConcat(hp, lp);
  }

  /** Problems in increasing line order, followed by problems on later lines in increasing
      order, stay in increasing order. */
  lemma OrderedConcat(hp: seq<Problem>, lp: seq<Problem>)
    requires forall q | q in hp :: q.HasLine()
    requires forall q | q in lp :: q.HasLine()
    requires forall i, j | 0 <= i < j < |hp| :: hp[i].HasLine() && hp[j].HasLine() && hp[i].line < hp[j].line
    requires forall i, j | 0 <= i < j < |lp| :: lp[i].HasLine() && lp[j].HasLine() && lp[i].line < lp[j].line
    requires forall a, b | a in hp && b in lp :: a.HasLine() && b.HasLine() && a.line < b.line
    ensures forall i, j | 0 <= i < j < |hp + lp| ::
      (hp + lp)[i].HasLine() && (hp + lp)[j].HasLine() && (hp + lp)[i].line < (hp + lp)[j].line
  {
    var ps := hp + lp;
    forall i, j | 0 <= i < j < |ps| ensures ps[i].HasLine() && ps[j].HasLine() && ps[i].line < ps[j].line {
      if j < |hp| {
        assert ps[i] == hp[i] && ps[j] == hp[j];
      } else if i >= |hp| {
        assert ps[i] == lp[i - |hp|] && ps[j] == lp[j - |hp|];
      } else {
        assert ps[i] == hp[i] && ps[j] == lp[j - |hp|];
        assert hp[i] in hp && lp[j - |hp|] in lp;
      }
    }
  }

  /** Number `n` of a line once a blank line has been inserted after line `k`. */
  function Bump(n: nat, k: nat): nat {
    if n > k then n + 1 else n
  }

  function RenumberLines(e: seq<NumberedLine>, k: nat): (r: seq<NumberedLine>)
    ensures |r| == |e|
  {
    seq(|e|, i requires 0 <= i < |e| => NumberedLine(Bump(e[i].num, k), e[i].text))
  }

  function RenumberProblem(p: Problem, k: nat): Problem {
    match p
    case InvalidHeader(n, c) => InvalidHeader(Bump(n, k), c)
    case InvalidLine(n, c) => InvalidLine(Bump(n, k), c)
    case MissingColumns(n, c) => MissingColumns(Bump(n, k), c)
    case _ => p
  }

  function RenumberProblems(ps: seq<Problem>, k: nat): (r: seq<Problem>)
    ensures |r| == |ps|
  {
    seq(|ps|, i requires 0 <= i < |ps| => RenumberProblem(ps[i], k))
  }

  lemma RenumberLinesConcat(e1: seq<NumberedLine>, e2: seq<NumberedLine>, k: nat)
    ensures RenumberLines(e1 + e2, k) == RenumberLines(e1, k) + RenumberLines(e2, k)
  {
  }

  lemma RenumberProblemsConcat(p1: seq<Problem>, p2: seq<Problem>, k: nat)
    ensures RenumberProblems(p1 + p2, k) == RenumberProblems(p1, k) + RenumberProblems(p2, k)
  {
  }

  /** Numbering the strings of `ss` only ever yields numbers up to `|ss|`. */
  lemma RenumberBelow(e: seq<NumberedLine>, k: nat)
    requires forall i | 0 <= i < |e| :: e[i].num <= k
    ensures RenumberLines(e, k) == e
  {
  }

  /** One step of `Numbered`: the last string, when non-empty, is appended with its position. */
  lemma NumberedSnoc(ss: seq<string>, x: string)
    ensures Numbered(ss + [x]) == Numbered(ss) + (if x == "" then [] else [NumberedLine(|ss| + 1, x)])
  {
    assert (ss + [x])[..|ss|] == ss;
  }

  lemma {:induction false} NumberedInsertEmpty(a: seq<string>, b: seq<string>)
    ensures Numbered(a + [""] + b) == RenumberLines(Numbered(a + b), |a|)
    decreases |b|
  {
    if b == [] {
      NumberedSnoc(a, "");
      assert a + [""] + b == a + [""];
      assert a + b == a;
      RenumberBelow(Numbered(a), |a|);
    } else {
      var b' := b[..|b| - 1];
      var x := b[|b| - 1];
      NumberedInsertEmpty(a, b');
      assert a + [""] + b == (a + [""] + b') + [x];
      assert a + b == (a + b') + [x];
      InsertedStep(a + [""] + b', a + b', x, |a|);
    }
  }

  /** The step of `NumberedInsertEmpty`: `u` is `v` with an empty string inserted after
      position `k`, and one more string is appended to both. */
  lemma InsertedStep(u: seq<string>, v: seq<string>, x: string, k: nat)
    requires |u| == |v| + 1 && k <= |v|
    requires Numbered(u) == RenumberLines(Numbered(v), k)
    ensures Numbered(u + [x]) == RenumberLines(Numbered(v + [x]), k)
  {
    NumberedSnoc(u, x);
    NumberedSnoc(v, x);
    if x == "" {
      assert v + [x] == v + [""];
    } else {
      var tail := [NumberedLine(|v| + 1, x)];
      RenumberLinesConcat(Numbered(v), tail, k);
      assert RenumberLines(tail, k) == [NumberedLine(|u| + 1, x)];
    }
  }

  lemma LineRenumbered(l: NumberedLine, k: nat)
    ensures LineRow(NumberedLine(Bump(l.num, k), l.text)) == LineRow(l)
    ensures LineProblem(NumberedLine(Bump(l.num, k), l.text)) == RenumberProblems(LineProblem(l), k)
  {
  }

  lemma {:induction false} RowsRenumbered(e: seq<NumberedLine>, k: nat)
    ensures Rows(RenumberLines(e, k)) == Rows(e)
    ensures LineProblems(RenumberLines(e, k)) == RenumberProblems(LineProblems(e), k)
  {
    if e != [] {
      var init, last := e[..|e| - 1], e[|e| - 1];
      RowsRenumbered(init, k);
      var r := RenumberLines(e, k);
      assert r[..|r| - 1] == RenumberLines(init, k);
      assert r[|r| - 1] == NumberedLine(Bump(last.num, k), last.text);
      LineRenumbered(last, k);
      RenumberProblemsConcat(LineProblems(init), LineProblem(last), k);
    }
  }

  lemma ParseRenumbered(e: seq<NumberedLine>, k: nat)
    ensures ParseNumbered(RenumberLines(e, k)).rows == ParseNumbered(e).rows
    ensures ParseNumbered(RenumberLines(e, k)).problems == RenumberProblems(ParseNumbered(e).problems, k)
  {
    if e != [] {
      var r := RenumberLines(e, k);
      assert r[1..] == RenumberLines(e[1..], k);
      RowsRenumbered(e[1..], k);
      var hp := HeaderProblems(e[0]);
      var lp := LineProblems(e[1..]);
      assert HeaderProblems(r[0]) == RenumberProblems(hp, k);
      RenumberProblemsConcat(hp, lp, k);
    }
  }

  /**
   * A blank line is invisible: inserting one after line `|a|` leaves the rows unchanged, and
   * the problems unchanged except that those citing a later line now cite it one further on,
   * because problems cite the line numbers of the file as read.
   */
  lemma BlankLineTransparent(a: seq<string>, blank: string, b: seq<string>)
    requires AllSpace(blank)
    ensures Parse(Text(a + [blank] + b)).rows == Parse(Text(a + b)).rows
    ensures Parse(Text(a + [blank] + b)).problems == RenumberProblems(Parse(Text(a + b)).problems, |a|)
  {
    StripBlank(blank);
    var sa, sb := StrippedLines(a), StrippedLines(b);
    assert StrippedLines(a + [blank] + b) == sa + [""] + sb;
    assert StrippedLines(a + b) == sa + sb;
    NumberedInsertEmpty(sa, sb);
    ParseRenumbered(Numbered(sa + sb), |a|);
  }
}
