/**
  Stage 7 of the converter: pipe tables.

  The input is split into lines, every line is trimmed, and each maximal run of lines
  containing `|` is replaced by the HTML of one table; the other lines stay where they are.
  A run of fewer than two lines, or one whose second line has no `-`, is put back as text.

  `Segments` is the reference grouping of lines into plain lines and table runs;
  `ConvertTablesLoop` is the converter's own line-by-line state machine, proved to agree
  with it.
 */
module MdTables {
  import opened Wrappers
  import opened Text

  predicate HasBar(line: string) {
    '|' in line
  }

  // ---------------------------------------------------------------------------
  // Cells

  /** `parts.map(c => c.trim()).filter(c => c)` */
  function NonEmptyTrimmed(parts: seq<string>): (r: seq<string>)
    ensures |r| <= |parts|
    ensures forall k :: 0 <= k < |r| ==> r[k] != [] && Trim(r[k]) == r[k]
    ensures forall k :: 0 <= k < |r| ==> exists j :: 0 <= j < |parts| && r[k] == Trim(parts[j])
    decreases |parts|
  {
    if parts == [] then []
    else
      var t := Trim(parts[0]);
      TrimIdempotent(parts[0]);
      var rest := NonEmptyTrimmed(parts[1..]);
      assert forall k :: 0 <= k < |rest| ==> exists j :: 0 <= j < |parts| && rest[k] == Trim(parts[j]) by {
        forall k | 0 <= k < |rest|
          ensures exists j :: 0 <= j < |parts| && rest[k] == Trim(parts[j])
        {
          var j :| 0 <= j < |parts[1..]| && rest[k] == Trim(parts[1..][j]);
          assert rest[k] == Trim(parts[j + 1]);
        }
      }
      (if t == [] then [] else [t]) + rest
  }

  /** `line.split('|').map(c => c.trim()).filter(c => c)`: the cells of a table row. */
  function Cells(line: string): (r: seq<string>)
    ensures forall k :: 0 <= k < |r| ==> r[k] != [] && Trim(r[k]) == r[k] && '|' !in r[k]
  {
    var parts := Split(line, '|');
    var r := NonEmptyTrimmed(parts);
    assert forall k :: 0 <= k < |r| ==> '|' !in r[k] by {
      forall k | 0 <= k < |r|
        ensures '|' !in r[k]
      {
        var j :| 0 <= j < |parts| && r[k] == Trim(parts[j]);
        TrimChars(parts[j]);
      }
    }
    r
  }

  /** A cell is something `Cells` can return: non-empty, trimmed, without `|`. */
  predicate IsCell(c: string) {
    c != [] && Trim(c) == c && '|' !in c
  }

  /** A row written as `|c1|c2|...|`. */
  function RowLine(cells: seq<string>): string {
    Join([[]] + cells + [[]], "|")
  }

  /** Cells that are already cells survive `NonEmptyTrimmed` unchanged; empty pieces vanish. */
  lemma {:induction false} NonEmptyTrimmedKeeps(cells: seq<string>)
    requires forall k :: 0 <= k < |cells| ==> IsCell(cells[k])
    ensures NonEmptyTrimmed([[]] + cells + [[]]) == cells
  {
    assert ([[]] + cells + [[]])[1..] == cells + [[]];
    assert Trim([]) == [];
    KeepCells(cells);
  }

  lemma {:induction false} KeepCells(cells: seq<string>)
    requires forall k :: 0 <= k < |cells| ==> IsCell(cells[k])
    ensures NonEmptyTrimmed(cells + [[]]) == cells
    decreases |cells|
  {
    if cells == [] {
      assert Trim([]) == [];
      assert NonEmptyTrimmed([[]]) == [] + NonEmptyTrimmed([]);
    } else {
      assert (cells + [[]])[1..] == cells[1..] + [[]];
      assert IsCell(cells[0]);
      KeepCells(cells[1..]);
      HeadTail(cells);
    }
  }

  /** Writing cells as a row and reading the row back gives the same cells. */
  lemma RowLineCells(cells: seq<string>)
    requires forall k :: 0 <= k < |cells| ==> IsCell(cells[k])
    ensures HasBar(RowLine(cells))
    ensures Cells(RowLine(cells)) == cells
  {
    var parts := [[]] + cells + [[]];
    assert forall k :: 0 <= k < |parts| ==> '|' !in parts[k] by {
      forall k | 0 <= k < |parts|
        ensures '|' !in parts[k]
      {
        if 0 < k < |parts| - 1 {
          assert parts[k] == cells[k - 1];
        }
      }
    }
    SplitJoin(parts, '|');
    NonEmptyTrimmedKeeps(cells);
    assert RowLine(cells) == parts[0] + "|" + Join(parts[1..], "|");
    assert RowLine(cells)[0] == '|';
  }

  // ---------------------------------------------------------------------------
  // One table

  const TableOpen := "<table style=\"width: 100%; border-collapse: collapse; margin: 16px 0; font-size: 14px; box-shadow: 0 2px 8px rgba(0,0,0,0.1);\">"
  const HeadOpen := "<thead><tr style=\"background: #f8f9fa;\">"
  const HeaderCellOpen := "<th style=\"border: 1px solid #dee2e6; padding: 12px 8px; text-align: left; font-weight: bold; color: #495057;\">"
  const BodyCellOpen := "<th style=\"border: 1px solid #dee2e6; padding: 12px 8px; color: #495057;\">"

  /** A parsed table: header cells, then the cells of each data row. */
  datatype Table = Table(headers: seq<string>, body: seq<seq<string>>)

  /** Whether the lines of a run form a table, and which. */
  function ParseTable(rows: seq<string>): (t: Option<Table>)
    ensures t.None? <==> |rows| < 2 || '-' !in rows[1]
    ensures t.Some? ==> t.value.headers == Cells(rows[0]) && |t.value.body| == |rows| - 2
    ensures t.Some? ==> forall k :: 0 <= k < |t.value.body| ==> t.value.body[k] == Cells(rows[k + 2])
  {
    if |rows| < 2 || '-' !in rows[1] then None
    else Some(Table(Cells(rows[0]), CellsOfRows(rows[2..])))
  }

  function CellsOfRows(rows: seq<string>): (r: seq<seq<string>>)
    ensures |r| == |rows| && forall k :: 0 <= k < |rows| ==> r[k] == Cells(rows[k])
  {
    seq(|rows|, k requires 0 <= k < |rows| => Cells(rows[k]))
  }

  /** Background of the data row at `index`: white for even rows, grey for odd ones. */
  function Background(index: nat): (c: string)
    ensures c == "#ffffff" <==> index % 2 == 0
    ensures c == "#f8f9fa" <==> index % 2 == 1
  {
    if index % 2 == 0 then "#ffffff" else "#f8f9fa"
  }

  function HeaderCells(cells: seq<string>): string
    decreases |cells|
  {
    if cells == [] then [] else HeaderCellOpen + cells[0] + "</th>" + HeaderCells(cells[1..])
  }

  /** Data cells; they are `<th>` elements too, only styled differently. */
  function BodyCells(cells: seq<string>): string
    decreases |cells|
  {
    if cells == [] then [] else BodyCellOpen + cells[0] + "</th>" + BodyCells(cells[1..])
  }

  function DataRow(index: nat, cells: seq<string>): string {
    "<tr style=\"background: " + Background(index) + ";\">" + BodyCells(cells) + "</tr>"
  }

  /** The data rows, one `<tr>` each, numbered from 0. */
  function DataRows(body: seq<seq<string>>): (r: seq<string>)
    ensures |r| == |body|
    ensures forall k :: 0 <= k < |body| ==> r[k] == DataRow(k, body[k])
  {
    seq(|body|, k requires 0 <= k < |body| => DataRow(k, body[k]))
  }

  function Concat(parts: seq<string>): string
    decreases |parts|
  {
    if parts == [] then [] else parts[0] + Concat(parts[1..])
  }

  function RenderTable(t: Table): string {
    TableOpen + HeadOpen + HeaderCells(t.headers) + "</tr></thead>"
    + "<tbody>" + Concat(DataRows(t.body)) + "</tbody></table>"
  }

  /** `convertTableToHTML` */
  function TableToHtml(rows: seq<string>): string {
    match ParseTable(rows)
    case None => Join(rows, "\n")
    case Some(t) => RenderTable(t)
  }

  /** The lines of a markdown table for `t`: header row, a `|-|` separator, then the data rows. */
  function TableLines(t: Table): seq<string> {
    [RowLine(t.headers), "|-|"] + seq(|t.body|, k requires 0 <= k < |t.body| => RowLine(t.body[k]))
  }

  predicate WellFormedTable(t: Table) {
    (forall k :: 0 <= k < |t.headers| ==> IsCell(t.headers[k]))
    && (forall r, k :: 0 <= r < |t.body| && 0 <= k < |t.body[r]| ==> IsCell(t.body[r][k]))
  }

  /** Writing a table as markdown lines and parsing them back gives the same table. */
  lemma ParseTableLines(t: Table)
    requires WellFormedTable(t)
    ensures forall k :: 0 <= k < |TableLines(t)| ==> HasBar(TableLines(t)[k])
    ensures ParseTable(TableLines(t)) == Some(t)
  {
    var rows := TableLines(t);
    RowLineCells(t.headers);
    assert "|-|"[1] == '-';
    forall k | 0 <= k < |t.body|
      ensures HasBar(rows[k + 2]) && Cells(rows[k + 2]) == t.body[k]
    {
      assert rows[k + 2] == RowLine(t.body[k]);
      RowLineCells(t.body[k]);
    }
    assert "|-|"[0] == '|';
    var p := ParseTable(rows).value;
    assert p.body == t.body;
  }

  // ---------------------------------------------------------------------------
  // Grouping lines into runs

  datatype Segment = Plain(line: string) | Run(rows: seq<string>)

  /** Index of the first line at or after `i` without `|` (or the end). */
  function BarRunEnd(ls: seq<string>, i: nat): (j: nat)
    requires i <= |ls|
    ensures i <= j <= |ls|
    ensures forall k :: i <= k < j ==> HasBar(ls[k])
    ensures j == |ls| || !HasBar(ls[j])
    decreases |ls| - i
  {
    if i == |ls| || !HasBar(ls[i]) then i else BarRunEnd(ls, i + 1)
  }

  /** Reference grouping of `ls[i..]`: each maximal run of lines with `|` becomes one `Run`, other lines stay `Plain`. */
  function SegmentsFrom(ls: seq<string>, i: nat): seq<Segment>
    requires i <= |ls|
    decreases |ls| - i
  {
    if i == |ls| then []
    else if !HasBar(ls[i]) then [Plain(ls[i])] + SegmentsFrom(ls, i + 1)
    else
      var j := BarRunEnd(ls, i);
      [Run(ls[i..j])] + SegmentsFrom(ls, j)
  }

  function Segments(ls: seq<string>): seq<Segment> {
    SegmentsFrom(ls, 0)
  }

  /** The lines a list of segments covers, in order. */
  function Flatten(segs: seq<Segment>): seq<string>
    decreases |segs|
  {
    if segs == [] then []
    else (match segs[0] case Plain(l) => [l] case Run(rs) => rs) + Flatten(segs[1..])
  }

  /** Plain segments hold lines without `|`, runs are non-empty and all their lines have `|`, and no two runs touch. */
  ghost predicate Grouped(segs: seq<Segment>) {
    (forall k :: 0 <= k < |segs| && segs[k].Plain? ==> !HasBar(segs[k].line))
    && (forall k :: 0 <= k < |segs| && segs[k].Run? ==>
          segs[k].rows != [] && forall m :: 0 <= m < |segs[k].rows| ==> HasBar(segs[k].rows[m]))
    && (forall k :: 0 <= k < |segs| - 1 ==> !(segs[k].Run? && segs[k + 1].Run?))
  }

  lemma {:induction false} FlattenSegmentsFrom(ls: seq<string>, i: nat)
    requires i <= |ls|
    ensures Flatten(SegmentsFrom(ls, i)) == ls[i..]
    decreases |ls| - i
  {
    if i < |ls| {
      if !HasBar(ls[i]) {
        FlattenSegmentsFrom(ls, i + 1);
        assert ls[i..] == [ls[i]] + ls[i + 1..];
      } else {
        var j := BarRunEnd(ls, i);
        FlattenSegmentsFrom(ls, j);
        assert ls[i..] == ls[i..j] + ls[j..];
      }
    }
  }

  /** The grouping covers every line exactly once, in order. */
  lemma FlattenSegments(ls: seq<string>)
    ensures Flatten(Segments(ls)) == ls
  {
    FlattenSegmentsFrom(ls, 0);
  }

  lemma {:induction false} SegmentsFromGrouped(ls: seq<string>, i: nat)
    requires i <= |ls|
    ensures Grouped(SegmentsFrom(ls, i))
    ensures i < |ls| ==> SegmentsFrom(ls, i) != [] && (SegmentsFrom(ls, i)[0].Run? <==> HasBar(ls[i]))
    decreases |ls| - i
  {
    if i < |ls| {
      var segs := SegmentsFrom(ls, i);
      var j := if HasBar(ls[i]) then BarRunEnd(ls, i) else i + 1;
      SegmentsFromGrouped(ls, j);
      var rest := SegmentsFrom(ls, j);
      assert segs == [segs[0]] + rest;
      assert forall k :: 1 <= k < |segs| ==> segs[k] == rest[k - 1];
      assert rest != [] && segs[0].Run? ==> rest[0].Plain?;
    }
  }

  /** The grouping has the shape `Grouped` describes, and starts with a run exactly when the first line has `|`. */
  lemma SegmentsGrouped(ls: seq<string>)
    ensures Grouped(Segments(ls))
    ensures ls != [] ==> Segments(ls) != [] && (Segments(ls)[0].Run? <==> HasBar(ls[0]))
  {
    SegmentsFromGrouped(ls, 0);
  }

  /** A run of lines with `|` from `start` to `e`, where `e` ends the input or holds a line without `|`, is one segment. */
  lemma RunFrom(ls: seq<string>, start: nat, e: nat)
    requires start < e <= |ls|
    requires forall k :: start <= k < e ==> HasBar(ls[k])
    requires e == |ls| || !HasBar(ls[e])
    ensures SegmentsFrom(ls, start) == [Run(ls[start..e])] + SegmentsFrom(ls, e)
  {
    assert BarRunEnd(ls, start) == e;
  }

  /** Render each segment: a plain line as itself, a run with `table`. */
  function RenderWith(table: seq<string> -> string, segs: seq<Segment>): (r: seq<string>)
    ensures |r| == |segs|
    decreases |segs|
  {
    if segs == [] then []
    else [match segs[0] case Plain(l) => l case Run(rs) => table(rs)] + RenderWith(table, segs[1..])
  }

  /** Runs rendered by `convertTableToHTML`. */
  function Render(segs: seq<Segment>): (r: seq<string>) {
    RenderWith(TableToHtml, segs)
  }

  /** `f` applied to every line. */
  function MapLines(f: string -> string, lines: seq<string>): (r: seq<string>)
    ensures |r| == |lines| && forall k :: 0 <= k < |lines| ==> r[k] == f(lines[k])
  {
    seq(|lines|, k requires 0 <= k < |lines| => f(lines[k]))
  }

  /** `convertTables`, by reference: trim the lines, group them, render the groups, re-join. */
  function ConvertTables(html: string): string {
    Join(Render(Segments(MapLines(Trim, Split(html, '\n')))), "\n")
  }

  /**
    The loop state of `convertTables` after the lines before `i`: the lines from `start` on
    form the pending run (all with a bar), and what has been emitted, followed by the rendering
    of the lines from `start` on, is the whole rendering `want`.
   */
  ghost predicate Pending(table: seq<string> -> string, ls: seq<string>, want: seq<string>, result: seq<string>, start: nat, i: nat) {
    start <= i <= |ls|
    && (forall k :: start <= k < i ==> HasBar(ls[k]))
    && result + RenderWith(table, SegmentsFrom(ls, start)) == want
  }

  // One lemma per branch of the loop below, each keeping `Pending`.

  /** A line with a bar opens or extends the pending run. */
  lemma ExtendRun(table: seq<string> -> string, ls: seq<string>, want: seq<string>, result: seq<string>, start: nat, i: nat)
    requires Pending(table, ls, want, result, start, i) && i < |ls| && HasBar(ls[i])
    ensures Pending(table, ls, want, result, start, i + 1)
    ensures ls[start..i] + [ls[i]] == ls[start..i + 1]
  {
  }

  /** A line without a bar closes a non-empty pending run and is emitted after its table. */
  lemma CloseStep(table: seq<string> -> string, ls: seq<string>, want: seq<string>, result: seq<string>, start: nat, i: nat)
    requires Pending(table, ls, want, result, start, i) && start < i < |ls| && !HasBar(ls[i])
    ensures Pending(table, ls, want, result + [table(ls[start..i])] + [ls[i]], i + 1, i + 1)
  {
    RunFrom(ls, start, i);
    var run, t := ls[start..i], RenderWith(table, SegmentsFrom(ls, i + 1));
    assert RenderWith(table, SegmentsFrom(ls, i)) == [ls[i]] + t by {
      assert SegmentsFrom(ls, i) == [Plain(ls[i])] + SegmentsFrom(ls, i + 1);
      assert ([Plain(ls[i])] + SegmentsFrom(ls, i + 1))[1..] == SegmentsFrom(ls, i + 1);
    }
    assert RenderWith(table, SegmentsFrom(ls, start)) == [table(run)] + ([ls[i]] + t) by {
      assert ([Run(run)] + SegmentsFrom(ls, i))[1..] == SegmentsFrom(ls, i);
    }
  }

  /** A line without a bar outside a run is emitted as it is. */
  lemma PlainStep(table: seq<string> -> string, ls: seq<string>, want: seq<string>, result: seq<string>, i: nat)
    requires Pending(table, ls, want, result, i, i) && i < |ls| && !HasBar(ls[i])
    ensures Pending(table, ls, want, result + [ls[i]], i + 1, i + 1)
  {
    assert ([Plain(ls[i])] + SegmentsFrom(ls, i + 1))[1..] == SegmentsFrom(ls, i + 1);
  }

  /** At the end, a pending run is emitted as one table, and then everything has been emitted. */
  lemma EndStep(table: seq<string> -> string, ls: seq<string>, want: seq<string>, result: seq<string>, start: nat)
    requires Pending(table, ls, want, result, start, |ls|) && start < |ls|
    ensures result + [table(ls[start..])] == want
  {
    var run := ls[start..];
    assert ls[start..|ls|] == run;
    RunFrom(ls, start, |ls|);
    assert SegmentsFrom(ls, |ls|) == [];
    assert SegmentsFrom(ls, start) == [Run(run)];
    assert [Run(run)][1..] == [];
    assert RenderWith(table, [Run(run)]) == [table(run)];
  }

  /** At the end, with no pending run, everything has been emitted. */
  lemma DoneStep(table: seq<string> -> string, ls: seq<string>, want: seq<string>, result: seq<string>)
    requires Pending(table, ls, want, result, |ls|, |ls|)
    ensures result == want
  {
    assert SegmentsFrom(ls, |ls|) == [];
    assert result + [] == result;
  }

  /**
    One iteration of the loop of `convertTables` on the normalised line `line` (the `i`-th),
    with the in-table flag, the lines of the current run and the lines emitted so far.
   */
  method ConvertLine(table: seq<string> -> string, ghost ls: seq<string>, ghost want: seq<string>, ghost start: nat, i: nat,
                     line: string, inTable: bool, tableLines: seq<string>, result: seq<string>)
    returns (inTable': bool, tableLines': seq<string>, result': seq<string>, ghost start': nat)
    requires i < |ls| && line == ls[i]
    requires Pending(table, ls, want, result, start, i) && tableLines == ls[start..i] && (inTable <==> start < i)
    ensures Pending(table, ls, want, result', start', i + 1) && tableLines' == ls[start'..i + 1] && (inTable' <==> start' < i + 1)
    ensures HasBar(line) ==> result' == result && tableLines' == tableLines + [line]
    ensures !HasBar(line) && inTable ==> result' == result + [table(tableLines)] + [line] && tableLines' == []
    ensures !HasBar(line) && !inTable ==> result' == result + [line] && tableLines' == []
  {
    inTable', tableLines', result', start' := inTable, tableLines, result, start;
    if HasBar(line) && !inTable {
      ExtendRun(table, ls, want, result, start, i);
      inTable' := true;
      tableLines' := [line];
    } else if HasBar(line) && inTable {
      ExtendRun(table, ls, want, result, start, i);
      tableLines' := tableLines + [line];
    } else if inTable {
      CloseStep(table, ls, want, result, start, i);
      if |tableLines| > 0 {
        result' := result' + [table(tableLines)];
      }
      inTable' := false;
      tableLines' := [];
      result' := result' + [line];
      start' := i + 1;
    } else {
      PlainStep(table, ls, want, result, i);
      result' := result + [line];
      start' := i + 1;
    }
  }

  /**
    The loop of `convertTables`: one pass over the lines with an in-table flag, normalising
    each line with `norm`, collecting the lines of the current run and handing each finished
    run to `table`.
   */
  method ConvertLinesWith(lines: seq<string>, norm: string -> string, table: seq<string> -> string) returns (out: string)
    ensures out == Join(RenderWith(table, Segments(MapLines(norm, lines))), "\n")
  {
    ghost var ls := MapLines(norm, lines);
    ghost var want := RenderWith(table, Segments(ls));
    ghost var start: nat := 0;
    var inTable := false;
    var tableLines: seq<string> := [];
    var result: seq<string> := [];
    var i: nat := 0;
    assert result + want == want;
    while i < |lines|
      invariant i <= |lines| == |ls|
      invariant Pending(table, ls, want, result, start, i)
      invariant tableLines == ls[start..i]
      invariant inTable <==> start < i
    {
      var line := norm(lines[i]);
      assert line == ls[i];
      inTable, tableLines, result, start := ConvertLine(table, ls, want, start, i, line, inTable, tableLines, result);
      i := i + 1;
    }
    if inTable && |tableLines| > 0 {
      EndStep(table, ls, want, result, start);
      assert tableLines == ls[start..];
      result := result + [table(tableLines)];
    } else {
      DoneStep(table, ls, want, result);
    }
    out := Join(result, "\n");
  }

  /** `convertTables` as the converter runs it, with runs rendered by `convertTableToHTML`. */
  method ConvertTablesLoop(html: string) returns (out: string)
    ensures out == ConvertTables(html)
  {
    out := ConvertLinesWith(Split(html, '\n'), Trim, TableToHtml);
  }

  /** Lines without `|` are only trimmed. */
  lemma {:induction false} NoBarOnlyTrims(ls: seq<string>, i: nat)
    requires i <= |ls|
    requires forall k :: i <= k < |ls| ==> !HasBar(ls[k])
    ensures RenderWith(TableToHtml, SegmentsFrom(ls, i)) == ls[i..]
    decreases |ls| - i
  {
    if i < |ls| {
      NoBarOnlyTrims(ls, i + 1);
      assert ([Plain(ls[i])] + SegmentsFrom(ls, i + 1))[1..] == SegmentsFrom(ls, i + 1);
      assert ls[i..] == [ls[i]] + ls[i + 1..];
    }
  }

  /** Text without `|` comes out as its trimmed lines. */
  lemma NoBarConvert(html: string)
    requires '|' !in html
    ensures ConvertTables(html) == Join(MapLines(Trim, Split(html, '\n')), "\n")
  {
    var parts := Split(html, '\n');
    var ls := MapLines(Trim, parts);
    forall k | 0 <= k < |ls|
      ensures !HasBar(ls[k])
    {
      TrimChars(parts[k]);
      assert forall c :: c in parts[k] ==> c in html by {
        SplitChars(html, '\n');
      }
    }
    NoBarOnlyTrims(ls, 0);
  }

  /** A whole table written in markdown, on lines of its own, becomes that table's HTML. */
  lemma TableConverted(t: Table)
    requires WellFormedTable(t)
    ensures Render(Segments(TableLines(t))) == [RenderTable(t)]
  {
    var rows := TableLines(t);
    ParseTableLines(t);
    RunFrom(rows, 0, |rows|);
    assert rows[0..|rows|] == rows;
    assert ([Run(rows)] + [])[1..] == [];
  }
}
