/** `create_table` of `pie/utils/text.py`: a list of items rendered as a
    column-aligned text table, coloured with ANSI codes when `rich`, and cut
    into pages of at most `limit` characters where possible.

    An item is a map from attribute name to its text (`str(getattr(...))`);
    the header is the ordered `dict` of attribute name to column label. */
module TableFormat {
  import opened Strings

  datatype Column = Column(attr: string, title: string)

  type Item = map<string, string>

  /** `str(getattr(item, attr, ""))`: a missing attribute renders as "". */
  function Cell(item: Item, attr: string): string
  {
    if attr in item then item[attr] else ""
  }

  function Labels(header: seq<Column>): (labels: seq<string>)
    ensures |labels| == |header|
    ensures forall c :: 0 <= c < |header| ==> labels[c] == header[c].title
  {
    seq(|header|, c requires 0 <= c < |header| => header[c].title)
  }

  function Cells(item: Item, header: seq<Column>): (cells: seq<string>)
    ensures |cells| == |header|
    ensures forall c :: 0 <= c < |header| ==> cells[c] == Cell(item, header[c].attr)
  {
    seq(|header|, c requires 0 <= c < |header| => Cell(item, header[c].attr))
  }

  /** The `matrix` of the source: the labels, then one line per item with
      one cell per header column; an attribute the item lacks is "". */
  function Matrix(items: seq<Item>, header: seq<Column>): (m: seq<seq<string>>)
    ensures |m| == |items| + 1
    ensures forall i :: 0 <= i < |m| ==> |m[i]| == |header|
    ensures forall c :: 0 <= c < |header| ==> m[0][c] == header[c].title
    ensures forall i, c :: 0 <= i < |items| && 0 <= c < |header| ==>
              m[i + 1][c] == (if header[c].attr in items[i] then items[i][header[c].attr] else "")
  {
    [Labels(header)] + seq(|items|, i requires 0 <= i < |items| => Cells(items[i], header))
  }

  /** Width of one column: the label's length raised to each longer cell
      (`if column_widths[i] < item_width: column_widths[i] = item_width`). */
  function WidestCell(items: seq<Item>, attr: string, width: nat): (w: nat)
    ensures w >= width
    ensures forall i :: 0 <= i < |items| ==> w >= |Cell(items[i], attr)|
    ensures w == width || exists i :: 0 <= i < |items| && w == |Cell(items[i], attr)|
    decreases |items|
  {
    if |items| == 0 then width
    else
      var c := |Cell(items[0], attr)|;
      var w := WidestCell(items[1..], attr, if width < c then c else width);
      assert forall i :: 0 < i < |items| ==> items[i] == items[1..][i - 1];
      w
  }

  /** `column_widths`: each column is as wide as the longest of its label
      and its cells, and exactly that wide. */
  function ColumnWidths(items: seq<Item>, header: seq<Column>): (widths: seq<nat>)
    ensures |widths| == |header|
    ensures forall c :: 0 <= c < |header| ==>
              && widths[c] >= |header[c].title|
              && forall i :: 0 <= i < |items| ==> widths[c] >= |Cell(items[i], header[c].attr)|
    ensures forall c :: 0 <= c < |header| ==>
              || widths[c] == |header[c].title|
              || exists i :: 0 <= i < |items| && widths[c] == |Cell(items[i], header[c].attr)|
  {
    seq(|header|, c requires 0 <= c < |header| => WidestCell(items, header[c].attr, |header[c].title|))
  }

  /** Every cell of the matrix fits its column. */
  lemma MatrixFitsWidths(items: seq<Item>, header: seq<Column>)
    ensures var m := Matrix(items, header);
            var widths := ColumnWidths(items, header);
            forall i, c :: 0 <= i < |m| && 0 <= c < |header| ==> |m[i][c]| <= widths[c]
  {
    var m := Matrix(items, header);
    var widths := ColumnWidths(items, header);
    forall i, c | 0 <= i < |m| && 0 <= c < |header|
      ensures |m[i][c]| <= widths[c]
    {
      if i > 0 {
        assert m[i][c] == Cell(items[i - 1], header[c].attr);
      }
    }
  }

  // ------------------------------------------------------------ rendering

  /** Page prefix, heading colour (bold blue), alternate-row colour (cyan)
      and colour reset; all empty when the table is not `rich`. */
  function PagePrefix(rich: bool): string { if rich then "ansi\n" else "" }
  function HeadColour(rich: bool): string { if rich then "\U{001B}[1;34m" else "" }
  function AltColour(rich: bool): string { if rich then "\U{001B}[36m" else "" }
  function ResetColour(rich: bool): string { if rich then "\U{001B}[0m" else "" }

  function Spaces(n: nat): (r: string)
    ensures |r| == n && forall k :: 0 <= k < n ==> r[k] == ' '
  {
    seq(n, _ => ' ')
  }

  /** `s.ljust(width)`: padded with spaces up to `width` characters. */
  function LJust(s: string, width: int): (r: string)
    ensures |r| == (if |s| >= width then |s| else width)
    ensures r[..|s|] == s
    ensures forall k :: |s| <= k < |r| ==> r[k] == ' '
  {
    if |s| >= width then s else s + Spaces(width - |s|)
  }

  /** The cells of a line, each left-justified to its column width plus 2. */
  function RowBody(row: seq<string>, widths: seq<nat>): string
    requires |row| == |widths|
  {
    if |row| == 0 then "" else LJust(row[0], widths[0] + 2) + RowBody(row[1..], widths[1..])
  }

  /** Where column `c` starts in a row body whose cells all fit. */
  function ColumnStart(widths: seq<nat>, c: nat): nat
    requires c <= |widths|
  {
    if c == 0 then 0 else ColumnStart(widths, c - 1) + widths[c - 1] + 2
  }

  lemma {:induction false} ColumnStartShift(widths: seq<nat>, c: nat)
    requires 0 < c <= |widths|
    ensures ColumnStart(widths, c) == widths[0] + 2 + ColumnStart(widths[1..], c - 1)
    decreases c
  {
    if c > 1 {
      ColumnStartShift(widths, c - 1);
    }
  }

  predicate CellsFit(row: seq<string>, widths: seq<nat>)
  {
    |row| == |widths| && forall k :: 0 <= k < |row| ==> |row[k]| <= widths[k]
  }

  /** When every cell fits, the row body is exactly as long as all columns
      with their two-space gutters. */
  lemma {:induction false} RowBodyLength(row: seq<string>, widths: seq<nat>)
    requires CellsFit(row, widths)
    ensures |RowBody(row, widths)| == ColumnStart(widths, |widths|)
    decreases |row|
  {
    if |row| > 0 {
      RowBodyLength(row[1..], widths[1..]);
      ColumnStartShift(widths, |widths|);
    }
  }

  lemma {:induction false} ColumnStartMono(widths: seq<nat>, c: nat, d: nat)
    requires c <= d <= |widths|
    ensures ColumnStart(widths, c) <= ColumnStart(widths, d)
    decreases d - c
  {
    if c < d {
      ColumnStartMono(widths, c, d - 1);
    }
  }

  /** Columns line up: when every cell fits its width, cell `c` sits at
      `ColumnStart(widths, c)` and is followed by spaces up to the start of
      the next column. */
  lemma {:induction false} RowBodyAligned(row: seq<string>, widths: seq<nat>, c: nat)
    requires CellsFit(row, widths) && c < |row|
    ensures ColumnStart(widths, c + 1) <= |RowBody(row, widths)|
    ensures RowBody(row, widths)[ColumnStart(widths, c) .. ColumnStart(widths, c) + |row[c]|] == row[c]
    ensures forall k :: ColumnStart(widths, c) + |row[c]| <= k < ColumnStart(widths, c + 1) ==>
              RowBody(row, widths)[k] == ' '
    decreases |row|
  {
    RowBodyLength(row, widths);
    ColumnStartMono(widths, c + 1, |widths|);
    if c == 0 {
      RowBodyFirstCell(row, widths);
    } else {
      RowBodyAligned(row[1..], widths[1..], c - 1);
      RowBodyLaterCell(row, widths, c);
    }
  }

  lemma RowBodyFirstCell(row: seq<string>, widths: seq<nat>)
    requires CellsFit(row, widths) && 0 < |row|
    ensures |RowBody(row, widths)| >= widths[0] + 2
    ensures RowBody(row, widths)[..|row[0]|] == row[0]
    ensures forall k :: |row[0]| <= k < widths[0] + 2 ==> RowBody(row, widths)[k] == ' '
  {
    var head := LJust(row[0], widths[0] + 2);
    assert RowBody(row, widths) == head + RowBody(row[1..], widths[1..]);
  }

  lemma RowBodyLaterCell(row: seq<string>, widths: seq<nat>, c: nat)
    requires CellsFit(row, widths) && 0 < c < |row|
    requires ColumnStart(widths[1..], c) <= |RowBody(row[1..], widths[1..])|
    requires var s := ColumnStart(widths[1..], c - 1);
             RowBody(row[1..], widths[1..])[s .. s + |row[c]|] == row[c]
    requires forall k :: ColumnStart(widths[1..], c - 1) + |row[c]| <= k < ColumnStart(widths[1..], c) ==>
               RowBody(row[1..], widths[1..])[k] == ' '
    ensures ColumnStart(widths, c + 1) <= |RowBody(row, widths)|
    ensures RowBody(row, widths)[ColumnStart(widths, c) .. ColumnStart(widths, c) + |row[c]|] == row[c]
    ensures forall k :: ColumnStart(widths, c) + |row[c]| <= k < ColumnStart(widths, c + 1) ==>
              RowBody(row, widths)[k] == ' '
  {
    var head := LJust(row[0], widths[0] + 2);
    var rest := RowBody(row[1..], widths[1..]);
    assert RowBody(row, widths) == head + rest;
    ColumnStartShift(widths, c);
    ColumnStartShift(widths, c + 1);
  }

  /** Line `i` of the matrix as the source renders it: colour code, padded
      cells, trailing whitespace removed (`rstrip()`), reset code on even
      lines, newline. */
  function RenderLine(i: nat, row: seq<string>, widths: seq<nat>, rich: bool): string
    requires |row| == |widths|
  {
    var lead := if i == 0 then HeadColour(rich) else if i % 2 == 0 then AltColour(rich) else "";
    var close := if i % 2 == 0 then ResetColour(rich) else "";
    TrimRight(lead + RowBody(row, widths), Whitespace) + close + "\n"
  }

  /** The rendered lines of the table, heading first: one per matrix line. */
  function RenderedLines(items: seq<Item>, header: seq<Column>, rich: bool): (lines: seq<string>)
    ensures |lines| == |items| + 1
    ensures forall i :: 0 <= i < |lines| ==> |lines[i]| > 0 && lines[i][|lines[i]| - 1] == '\n'
  {
    var m := Matrix(items, header);
    var widths := ColumnWidths(items, header);
    seq(|m|, i requires 0 <= i < |m| => RenderLine(i, m[i], widths, rich))
  }

  /** Without colours a line is its padded cells with the trailing
      whitespace removed, then a newline. */
  lemma PlainLineLayout(i: nat, row: seq<string>, widths: seq<nat>)
    requires |row| == |widths|
    ensures RenderLine(i, row, widths, false) == TrimRight(RowBody(row, widths), Whitespace) + "\n"
  {
    var body := RowBody(row, widths);
    var trimmed := TrimRight(body, Whitespace);
    assert HeadColour(false) == "" && AltColour(false) == "" && ResetColour(false) == "";
    assert "" + body == body;
    assert trimmed + "" == trimmed;
  }

  // ----------------------------------------------------------- pagination

  /** The paging loop of `create_table`. `group` holds the lines of the
      current page, whose text is `prefix + Concat(group)`; a line that would
      push the page past `limit` first flushes it and starts a new page. */
  function PackRows(lines: seq<string>, prefix: string, limit: int, group: seq<string>): (groups: seq<seq<string>>)
    ensures |groups| >= 1
    decreases |lines|
  {
    if |lines| == 0 then
      [group]
    else if |prefix + Concat(group)| + |lines[0]| > limit then
      var rest := PackRows(lines[1..], prefix, limit, [lines[0]]);
      [group] + rest
    else
      var rest := PackRows(lines[1..], prefix, limit, group + [lines[0]]);
      rest
  }

  /** Paging keeps every line, in order: the pages' lines, read one page
      after the other, are the lines given. */
  lemma {:induction false} PackRowsKeepsLines(lines: seq<string>, prefix: string, limit: int, group: seq<string>)
    ensures Flatten(PackRows(lines, prefix, limit, group)) == group + lines
    decreases |lines|
  {
    if |lines| == 0 {
      assert Flatten([group]) == group + Flatten([]);
      assert group + lines == group;
    } else if |prefix + Concat(group)| + |lines[0]| > limit {
      var rest := PackRows(lines[1..], prefix, limit, [lines[0]]);
      PackRowsKeepsLines(lines[1..], prefix, limit, [lines[0]]);
      assert ([group] + rest)[1..] == rest;
      assert [lines[0]] + lines[1..] == lines;
    } else {
      PackRowsKeepsLines(lines[1..], prefix, limit, group + [lines[0]]);
      assert group + [lines[0]] + lines[1..] == group + lines;
    }
  }

  /** `create_table(items, header, limit=limit, rich=rich)`. */
  function CreateTable(items: seq<Item>, header: seq<Column>, limit: int, rich: bool): (pages: seq<string>)
    ensures |pages| >= 1
    ensures forall p :: 0 <= p < |pages| ==> StartsWith(pages[p], PagePrefix(rich))
  {
    var groups := PackRows(RenderedLines(items, header, rich), PagePrefix(rich), limit, []);
    var pages := seq(|groups|, p requires 0 <= p < |groups| => PagePrefix(rich) + Concat(groups[p]));
    PrefixedPages(PagePrefix(rich), groups, pages);
    pages
  }

  lemma PrefixedPages(prefix: string, groups: seq<seq<string>>, pages: seq<string>)
    requires |pages| == |groups|
    requires forall p :: 0 <= p < |pages| ==> pages[p] == prefix + Concat(groups[p])
    ensures forall p :: 0 <= p < |pages| ==> StartsWith(pages[p], prefix)
  {
    forall p | 0 <= p < |pages| ensures StartsWith(pages[p], prefix) {
      StartsWithConcat(prefix, Concat(groups[p]));
    }
  }

  function DropPrefix(s: string, prefix: string): string
  {
    if StartsWith(s, prefix) then s[|prefix|..] else s
  }

  /** Page bodies: each page with its prefix removed. */
  function Bodies(pages: seq<string>, prefix: string): seq<string>
  {
    seq(|pages|, p requires 0 <= p < |pages| => DropPrefix(pages[p], prefix))
  }

  function ConcatEach(groups: seq<seq<string>>): (r: seq<string>)
    ensures |r| == |groups|
  {
    if |groups| == 0 then [] else [Concat(groups[0])] + ConcatEach(groups[1..])
  }

  lemma {:induction false} ConcatEachAt(groups: seq<seq<string>>, p: nat)
    requires p < |groups|
    ensures ConcatEach(groups)[p] == Concat(groups[p])
    decreases p
  {
    if p > 0 {
      ConcatEachAt(groups[1..], p - 1);
    }
  }

  lemma {:induction false} ConcatFlatten(groups: seq<seq<string>>)
    ensures Concat(ConcatEach(groups)) == Concat(Flatten(groups))
    decreases |groups|
  {
    if |groups| > 0 {
      ConcatFlatten(groups[1..]);
      ConcatAppend(groups[0], Flatten(groups[1..]));
    }
  }

  /** Nothing is lost or reordered: the pages without their prefixes,
      glued together, are all rendered lines in order. */
  lemma CreateTableKeepsLines(items: seq<Item>, header: seq<Column>, limit: int, rich: bool)
    ensures Concat(Bodies(CreateTable(items, header, limit, rich), PagePrefix(rich)))
         == Concat(RenderedLines(items, header, rich))
  {
    var lines := RenderedLines(items, header, rich);
    var prefix := PagePrefix(rich);
    var groups := PackRows(lines, prefix, limit, []);
    var pages := CreateTable(items, header, limit, rich);
    var bodies := Bodies(pages, prefix);
    forall p | 0 <= p < |groups|
      ensures bodies[p] == ConcatEach(groups)[p]
    {
      ConcatEachAt(groups, p);
      assert pages[p] == prefix + Concat(groups[p]);
      StartsWithConcat(prefix, Concat(groups[p]));
      assert (prefix + Concat(groups[p]))[|prefix|..] == Concat(groups[p]);
    }
    assert bodies == ConcatEach(groups);
    ConcatFlatten(groups);
    PackRowsKeepsLines(lines, prefix, limit, []);
    assert [] + lines == lines;
    assert Flatten(groups) == lines;
  }

  /** Every page after the first opens with a line that did not fit on the
      page before it. */
  predicate FlushedOnOverflow(groups: seq<seq<string>>, prefix: string, limit: int)
  {
    forall p :: 0 < p < |groups| ==>
      && |groups[p]| > 0
      && |prefix + Concat(groups[p - 1])| + |groups[p][0]| > limit
  }

  /** Putting a page that overflows by the next page's first line in front
      of pages flushed correctly keeps them flushed correctly. */
  lemma FlushedOnOverflowCons(group: seq<string>, rest: seq<seq<string>>, prefix: string, limit: int)
    requires FlushedOnOverflow(rest, prefix, limit)
    requires |rest| > 0 && |rest[0]| > 0
    requires |prefix + Concat(group)| + |rest[0][0]| > limit
    ensures FlushedOnOverflow([group] + rest, prefix, limit)
  {
    var groups := [group] + rest;
    forall p | 0 < p < |groups|
      ensures |groups[p]| > 0
      ensures |prefix + Concat(groups[p - 1])| + |groups[p][0]| > limit
    {
      assert groups[p] == rest[p - 1];
      if p > 1 {
        assert groups[p - 1] == rest[p - 2];
      }
    }
  }

  /** A page is flushed only when the next line would push it past
      `limit`: that line opens the following page. */
  lemma {:induction false} PackRowsFlushRule(lines: seq<string>, prefix: string, limit: int, group: seq<string>)
    ensures FlushedOnOverflow(PackRows(lines, prefix, limit, group), prefix, limit)
    decreases |lines|
  {
    if |lines| == 0 {
    } else if |prefix + Concat(group)| + |lines[0]| > limit {
      PackRowsFlushRule(lines[1..], prefix, limit, [lines[0]]);
      var rest := PackRows(lines[1..], prefix, limit, [lines[0]]);
      assert PackRows(lines, prefix, limit, group) == [group] + rest;
      PackRowsHead(lines[1..], prefix, limit, [lines[0]]);
      assert rest[0][..1] == [lines[0]];
      FlushedOnOverflowCons(group, rest, prefix, limit);
    } else {
      PackRowsFlushRule(lines[1..], prefix, limit, group + [lines[0]]);
      assert PackRows(lines, prefix, limit, group) == PackRows(lines[1..], prefix, limit, group + [lines[0]]);
    }
  }

  /** The first page continues the group it was started with. */
  lemma {:induction false} PackRowsHead(lines: seq<string>, prefix: string, limit: int, group: seq<string>)
    ensures |PackRows(lines, prefix, limit, group)[0]| >= |group|
    ensures PackRows(lines, prefix, limit, group)[0][..|group|] == group
    decreases |lines|
  {
    if |lines| > 0 && |prefix + Concat(group)| + |lines[0]| <= limit {
      var next := group + [lines[0]];
      PackRowsHead(lines[1..], prefix, limit, next);
      assert next[..|group|] == group;
    }
  }

  /** A line joins the current page only if the page stays within
      `limit`: on every page each line after the first fits. */
  predicate FitsAfterFirst(g: seq<string>, prefix: string, limit: int)
  {
    forall j :: 1 < j <= |g| ==> |prefix| + |Concat(g[..j])| <= limit
  }

  lemma ConcatSnoc(g: seq<string>, l: string)
    ensures Concat(g + [l]) == Concat(g) + l
  {
    ConcatAppend(g, [l]);
  }

  lemma {:induction false} PackRowsFit(lines: seq<string>, prefix: string, limit: int, group: seq<string>)
    requires FitsAfterFirst(group, prefix, limit)
    ensures forall p :: 0 <= p < |PackRows(lines, prefix, limit, group)| ==>
              FitsAfterFirst(PackRows(lines, prefix, limit, group)[p], prefix, limit)
    decreases |lines|
  {
    if |lines| == 0 {
    } else if |prefix + Concat(group)| + |lines[0]| > limit {
      PackRowsFit(lines[1..], prefix, limit, [lines[0]]);
      var rest := PackRows(lines[1..], prefix, limit, [lines[0]]);
      var groups := PackRows(lines, prefix, limit, group);
      assert groups == [group] + rest;
      forall p | 0 < p < |groups|
        ensures groups[p] == rest[p - 1]
      {
      }
    } else {
      var next := group + [lines[0]];
      forall j | 1 < j <= |next|
        ensures |prefix| + |Concat(next[..j])| <= limit
      {
        if j <= |group| {
          assert next[..j] == group[..j];
        } else {
          assert next[..j] == next;
          ConcatSnoc(group, lines[0]);
        }
      }
      PackRowsFit(lines[1..], prefix, limit, next);
    }
  }

  /** The first page never overflows because of a line it holds: it was
      started empty, so each of its lines passed the check. */
  lemma CreateTableFirstPageFits(items: seq<Item>, header: seq<Column>, limit: int, rich: bool)
    ensures var lines := RenderedLines(items, header, rich);
            var first := PackRows(lines, PagePrefix(rich), limit, [])[0];
            |PagePrefix(rich) + Concat(first)| <= limit || |first| == 0
  {
    var lines := RenderedLines(items, header, rich);
    var prefix := PagePrefix(rich);
    var groups := PackRows(lines, prefix, limit, []);
    PackRowsFit(lines, prefix, limit, []);
    PackRowsFirstFits(lines, prefix, limit, []);
  }

  lemma {:induction false} PackRowsFirstFits(lines: seq<string>, prefix: string, limit: int, group: seq<string>)
    requires |group| == 0 || |prefix + Concat(group)| <= limit
    ensures var first := PackRows(lines, prefix, limit, group)[0];
            |first| == 0 || |prefix + Concat(first)| <= limit
    decreases |lines|
  {
    if |lines| > 0 && |prefix + Concat(group)| + |lines[0]| <= limit {
      ConcatSnoc(group, lines[0]);
      PackRowsFirstFits(lines[1..], prefix, limit, group + [lines[0]]);
    }
  }
}
