/** The HTML `renderAsciiTable` writes for a parsed AsciiTable: an optional
    header row taken from a first cell starting with `#`, then one `<tr>` per
    remaining row, in which a cell holding only `>` widens the next cell by
    one column. The compiler's counter and loops that produce this HTML
    live in the compiler class; this module says what they produce. */
module TableRender {
  import opened Wrappers
  import opened PhpStrings
  import opened Host
  import Tables
  import Attributes

  /** `$table[$row][$col] ?? ''`. */
  function CellAt(row: seq<string>, c: nat): string
  {
    if c < |row| then row[c] else ""
  }

  /** `$table[$r] ?? []`. */
  function RowAt(cells: seq<seq<string>>, r: nat): seq<string>
  {
    if r < |cells| then cells[r] else []
  }

  /** `$rowAttribs[$row] ?? ''`. */
  function AttribAt(attribs: map<nat, string>, r: nat): string
  {
    if r in attribs then attribs[r] else ""
  }

  /** The table has a header row: its first cell exists and starts with `#`. */
  predicate HasHeader(cells: seq<seq<string>>)
  {
    |cells| > 0 && |cells[0]| > 0 && |cells[0][0]| > 0 && cells[0][0][0] == '#'
  }

  /** The first row with the `#` of its first cell removed. */
  function HeadRow(cells: seq<seq<string>>): (r: seq<string>)
    requires HasHeader(cells)
    ensures |r| == |cells[0]| && r[0] == cells[0][0][1..]
    ensures forall c :: 1 <= c < |r| ==> r[c] == cells[0][c]
  {
    cells[0][0 := cells[0][0][1..]]
  }

  /** The cells the renderer reads: the first cell loses its `#` when it
      makes the first row a header. */
  function Rendered(cells: seq<seq<string>>): (r: seq<seq<string>>)
    ensures |r| == |cells|
  {
    if HasHeader(cells) then cells[0 := HeadRow(cells)] else cells
  }

  /** The first body row: 1 after a header, 0 otherwise. */
  function BodyStart(cells: seq<seq<string>>): nat
  {
    if HasHeader(cells) then 1 else 0
  }

  /** One header cell, for column number `col1` (counted from 1). */
  function ThHtml(col1: nat, html: string): string
  {
    "\t\t<th class='mdp-col-" + NatToString(col1) + "'>" + html + "</th>\n"
  }

  /** The header cells of the first `n` columns, each compiled as a
      paragraph without its `<p>` wrapper. */
  function ThCells(row: seq<string>, n: nat, e: Engine): string
  {
    if n == 0 then "" else ThCells(row, n - 1, e) + ThHtml(n, e.paragraph(CellAt(row, n - 1), true))
  }

  function HeaderHtml(row: seq<string>, nCols: nat, e: Engine): string
  {
    "  <thead>\n    <tr>\n" + ThCells(row, nCols, e) + "    </tr>\n  </thead>\n"
  }

  /** A body cell as written: the column number (counted from 1) where it
      ends, the number of columns it spans and its compiled text. */
  datatype Td = Td(col: nat, span: nat, html: string)

  /** A body cell's text: a truthy cell is compiled without its `<p>`
      wrapper, a falsy one is written as it is. */
  function TdText(cell: string, e: Engine): string
  {
    if Truthy(cell) then e.compile(cell, true) else cell
  }

  /** The cells written for the first `n` columns of a row, and the span the
      next written cell would get: a `>` cell writes nothing and widens the
      next cell, any other cell is written with the pending span. */
  function RowTds(row: seq<string>, n: nat, e: Engine): (r: (seq<Td>, nat))
    ensures r.1 >= 1
  {
    if n == 0 then ([], 1)
    else
      var prev := RowTds(row, n - 1, e);
      var cell := CellAt(row, n - 1);
      if cell == ">" then (prev.0, prev.1 + 1)
      else (prev.0 + [Td(n, prev.1, TdText(cell, e))], 1)
  }

  /** The last column a row's written cells cover. */
  function Covered(tds: seq<Td>): nat
  {
    if tds == [] then 0 else tds[|tds| - 1].col
  }

  /** The written cells of a row cover its columns contiguously from the
      first one: each cell starts right after the one before it, ends on a
      cell other than `>`, and every column it spans before its own is a
      `>` cell. */
  predicate Tiles(row: seq<string>, tds: seq<Td>)
  {
    tds == [] ||
    var prefix := tds[..|tds| - 1];
    var t := tds[|tds| - 1];
    Tiles(row, prefix) &&
    1 <= t.span <= t.col && t.col - t.span == Covered(prefix) && CellAt(row, t.col - 1) != ">" &&
    forall c :: Covered(prefix) <= c < t.col - 1 ==> CellAt(row, c) == ">"
  }

  /** The colspan rule: the written cells tile the columns from the first
      one up to the last non-`>` cell, the pending span counts the `>`
      cells after it, and all of those are `>` cells. */
  lemma {:induction false} RowCover(row: seq<string>, n: nat, e: Engine)
    ensures Tiles(row, RowTds(row, n, e).0)
    ensures Covered(RowTds(row, n, e).0) + RowTds(row, n, e).1 - 1 == n
    ensures forall c :: Covered(RowTds(row, n, e).0) <= c < n ==> CellAt(row, c) == ">"
  {
    if n > 0 {
      RowCover(row, n - 1, e);
      var prev := RowTds(row, n - 1, e);
      var cell := CellAt(row, n - 1);
      if cell != ">" {
        var t := Td(n, prev.1, TdText(cell, e));
        assert RowTds(row, n, e) == (prev.0 + [t], 1);
        TilesSnoc(row, prev.0, t);
      } else {
        assert RowTds(row, n, e) == (prev.0, prev.1 + 1);
      }
    }
  }

  /** A written cell that starts right after the covered columns, ends
      on a cell other than `>` and spans only `>` cells before it extends
      the tiling to its own column. */
  lemma TilesSnoc(row: seq<string>, prefix: seq<Td>, t: Td)
    requires Tiles(row, prefix)
    requires 1 <= t.span <= t.col && t.col - t.span == Covered(prefix) && CellAt(row, t.col - 1) != ">"
    requires forall c :: Covered(prefix) <= c < t.col - 1 ==> CellAt(row, c) == ">"
    ensures Tiles(row, prefix + [t]) && Covered(prefix + [t]) == t.col
  {
    assert (prefix + [t])[..|prefix|] == prefix;
  }

  /** A body cell, in row number `row1` (counted from 1). */
  function TdHtml(row1: nat, t: Td): string
  {
    "\t\t<td class='mdp-row-" + NatToString(row1) + " mdp-col-" + NatToString(t.col) + "'" +
    (if t.span > 1 then " colspan='" + NatToString(t.span) + "'" else "") +
    ">\n\t\t\t" + t.html + "\t\t</td>\n"
  }

  function TdsHtml(row1: nat, tds: seq<Td>): string
  {
    if tds == [] then "" else TdsHtml(row1, tds[..|tds| - 1]) + TdHtml(row1, tds[|tds| - 1])
  }

  /** Row `r` (counted from 0) of the body, with its attributes. */
  function RowHtml(row: seq<string>, r: nat, nCols: nat, attrib: string, e: Engine): string
  {
    "\t<tr" + attrib + ">\n" + TdsHtml(r + 1, RowTds(row, nCols, e).0) + "\t</tr>\n"
  }

  /** The body rows `lo` up to (not including) `hi`. */
  function BodyRows(cells: seq<seq<string>>, lo: nat, hi: nat, nCols: nat,
                    attribs: map<nat, string>, e: Engine): string
    decreases hi
  {
    if hi <= lo then ""
    else BodyRows(cells, lo, hi - 1, nCols, attribs, e) +
         RowHtml(RowAt(cells, hi - 1), hi - 1, nCols, AttribAt(attribs, hi - 1), e)
  }

  /** The body grows by one row at a time. */
  lemma BodyRowsStep(cells: seq<seq<string>>, lo: nat, hi: nat, nCols: nat, attribs: map<nat, string>, e: Engine)
    requires lo <= hi
    ensures BodyRows(cells, lo, hi + 1, nCols, attribs, e) ==
      BodyRows(cells, lo, hi, nCols, attribs, e) + RowHtml(RowAt(cells, hi), hi, nCols, AttribAt(attribs, hi), e)
  {
  }

  const TableTail := "  </tbody>\n</table><!-- /asciiTable -->\n"

  /** The opening tag with the table's attributes, then the caption. */
  function TableOpening(attrs: string, caption: string): string
  {
    "<table " + attrs + ">\n" + caption
  }

  /** The header when the first cell starts with `#`, then the body rows. */
  function TableBody(t: Tables.Table, e: Engine): string
  {
    var cells := Rendered(t.cells);
    (if HasHeader(t.cells) then HeaderHtml(cells[0], t.nCols, e) else "") +
    "  <tbody>\n" + BodyRows(cells, BodyStart(t.cells), t.nRows, t.nCols, t.rowAttribs, e)
  }

  /** The whole table. */
  function TableHtml(t: Tables.Table, caption: string, attrs: string, e: Engine): string
  {
    TableOpening(attrs, caption) + TableBody(t, e) + TableTail
  }

  /** `renderAsciiTable` once the table source is parsed and its caption
      prepared: a failure of either fails, a suppressed table renders as
      nothing. */
  function RenderParsed(t: Result<Tables.Table>, h: Result<Tables.TableHead>, e: Engine): Result<string>
  {
    if t.Err? then Err(t.msg)
    else if h.Err? then Err(h.msg)
    else if h.value.Suppressed? then Ok("")
    else Ok(TableHtml(t.value, h.value.caption, h.value.attrs, e))
  }

  /** `renderAsciiTable` for a consumed block, the table being number `inx`. */
  function RenderTable(block: Tables.TableBlock, inx: nat, env: Attributes.Env, e: Engine): Result<string>
  {
    RenderParsed(Tables.ParseTable(block.content, env), Tables.TableAttributes(block.args, inx, env), e)
  }

  /** A table renders as nothing exactly when its caption suppresses it;
      a shown table opens with its attributes and caption and closes its
      body; a failure of the parse or of the caption fails the render. */
  lemma RenderShape(t: Result<Tables.Table>, h: Result<Tables.TableHead>, e: Engine)
    ensures RenderParsed(t, h, e).Err? <==> t.Err? || h.Err?
    ensures t.Ok? && h.Ok? ==> (RenderParsed(t, h, e) == Ok("") <==> h.value.Suppressed?)
    ensures t.Ok? && h.Ok? && h.value.TableHead? ==>
      StartsWith(RenderParsed(t, h, e).value, TableOpening(h.value.attrs, h.value.caption)) &&
      EndsWith(RenderParsed(t, h, e).value, TableTail)
  {
    if t.Ok? && h.Ok? && h.value.TableHead? {
      ShownShape(t.value, h.value.caption, h.value.attrs, e);
    }
  }

  /** A shown table opens with its attributes and caption and closes its
      body, so it is never empty. */
  lemma ShownShape(t: Tables.Table, caption: string, attrs: string, e: Engine)
    ensures var html := TableHtml(t, caption, attrs, e);
      StartsWith(html, TableOpening(attrs, caption)) && EndsWith(html, TableTail) && html != ""
  {
    var head := TableOpening(attrs, caption);
    assert |head| > 0;
    Framed(head, TableBody(t, e), TableTail);
  }

  lemma Framed(head: string, mid: string, tail: string)
    requires |head| > 0
    ensures StartsWith(head + mid + tail, head) && EndsWith(head + mid + tail, tail) && head + mid + tail != ""
  {
    StartsWithConcat(head, mid + tail);
    EndsWithConcat(head + mid, tail);
    assert head + mid + tail == head + (mid + tail);
  }

  /** The header row: present exactly when the first cell starts with `#`;
      its first cell is written without the `#`, and the body then starts
      at the second row. */
  lemma HeaderRow(cells: seq<seq<string>>)
    requires HasHeader(cells)
    ensures BodyStart(cells) == 1
    ensures CellAt(Rendered(cells)[0], 0) == cells[0][0][1..]
    ensures forall r :: 1 <= r < |cells| ==> Rendered(cells)[r] == cells[r]
  {
  }
}
