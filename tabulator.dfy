/** Tabulator blocks: lines whose cells are separated by `>>` followed by a
    whitespace character, each separator optionally preceded by a width
    such as `7em` or `12.5%` for the column it closes. Consecutive such lines
    form the rows of one block; a non-empty line without a separator
    continues the last cell of the previous row, and an empty line ends the
    block. */
module Tabulator {
  import opened Wrappers
  import opened PhpStrings
  import opened Host

  // ---------------------------------------------------------------- widths

  /** `[.\d]`. */
  predicate IsDotDigit(c: char)
  {
    c == '.' || IsDigit(c)
  }

  /** `[\w%]`. */
  predicate IsUnitChar(c: char)
  {
    IsWord(c) || c == '%'
  }

  /** `w` is `[.\d]{1,6}` followed by `b` characters of `[\w%]`. */
  predicate WidthSplit(w: string, b: nat)
  {
    b <= |w| && 1 <= |w| - b <= 6 &&
    (forall k :: 0 <= k < |w| - b ==> IsDotDigit(w[k])) &&
    (forall k :: |w| - b <= k < |w| ==> IsUnitChar(w[k]))
  }

  /** `w` is matched whole by `[.\d]{1,6}[\w%]{1,2}`. */
  predicate IsWidth(w: string)
  {
    WidthSplit(w, 1) || WidthSplit(w, 2)
  }

  predicate NotGt(c: char)
  {
    c != '>'
  }

  /** The match of `(W)? >> [\s\t]` (in extended mode, so without its
      spaces) tried at `p`: the width, empty when the group takes part in
      no match, and where the match ends. */
  datatype Hit = Hit(width: string, end: nat)

  /** A width holds no `>`, so a width at `p` can only end at the first `>`
      from `p`, and that `>` must start `>>` and a whitespace character. */
  function MatchAt(line: string, p: nat): (r: Option<Hit>)
    requires p <= |line|
    ensures r.Some? ==> r.value.end == p + |r.value.width| + 3 <= |line|
    ensures r.Some? ==> r.value.width == "" || IsWidth(r.value.width)
  {
    var g := p + Span(line, p, NotGt);
    if g + 2 < |line| && line[g + 1] == '>' && IsSpace(line[g + 2]) && (g == p || IsWidth(line[p..g]))
    then Some(Hit(line[p..g], g + 3))
    else None
  }

  /** The separator at `p` is exactly an optional width, `>>` and a
      whitespace character written there. */
  lemma MatchAtIff(line: string, p: nat, w: string)
    requires p <= |line|
    ensures MatchAt(line, p) == Some(Hit(w, p + |w| + 3)) <==>
      p + |w| + 3 <= |line| && line[p..p + |w|] == w && line[p + |w|] == '>' && line[p + |w| + 1] == '>' &&
      IsSpace(line[p + |w| + 2]) && (w == "" || IsWidth(w))
  {
    if p + |w| + 3 <= |line| && line[p..p + |w|] == w && line[p + |w|] == '>' && line[p + |w| + 1] == '>' &&
       IsSpace(line[p + |w| + 2]) && (w == "" || IsWidth(w)) {
      assert forall k :: p <= k < p + |w| ==> NotGt(line[k]) by {
        forall k | p <= k < p + |w|
          ensures NotGt(line[k])
        {
          assert line[k] == w[k - p];
          if w != "" {
            assert IsDotDigit(w[k - p]) || IsUnitChar(w[k - p]);
          }
        }
      }
      SpanIs(line, p, |w|, NotGt);
    }
  }

  // ---------------------------------------------------------------- identify

  /** `(\s\s|\t)` at `i`, then a separator. */
  predicate LeadAt(line: string, i: nat)
    requires i < |line|
  {
    (i + 1 < |line| && IsSpace(line[i]) && IsSpace(line[i + 1]) && MatchAt(line, i + 2).Some?) ||
    (line[i] == '\t' && MatchAt(line, i + 1).Some?)
  }

  /** `identifyTabulator`: somewhere in the line, two whitespace characters
      or a tab, then a separator. */
  predicate IdentifyTabulator(line: string)
  {
    exists i :: 0 <= i < |line| && LeadAt(line, i)
  }

  // ---------------------------------------------------------------- split

  /** Where the whitespace run that ends at `p` starts, not before `lo`:
      the `[\s\t]*` that opens the split pattern takes that run. */
  function RunStart(line: string, lo: nat, p: nat): (q: nat)
    requires lo <= p <= |line|
    ensures lo <= q <= p
    ensures forall k :: q <= k < p ==> IsSpace(line[k])
    ensures q == lo || !IsSpace(line[q - 1])
    decreases p
  {
    if p > lo && IsSpace(line[p - 1]) then RunStart(line, lo, p - 1) else p
  }

  /** A line cut at its separators: the cells between them, and the width
      written before each `>>` ("" when none). The separators that
      `preg_match_all` finds are the ones `preg_split` cuts at, since the
      whitespace the split pattern takes first can never start a width. */
  datatype Row = Row(cells: seq<string>, widths: seq<string>)

  /** The cut from `p` on, the current cell starting at `from`. */
  function SplitFrom(line: string, from: nat, p: nat): (r: Row)
    requires from <= p <= |line|
    ensures |r.cells| == |r.widths| + 1
    ensures forall k :: 0 <= k < |r.widths| ==> r.widths[k] == "" || IsWidth(r.widths[k])
    decreases |line| - p
  {
    if p == |line| then Row([line[from..]], [])
    else
      match MatchAt(line, p)
      case None => SplitFrom(line, from, p + 1)
      case Some(h) =>
        var rest := SplitFrom(line, h.end, h.end);
        Row([line[from..RunStart(line, from, p)]] + rest.cells, [h.width] + rest.widths)
  }

  function SplitLine(line: string): Row
  {
    SplitFrom(line, 0, 0)
  }

  /** The text each separator of the cut covers, in the same order. */
  function SeparatorsFrom(line: string, from: nat, p: nat): seq<string>
    requires from <= p <= |line|
    decreases |line| - p
  {
    if p == |line| then []
    else
      match MatchAt(line, p)
      case None => SeparatorsFrom(line, from, p + 1)
      case Some(h) => [line[RunStart(line, from, p)..h.end]] + SeparatorsFrom(line, h.end, h.end)
  }

  /** A separator: whitespace, the width `w`, `>>` and a whitespace character. */
  predicate IsSeparator(s: string, w: string)
  {
    |s| >= |w| + 3 &&
    (forall k :: 0 <= k < |s| - |w| - 3 ==> IsSpace(s[k])) &&
    s[|s| - |w| - 3..|s| - 3] == w && s[|s| - 3] == '>' && s[|s| - 2] == '>' && IsSpace(s[|s| - 1])
  }

  /** Cells with the separators between them. */
  function Interleave(cells: seq<string>, seps: seq<string>): string
    requires |cells| == |seps| + 1
    decreases |seps|
  {
    if seps == [] then cells[0] else cells[0] + seps[0] + Interleave(cells[1..], seps[1..])
  }

  /** What a hit at `p` stands on: its width, `>>` and a whitespace
      character. */
  lemma HitLayout(line: string, p: nat)
    requires p <= |line| && MatchAt(line, p).Some?
    ensures var w := MatchAt(line, p).value.width;
      line[p..p + |w|] == w && line[p + |w|] == '>' && line[p + |w| + 1] == '>' && IsSpace(line[p + |w| + 2])
  {
  }

  lemma SliceOfSlice(s: string, a: nat, b: nat, i: nat, j: nat)
    requires a <= b <= |s| && i <= j <= b - a
    ensures s[a..b][i..j] == s[a + i..a + j]
  {
    var t := s[a..b];
    assert |t[i..j]| == |s[a + i..a + j]|;
    forall k | 0 <= k < j - i
      ensures t[i..j][k] == s[a + i..a + j][k]
    {
      assert t[i..j][k] == t[i + k] == s[a + i + k];
    }
  }

  /** Whitespace from `q` to `p`, then the width `w`, `>>` and a
      whitespace character, make a separator. */
  lemma SeparatorOf(line: string, q: nat, p: nat, w: string, e: nat)
    requires q <= p && e == p + |w| + 3 <= |line|
    requires forall k :: q <= k < p ==> IsSpace(line[k])
    requires line[p..p + |w|] == w && line[p + |w|] == '>' && line[p + |w| + 1] == '>' && IsSpace(line[p + |w| + 2])
    ensures IsSeparator(line[q..e], w)
  {
    SliceOfSlice(line, q, e, p - q, p - q + |w|);
  }

  lemma SeparatorAt(line: string, from: nat, p: nat, h: Hit)
    requires from <= p <= |line| && MatchAt(line, p) == Some(h)
    ensures IsSeparator(line[RunStart(line, from, p)..h.end], h.width)
  {
    HitLayout(line, p);
    SeparatorOf(line, RunStart(line, from, p), p, h.width, h.end);
  }

  lemma SliceThree(s: string, a: nat, b: nat, c: nat)
    requires a <= b <= c <= |s|
    ensures s[a..] == s[a..b] + s[b..c] + s[c..]
  {
  }

  /** The cut loses nothing: the cells with their separators between them
      give back the line, and each separator is whitespace, the cell's
      width, `>>` and a whitespace character. */
  lemma {:induction false} SplitRejoins(line: string, from: nat, p: nat)
    requires from <= p <= |line|
    ensures var r := SplitFrom(line, from, p);
      var seps := SeparatorsFrom(line, from, p);
      |seps| == |r.widths| &&
      (forall k :: 0 <= k < |seps| ==> IsSeparator(seps[k], r.widths[k])) &&
      Interleave(r.cells, seps) == line[from..]
    decreases |line| - p
  {
    if p < |line| {
      match MatchAt(line, p)
      case None =>
        SplitRejoins(line, from, p + 1);
      case Some(h) =>
        SplitRejoins(line, h.end, h.end);
        SeparatorAt(line, from, p, h);
        var q := RunStart(line, from, p);
        var rest := SplitFrom(line, h.end, h.end);
        var seps := SeparatorsFrom(line, h.end, h.end);
        var r := SplitFrom(line, from, p);
        assert r.cells[1..] == rest.cells;
        assert SeparatorsFrom(line, from, p)[1..] == seps;
        SliceThree(line, from, q, h.end);
    }
  }

  /** A separator anywhere from `p` on gives the cut at least one. */
  lemma {:induction false} SplitFindsSeparator(line: string, from: nat, p: nat, j: nat)
    requires from <= p <= j < |line| && MatchAt(line, j).Some?
    ensures |SplitFrom(line, from, p).widths| >= 1
    decreases j - p
  {
    if MatchAt(line, p).None? {
      SplitFindsSeparator(line, from, p + 1, j);
    }
  }

  /** An identified line is cut at least once. */
  lemma IdentifiedSplits(line: string)
    requires IdentifyTabulator(line)
    ensures |SplitLine(line).widths| >= 1
  {
    var i :| 0 <= i < |line| && LeadAt(line, i);
    if i + 1 < |line| && IsSpace(line[i]) && IsSpace(line[i + 1]) && MatchAt(line, i + 2).Some? {
      SplitFindsSeparator(line, 0, 0, i + 2);
    } else {
      SplitFindsSeparator(line, 0, 0, i + 1);
    }
  }

  // ---------------------------------------------------------------- consume

  /** The rows of cells, and the widths written in each row. */
  datatype TabBlock = TabBlock(rows: seq<seq<string>>, widths: seq<seq<string>>)

  /** The block and the index where the scan stopped. */
  datatype Consumed = Consumed(block: TabBlock, next: nat)

  /** A row has as many cells as separators and one more. */
  predicate WellCut(rows: seq<seq<string>>, widths: seq<seq<string>>)
  {
    |rows| == |widths| && forall k :: 0 <= k < |rows| ==> |rows[k]| == |widths[k]| + 1
  }

  /** A line without a separator continues the last cell of the last row. */
  function AppendLast(rows: seq<seq<string>>, line: string): (r: seq<seq<string>>)
    requires |rows| > 0 && |rows[|rows| - 1]| > 0
    ensures |r| == |rows| && r[..|rows| - 1] == rows[..|rows| - 1]
    ensures |r[|r| - 1]| == |rows[|rows| - 1]|
  {
    var row := rows[|rows| - 1];
    rows[|rows| - 1 := row[|row| - 1 := row[|row| - 1] + "\n" + line]]
  }

  /** A line that is cut adds a row. */
  predicate IsRow(line: string)
  {
    |SplitLine(line).widths| > 0
  }

  /** The loop of `consumeTabulator` from line `i`: a cut line adds a row,
      an empty one (or `0`) stops the scan, any other continues the last
      cell. */
  function ConsumeFrom(lines: seq<string>, i: nat, rows: seq<seq<string>>, widths: seq<seq<string>>): Consumed
    requires i <= |lines| && |rows| > 0 && |rows[|rows| - 1]| > 0
    decreases |lines| - i
  {
    if i == |lines| then Consumed(TabBlock(rows, widths), i)
    else
      var r := SplitLine(lines[i]);
      if |r.widths| > 0 then ConsumeFrom(lines, i + 1, rows + [r.cells], widths + [r.widths])
      else if !Truthy(lines[i]) then Consumed(TabBlock(rows, widths), i)
      else ConsumeFrom(lines, i + 1, AppendLast(rows, lines[i]), widths)
  }

  /** `consumeTabulator` from an identified line. */
  function ConsumeTab(lines: seq<string>, current: nat): Consumed
    requires current < |lines| && IdentifyTabulator(lines[current])
  {
    var r := SplitLine(lines[current]);
    ConsumeFrom(lines, current + 1, [r.cells], [r.widths])
  }

  /** The number of cut lines among lines `i` up to `j`. */
  function CountRows(lines: seq<string>, i: nat, j: nat): nat
    requires i <= j <= |lines|
    decreases j - i
  {
    if i == j then 0 else (if IsRow(lines[i]) then 1 else 0) + CountRows(lines, i + 1, j)
  }

  /** The scan stops at the end or at an empty line without separator,
      and every line before that is a row or a continuation. */
  lemma {:induction false} ConsumedStops(lines: seq<string>, i: nat, rows: seq<seq<string>>, widths: seq<seq<string>>)
    requires i <= |lines| && |rows| > 0 && |rows[|rows| - 1]| > 0
    ensures var c := ConsumeFrom(lines, i, rows, widths);
      i <= c.next <= |lines| &&
      (c.next == |lines| || (!IsRow(lines[c.next]) && !Truthy(lines[c.next]))) &&
      (forall k :: i <= k < c.next ==> IsRow(lines[k]) || Truthy(lines[k]))
    decreases |lines| - i
  {
    if i < |lines| {
      var r := SplitLine(lines[i]);
      if |r.widths| > 0 {
        ConsumedStops(lines, i + 1, rows + [r.cells], widths + [r.widths]);
      } else if Truthy(lines[i]) {
        ConsumedStops(lines, i + 1, AppendLast(rows, lines[i]), widths);
      }
    }
  }

  /** Each cut line adds exactly one row, and every row has one cell more
      than it has widths. */
  lemma {:induction false} ConsumedRows(lines: seq<string>, i: nat, rows: seq<seq<string>>, widths: seq<seq<string>>)
    requires i <= |lines| && |rows| > 0 && |rows[|rows| - 1]| > 0 && WellCut(rows, widths)
    ensures var c := ConsumeFrom(lines, i, rows, widths);
      c.next <= |lines| && i <= c.next &&
      |c.block.rows| == |rows| + CountRows(lines, i, c.next) &&
      WellCut(c.block.rows, c.block.widths)
    decreases |lines| - i
  {
    ConsumedStops(lines, i, rows, widths);
    if i < |lines| {
      var r := SplitLine(lines[i]);
      if |r.widths| > 0 {
        ConsumedRows(lines, i + 1, rows + [r.cells], widths + [r.widths]);
      } else if Truthy(lines[i]) {
        ConsumedRows(lines, i + 1, AppendLast(rows, lines[i]), widths);
      } else {
        assert CountRows(lines, i, i) == 0;
      }
    }
  }

  /** The rows before the last are kept, and the widths only grow. */
  lemma {:induction false} ConsumedKeeps(lines: seq<string>, i: nat, rows: seq<seq<string>>, widths: seq<seq<string>>)
    requires i <= |lines| && |rows| > 0 && |rows[|rows| - 1]| > 0
    ensures var c := ConsumeFrom(lines, i, rows, widths);
      |rows| <= |c.block.rows| && |widths| <= |c.block.widths| &&
      c.block.rows[..|rows| - 1] == rows[..|rows| - 1] &&
      c.block.widths[..|widths|] == widths
    decreases |lines| - i
  {
    if i < |lines| {
      var r := SplitLine(lines[i]);
      if |r.widths| > 0 {
        var rows', widths' := rows + [r.cells], widths + [r.widths];
        ConsumedKeeps(lines, i + 1, rows', widths');
        var c := ConsumeFrom(lines, i + 1, rows', widths');
        assert c.block.rows[..|rows| - 1] == c.block.rows[..|rows'| - 1][..|rows| - 1];
        assert rows'[..|rows'| - 1][..|rows| - 1] == rows[..|rows| - 1];
        assert c.block.widths[..|widths|] == c.block.widths[..|widths'|][..|widths|];
      } else if Truthy(lines[i]) {
        ConsumedKeeps(lines, i + 1, AppendLast(rows, lines[i]), widths);
      }
    }
  }

  /** A consumed block has one row for its first line and one for each cut
      line after it, up to where the scan stopped. */
  lemma ConsumeTabShape(lines: seq<string>, current: nat)
    requires current < |lines| && IdentifyTabulator(lines[current])
    ensures var c := ConsumeTab(lines, current);
      current < c.next <= |lines| &&
      (c.next == |lines| || (!IsRow(lines[c.next]) && !Truthy(lines[c.next]))) &&
      |c.block.rows| == 1 + CountRows(lines, current + 1, c.next) &&
      WellCut(c.block.rows, c.block.widths) &&
      c.block.widths[0] == SplitLine(lines[current]).widths
  {
    var r := SplitLine(lines[current]);
    ConsumedStops(lines, current + 1, [r.cells], [r.widths]);
    ConsumedRows(lines, current + 1, [r.cells], [r.widths]);
    ConsumedKeeps(lines, current + 1, [r.cells], [r.widths]);
  }

  /** `consumeTabulator`. */
  method ConsumeTabulator(lines: seq<string>, current: nat) returns (block: TabBlock, next: nat)
    requires current < |lines| && IdentifyTabulator(lines[current])
    ensures Consumed(block, next) == ConsumeTab(lines, current)
  {
    IdentifiedSplits(lines[current]);
    var rows: seq<seq<string>> := [];
    var widths: seq<seq<string>> := [];
    var i := current;
    while i < |lines|
      invariant current <= i <= |lines|
      invariant i == current ==> rows == [] && widths == []
      invariant i > current ==>
        |rows| > 0 && |rows[|rows| - 1]| > 0 && ConsumeFrom(lines, i, rows, widths) == ConsumeTab(lines, current)
      decreases |lines| - i
    {
      var r := SplitLine(lines[i]);
      if |r.widths| > 0 {
        assert [] + [r.cells] == [r.cells] && [] + [r.widths] == [r.widths];
        rows := rows + [r.cells];
        widths := widths + [r.widths];
      } else {
        if !Truthy(lines[i]) {
          break;
        }
        rows := AppendLast(rows, lines[i]);
      }
      i := i + 1;
    }
    return TabBlock(rows, widths), i;
  }

  // ---------------------------------------------------------------- render

  /** A cell as written: its column (counted from 1), whether it is the
      row's last and its compiled text. */
  datatype CellOut = CellOut(col: nat, last: bool, html: string)

  /** The first `n` cells of a row, each compiled as a paragraph. */
  function RowCells(parts: seq<string>, n: nat, e: Engine): (r: seq<CellOut>)
    requires n <= |parts|
    ensures |r| == n
  {
    if n == 0 then []
    else RowCells(parts, n - 1, e) + [CellOut(n, n - 1 == |parts| - 1, e.paragraph(parts[n - 1], false))]
  }

  /** Cells are numbered from 1 in order, and only the last cell of the
      row is marked last. */
  lemma {:induction false} RowCellsAre(parts: seq<string>, n: nat, e: Engine)
    requires n <= |parts|
    ensures forall k :: 0 <= k < n ==> RowCells(parts, n, e)[k].col == k + 1
    ensures forall k :: 0 <= k < n ==> (RowCells(parts, n, e)[k].last <==> k == |parts| - 1)
    ensures forall k :: 0 <= k < n ==> RowCells(parts, n, e)[k].html == e.paragraph(parts[k], false)
  {
    if n > 0 {
      RowCellsAre(parts, n - 1, e);
    }
  }

  function CellHtml(c: CellOut): string
  {
    "<div class='tt" + NatToString(c.col) + (if c.last then " tt-last" else "") + "'>" + c.html + "</div>"
  }

  /** The first `n` cells, in order. */
  function CellsHtml(cs: seq<CellOut>, n: nat): string
    requires n <= |cs|
  {
    if n == 0 then "" else CellsHtml(cs, n - 1) + CellHtml(cs[n - 1])
  }

  /** `$widths[$row][$col] ?? false`: the width written before the `>>`
      that closes a cell; the last cell has none. */
  function WidthAt(ws: seq<string>, k: nat): string
  {
    if k < |ws| then ws[k] else ""
  }

  /** The width row of row `r`. */
  function WidthRow(widths: seq<seq<string>>, r: nat): seq<string>
  {
    if r < |widths| then widths[r] else []
  }

  /** The custom property setting the width of the column written `col`,
      or nothing when the width is empty. */
  function WidthDecl(col: string, w: string): string
  {
    if Truthy(w) then "--tt" + col + "-width: " + w + ";" else ""
  }

  /** The custom properties for the first `n` cells of a row, column
      numbers written by `num`. */
  function WidthDecls(ws: seq<string>, n: nat, num: nat -> string): string
  {
    if n == 0 then "" else WidthDecls(ws, n - 1, num) + WidthDecl(num(n), WidthAt(ws, n - 1))
  }

  predicate HasWidth(ws: seq<string>, k: nat)
  {
    Truthy(WidthAt(ws, k))
  }

  /** None of the first `n` cells of the row has a width. */
  predicate NoWidth(ws: seq<string>, n: nat)
  {
    forall k :: 0 <= k < n ==> !HasWidth(ws, k)
  }

  /** The wrapper of row number `n1` (counted from 1). */
  function RowDiv(n1: nat, parts: seq<string>, e: Engine): string
  {
    "<div class='mdp-tabulator-wrapper mdp-tabulator-wrapper-" + NatToString(n1) + "'>\n" +
    CellsHtml(RowCells(parts, |parts|, e), |parts|) + "\n</div>\n"
  }

  /** The first `k` rows. */
  function RowsHtml(rows: seq<seq<string>>, k: nat, e: Engine): string
    requires k <= |rows|
  {
    if k == 0 then "" else RowsHtml(rows, k - 1, e) + RowDiv(k, rows[k - 1], e)
  }

  /** Appending the wrapper of the next row extends the rows written. */
  lemma RowsStep(rows: seq<seq<string>>, k: nat, e: Engine, out: string, div: string)
    requires k < |rows|
    requires out == RowsHtml(rows, k, e) && div == RowDiv(k + 1, rows[k], e)
    ensures out + div == RowsHtml(rows, k + 1, e)
  {
  }

  /** The width declarations of the first `k` rows, in order. */
  function StyleOf(rows: seq<seq<string>>, widths: seq<seq<string>>, k: nat, num: nat -> string): string
    requires k <= |rows|
  {
    if k == 0 then "" else StyleOf(rows, widths, k - 1, num) + WidthDecls(WidthRow(widths, k - 1), |rows[k - 1]|, num)
  }

  /** Appending the declarations of the next row extends the style. */
  lemma StyleStep(rows: seq<seq<string>>, widths: seq<seq<string>>, k: nat, num: nat -> string,
                  style: string, decls: string)
    requires k < |rows|
    requires style == StyleOf(rows, widths, k, num)
    requires decls == WidthDecls(WidthRow(widths, k), |rows[k]|, num)
    ensures style + decls == StyleOf(rows, widths, k + 1, num)
  {
  }

  /** The style attribute, shielded from the markdown compiler by `shield`,
      or nothing when no width was given. */
  function StyleAttr(b: TabBlock, shield: string -> string): string
  {
    var style := StyleOf(b.rows, b.widths, |b.rows|, NatToString);
    if Truthy(style) then shield(" style='" + style + "'") else ""
  }

  function OuterClass(inx: nat): string
  {
    "mdp-tabulator-outer-wrapper-" + NatToString(inx)
  }

  /** `renderTabulator` for block number `inx`. */
  function TabulatorHtml(b: TabBlock, inx: nat, e: Engine, shield: string -> string): string
  {
    "<div class='mdp-tabulator-outer-wrapper " + OuterClass(inx) + "'" + StyleAttr(b, shield) + ">\n" +
    RowsHtml(b.rows, |b.rows|, e) + "\n</div><!-- /" + OuterClass(inx) + " -->\n"
  }

  /** A row declares no width exactly when none of its cells has one. */
  lemma {:induction false} WidthDeclsEmpty(ws: seq<string>, n: nat, num: nat -> string)
    ensures |WidthDecls(ws, n, num)| == 0 <==> NoWidth(ws, n)
  {
    if n > 0 {
      WidthDeclsEmpty(ws, n - 1, num);
      var d := WidthDecl(num(n), WidthAt(ws, n - 1));
      assert |d| == 0 <==> !HasWidth(ws, n - 1);
      assert |WidthDecls(ws, n, num)| == |WidthDecls(ws, n - 1, num)| + |d|;
      if NoWidth(ws, n - 1) && !HasWidth(ws, n - 1) {
        forall k | 0 <= k < n
          ensures !HasWidth(ws, k)
        {
          if k == n - 1 {
            assert !HasWidth(ws, n - 1);
          }
        }
      }
    }
  }

  /** No row of the first `k` has a width. */
  predicate NoRowWidth(rows: seq<seq<string>>, widths: seq<seq<string>>, k: nat)
    requires k <= |rows|
  {
    k == 0 || (NoRowWidth(rows, widths, k - 1) && NoWidth(WidthRow(widths, k - 1), |rows[k - 1]|))
  }

  /** No row of the first `k` has a width exactly when each of them has none. */
  lemma {:induction false} NoRowWidthAll(rows: seq<seq<string>>, widths: seq<seq<string>>, k: nat)
    requires k <= |rows|
    ensures NoRowWidth(rows, widths, k) <==>
      forall r :: 0 <= r < k ==> NoWidth(WidthRow(widths, r), |rows[r]|)
  {
    if k > 0 {
      NoRowWidthAll(rows, widths, k - 1);
      if forall r :: 0 <= r < k ==> NoWidth(WidthRow(widths, r), |rows[r]|) {
        assert NoWidth(WidthRow(widths, k - 1), |rows[k - 1]|);
      }
      if NoRowWidth(rows, widths, k) {
        forall r | 0 <= r < k
          ensures NoWidth(WidthRow(widths, r), |rows[r]|)
        {
        }
      }
    }
  }

  /** The style is empty exactly when no cell of any row has a width. */
  lemma {:induction false} StyleEmpty(rows: seq<seq<string>>, widths: seq<seq<string>>, k: nat, num: nat -> string)
    requires k <= |rows|
    ensures |StyleOf(rows, widths, k, num)| == 0 <==> NoRowWidth(rows, widths, k)
  {
    if k > 0 {
      var ws := WidthRow(widths, k - 1);
      var n := |rows[k - 1]|;
      assert |StyleOf(rows, widths, k, num)| == |StyleOf(rows, widths, k - 1, num)| + |WidthDecls(ws, n, num)|;
      StyleEmpty(rows, widths, k - 1, num);
      WidthDeclsEmpty(ws, n, num);
      BothEmpty(|StyleOf(rows, widths, k - 1, num)|, |WidthDecls(ws, n, num)|,
        NoRowWidth(rows, widths, k - 1), NoWidth(ws, n), NoRowWidth(rows, widths, k));
    }
  }

  /** Two lengths add up to nothing exactly when both are nothing. */
  lemma BothEmpty(a: nat, b: nat, p: bool, q: bool, pq: bool)
    requires a == 0 <==> p
    requires b == 0 <==> q
    requires pq <==> p && q
    ensures a + b == 0 <==> pq
  {
  }

  /** Width declarations are never a single character. */
  lemma {:induction false} DeclsNeverOne(ws: seq<string>, n: nat, num: nat -> string)
    ensures |WidthDecls(ws, n, num)| == 0 || |WidthDecls(ws, n, num)| >= 2
  {
    if n > 0 {
      DeclsNeverOne(ws, n - 1, num);
      var d := WidthDecl(num(n), WidthAt(ws, n - 1));
      assert |d| == 0 || |d| >= 2;
      assert WidthDecls(ws, n, num) == WidthDecls(ws, n - 1, num) + d;
    }
  }

  /** The style is never a single character, so it is truthy exactly when
      it is not empty. */
  lemma {:induction false} StyleNeverOne(rows: seq<seq<string>>, widths: seq<seq<string>>, k: nat, num: nat -> string)
    requires k <= |rows|
    ensures |StyleOf(rows, widths, k, num)| == 0 || |StyleOf(rows, widths, k, num)| >= 2
  {
    if k > 0 {
      StyleNeverOne(rows, widths, k - 1, num);
      var ws := WidthRow(widths, k - 1);
      var n := |rows[k - 1]|;
      DeclsNeverOne(ws, n, num);
      assert StyleOf(rows, widths, k, num) == StyleOf(rows, widths, k - 1, num) + WidthDecls(ws, n, num);
    }
  }

  /** The block gets a style attribute exactly when some cell of some row
      has a width. */
  lemma StyledIff(b: TabBlock, shield: string -> string)
    ensures StyleAttr(b, shield) ==
      if NoRowWidth(b.rows, b.widths, |b.rows|) then ""
      else shield(" style='" + StyleOf(b.rows, b.widths, |b.rows|, NatToString) + "'")
  {
    StyleEmpty(b.rows, b.widths, |b.rows|, NatToString);
    StyleNeverOne(b.rows, b.widths, |b.rows|, NatToString);
  }
}
