/** The compiler object: the numbering counters the renderers share, the
    options it was built with and the renderers that read or bump the
    counters. The counters are static in the original class, so one
    compiler here stands for every compiler of one request. */
module Compiler {
  import opened Wrappers
  import opened PhpStrings
  import opened Host
  import Attributes
  import Tables
  import opened TableRender
  import Images
  import DivBlocks
  import TagLists
  import Shield
  import Base64
  import Tabulator

  class MarkdownPlus {
    /** The number the next AsciiTable gets. */
    var asciiTableInx: nat
    /** How many images have been rendered. */
    var imageInx: nat
    /** The number the next tabulator block gets. */
    var tabulatorInx: nat

    /** The characters that may open a DivBlock fence. */
    const divblockChars: string
    /** The visitor, the active language and the clock. */
    const env: Attributes.Env
    /** The markdown compiler the renderers call back into. */
    const engine: Engine

    constructor (divblockChars: string, env: Attributes.Env, engine: Engine)
      ensures asciiTableInx == 1 && imageInx == 0 && tabulatorInx == 1
      ensures this.divblockChars == divblockChars && this.env == env && this.engine == engine
    {
      asciiTableInx := 1;
      imageInx := 0;
      tabulatorInx := 1;
      this.divblockChars := divblockChars;
      this.env := env;
      this.engine := engine;
    }

    /** `prepareTableAttributes`: takes the next table number, then prepares
        the caption and attributes for it. */
    method PrepareTableAttributes(args: string) returns (r: Result<Tables.TableHead>)
      modifies this
      ensures asciiTableInx == old(asciiTableInx) + 1
      ensures imageInx == old(imageInx) && tabulatorInx == old(tabulatorInx)
      ensures r == Tables.TableAttributes(args, old(asciiTableInx), env)
    {
      r := Head(args, asciiTableInx);
      asciiTableInx := asciiTableInx + 1;
    }

    /** The caption and attributes of table number `inx`. */
    method Head(args: string, inx: nat) returns (r: Result<Tables.TableHead>)
      ensures r == Tables.TableAttributes(args, inx, env)
    {
      r := Tables.TableAttributes(args, inx, env);
    }

    /** `renderAsciiTable`: parses the table, then numbers it; a table
        whose source fails to parse takes no number. */
    method RenderAsciiTable(block: Tables.TableBlock) returns (r: Result<string>)
      modifies this
      ensures r == RenderTable(block, old(asciiTableInx), env, engine)
      ensures asciiTableInx == old(asciiTableInx) + (if Tables.ParseTable(block.content, env).Ok? then 1 else 0)
      ensures imageInx == old(imageInx) && tabulatorInx == old(tabulatorInx)
    {
      var t := Tables.ParseTableSource(block.content, env);
      if t.Err? {
        return Err(t.msg);
      }
      var h := PrepareTableAttributes(block.args);
      if h.Err? {
        return Err(h.msg);
      }
      if h.value.Suppressed? {
        return Ok("");
      }
      r := RenderShown(t.value, h.value.caption, h.value.attrs);
    }

    /** A shown table: the opening tag and caption, the header when the
        first cell starts with `#` (written without the `#`), the body rows
        after it and the closing tags. */
    method RenderShown(table: Tables.Table, caption: string, attrs: string) returns (r: Result<string>)
      ensures r == Ok(TableHtml(table, caption, attrs, engine))
    {
      var out := "<table " + attrs + ">\n" + caption;
      var cells := table.cells;
      var row := 0;
      var head := "";
      if |cells| > 0 && |cells[0]| > 0 && |cells[0][0]| > 0 && cells[0][0][0] == '#' {
        row := 1;
        cells := cells[0 := cells[0][0 := cells[0][0][1..]]];
        head := RenderHeader(cells[0], table.nCols);
      }
      assert cells == Rendered(table.cells) && row == BodyStart(table.cells);
      var body := RenderBody(cells, row, table.nRows, table.nCols, table.rowAttribs);
      assert out == TableOpening(attrs, caption);
      assert head + "  <tbody>\n" + body == TableBody(table, engine);
      out := out + (head + "  <tbody>\n" + body) + TableTail;
      r := Ok(out);
    }

    /** The header row of a table with `nCols` columns. */
    method RenderHeader(row: seq<string>, nCols: nat) returns (s: string)
      ensures s == HeaderHtml(row, nCols, engine)
    {
      var out := "";
      for col := 0 to nCols
        invariant out == ThCells(row, col, engine)
      {
        var cell := if col < |row| then row[col] else "";
        cell := engine.paragraph(cell, true);
        var th := "\t\t<th class='mdp-col-" + NatToString(col + 1) + "'>" + cell + "</th>\n";
        assert th == ThHtml(col + 1, engine.paragraph(CellAt(row, col), true));
        out := out + th;
      }
      s := "  <thead>\n    <tr>\n" + out + "    </tr>\n  </thead>\n";
    }

    /** The body rows `start` up to `nRows`. */
    method RenderBody(cells: seq<seq<string>>, start: nat, nRows: nat, nCols: nat, attribs: map<nat, string>)
      returns (s: string)
      ensures s == BodyRows(cells, start, nRows, nCols, attribs, engine)
    {
      s := "";
      var row := start;
      while row < nRows
        invariant start <= row && (row <= nRows || row == start)
        invariant s == BodyRows(cells, start, row, nCols, attribs, engine)
        decreases nRows - row
      {
        var rowAttrib := if row in attribs then attribs[row] else "";
        var r := if row < |cells| then cells[row] else [];
        var tr := RenderRow(r, row, nCols, rowAttrib);
        BodyRowsStep(cells, start, row, nCols, attribs, engine);
        s := s + tr;
        row := row + 1;
      }
    }

    /** Row `r` of the body: a `>` cell writes no cell and widens the next
        one by a column. */
    method RenderRow(row: seq<string>, r: nat, nCols: nat, rowAttrib: string) returns (s: string)
      ensures s == RowHtml(row, r, nCols, rowAttrib, engine)
    {
      var out := "";
      var colspan := 1;
      for col := 0 to nCols
        invariant colspan == RowTds(row, col, engine).1
        invariant out == TdsHtml(r + 1, RowTds(row, col, engine).0)
      {
        var cell := if col < |row| then row[col] else "";
        if cell == ">" {
          colspan := colspan + 1;
        } else {
          var text := cell;
          if Truthy(cell) {
            text := engine.compile(cell, true);
          }
          var colspanAttr := "";
          if colspan > 1 {
            colspanAttr := " colspan='" + NatToString(colspan) + "'";
          }
          var td := "\t\t<td class='mdp-row-" + NatToString(r + 1) + " mdp-col-" + NatToString(col + 1) + "'" +
            colspanAttr + ">\n\t\t\t" + text + "\t\t</td>\n";
          ghost var prev := RowTds(row, col, engine).0;
          ghost var t := Td(col + 1, colspan, text);
          assert td == TdHtml(r + 1, t);
          assert (prev + [t])[..|prev|] == prev;
          out := out + td;
          colspan := 1;
        }
      }
      s := "\t<tr" + rowAttrib + ">\n" + out + "\t</tr>\n";
    }

    /** `renderImage`: counts the image and writes its HTML. */
    method RenderImage(spec: string, fileUrl: string -> string) returns (html: string)
      requires Contains(spec, "](")
      modifies this
      ensures imageInx == old(imageInx) + 1
      ensures asciiTableInx == old(asciiTableInx) && tabulatorInx == old(tabulatorInx)
      ensures html == Images.ImageHtml(Images.ViewOf(spec), fileUrl)
    {
      imageInx := imageInx + 1;
      html := Images.ImageHtml(Images.ViewOf(spec), fileUrl);
    }

    /** `consumeDivBlock`: reads the opening fence and its arguments, then
        collects lines up to the fence that closes the block; returns the
        block and the index of the last line consumed. */
    method ConsumeDivBlock(lines: seq<string>, current: nat) returns (r: Result<DivBlocks.Consumed>)
      requires current < |lines| && RTrim(lines[current]) != []
      ensures r == DivBlocks.ConsumeDiv(lines, current, divblockChars, env, engine)
    {
      var line := RTrim(lines[current]);
      var m := line[0];
      var o := DivBlocks.OpeningOf(line, m);
      if o.None? {
        return Err("Error in Markdown source line " + NatToString(current) + ": " + line);
      }
      var mdp := o.value.mdp;
      var args := Attributes.ParseArgs(o.value.args, env);
      if args.Err? {
        return Err(args.msg);
      }
      var a := args.value;
      var kind := DivBlocks.Classifier(m, o.value.len);
      var scan := ScanBlockLines(lines, current + 1, kind, mdp, if mdp then 0 else 1, a.text + "\n");
      var content, i := scan.content, scan.last;
      var inlineTag := TagLists.IsInlineTag(a.tag);
      var literal := a.literal || inlineTag;
      var shielded;
      if literal {
        shielded := Shield.ShieldStr(Base64.ToBytes(content), "block");
      } else if a.inline || inlineTag {
        var x := CompileEmbeddedDivBlock(content);
        if x.Err? {
          return Err(x.msg);
        }
        shielded := Shield.ShieldStr(Base64.ToBytes(engine.paragraph(x.value, true)), "inline");
      } else {
        shielded := Shield.ShieldStr(Base64.ToBytes(content), "md");
      }
      r := Ok(DivBlocks.Consumed(DivBlocks.DivBlock(m, a.tag, a.htmlAttrs, a.lang, literal, "", inlineTag, shielded), i));
    }

    /** The line loop of `consumeDivBlock` from line `start`, with the
        nesting depth and the content so far. */
    method ScanBlockLines(lines: seq<string>, start: nat, kind: string -> DivBlocks.LineKind, mdp: bool,
                          depth0: int, content0: string) returns (scan: DivBlocks.Scan)
      requires 1 <= start <= |lines|
      ensures scan == DivBlocks.ScanFrom(lines, start, kind, mdp, depth0, content0)
    {
      var depth, content := depth0, content0;
      var i := start;
      while i < |lines|
        invariant start <= i <= |lines|
        invariant DivBlocks.ScanFrom(lines, i, kind, mdp, depth, content) == DivBlocks.ScanFrom(lines, start, kind, mdp, depth0, content0)
        decreases |lines| - i
      {
        var k := kind(lines[i]);
        if k.Nests? {
          if mdp {
            i := i - 1;
            break;
          }
          depth := depth + 1;
        } else if k.Closes? {
          depth := depth - 1;
          if depth < 1 {
            break;
          }
        }
        content := content + (lines[i] + "\n");
        i := i + 1;
      }
      scan := DivBlocks.Scan(content, i);
    }

    /** `compileEmbeddedDivBlock`: copies the lines of `str`, replacing each
        embedded block by its HTML. */
    method CompileEmbeddedDivBlock(str: string) returns (r: Result<string>)
      ensures r == DivBlocks.Embedded(str, divblockChars, env, engine)
    {
      var lines := Split(str, '\n');
      r := EmbedAll(lines, DivBlocks.ReaderOf(divblockChars, env, engine, DivBlocks.Corrected));
    }

    /** The line loop of `compileEmbeddedDivBlock`, lines read by `R`. */
    method EmbedAll(lines: seq<string>, R: DivBlocks.Reader) returns (r: Result<string>)
      ensures r == DivBlocks.EmbedLines(lines, DivBlocks.Outside, "", R)
    {
      var st := DivBlocks.Outside;
      var out := "";
      for i := 0 to |lines|
        invariant DivBlocks.EmbedLines(lines[i..], st, out, R) == DivBlocks.EmbedLines(lines, DivBlocks.Outside, "", R)
      {
        assert lines[i..][1..] == lines[i + 1..];
        var step := DivBlocks.EmbedStep(st, lines[i], R);
        if step.Err? {
          return Err(step.msg);
        }
        st := step.value.state;
        out := out + step.value.out;
      }
      assert lines[|lines|..] == [];
      r := Ok(out);
    }

    /** `renderTabulator`: takes the next tabulator number, then writes one
        wrapper per row and the widths as a shielded style attribute. */
    method RenderTabulator(block: Tabulator.TabBlock, pageShield: string -> string) returns (html: string)
      modifies this
      ensures tabulatorInx == old(tabulatorInx) + 1
      ensures asciiTableInx == old(asciiTableInx) && imageInx == old(imageInx)
      ensures html == Tabulator.TabulatorHtml(block, old(tabulatorInx), engine, pageShield)
    {
      var inx := tabulatorInx;
      tabulatorInx := tabulatorInx + 1;
      var out, style := RenderTabRows(block);
      if Truthy(style) {
        style := pageShield(" style='" + style + "'");
      } else {
        style := "";
      }
      var cls := Tabulator.OuterClass(inx);
      html := "<div class='mdp-tabulator-outer-wrapper " + cls + "'" + style + ">\n" + out + "\n</div><!-- /" + cls + " -->\n";
    }

    /** The row wrappers of a tabulator and the width declarations of all
        its rows, in order. */
    method RenderTabRows(block: Tabulator.TabBlock) returns (out: string, style: string)
      ensures out == Tabulator.RowsHtml(block.rows, |block.rows|, engine)
      ensures style == Tabulator.StyleOf(block.rows, block.widths, |block.rows|, NatToString)
    {
      out := "";
      style := "";
      for n := 0 to |block.rows|
        invariant out == Tabulator.RowsHtml(block.rows, n, engine)
        invariant style == Tabulator.StyleOf(block.rows, block.widths, n, NatToString)
      {
        var parts := block.rows[n];
        var div, decls := RenderTabRow(n + 1, parts, Tabulator.WidthRow(block.widths, n));
        Tabulator.RowsStep(block.rows, n, engine, out, div);
        Tabulator.StyleStep(block.rows, block.widths, n, NatToString, style, decls);
        style := style + decls;
        out := out + div;
      }
    }

    /** Row number `n1` of a tabulator: its wrapper around its cells, the
        last one marked, and the width declarations of its columns. */
    method RenderTabRow(n1: nat, parts: seq<string>, ws: seq<string>) returns (div: string, decls: string)
      ensures div == Tabulator.RowDiv(n1, parts, engine)
      ensures decls == Tabulator.WidthDecls(ws, |parts|, NatToString)
    {
      var line;
      line, decls := RenderTabCells(parts, ws);
      div := "<div class='mdp-tabulator-wrapper mdp-tabulator-wrapper-" + NatToString(n1) + "'>\n" +
        line + "\n</div>\n";
    }

    /** The cells of a tabulator row, the last one marked, and the width
        declarations of its columns. */
    method RenderTabCells(parts: seq<string>, ws: seq<string>) returns (line: string, decls: string)
      ensures line == Tabulator.CellsHtml(Tabulator.RowCells(parts, |parts|, engine), |parts|)
      ensures decls == Tabulator.WidthDecls(ws, |parts|, NatToString)
    {
      line := "";
      decls := "";
      ghost var cells := Tabulator.RowCells(parts, |parts|, engine);
      Tabulator.RowCellsAre(parts, |parts|, engine);
      var last := |parts| - 1;
      for p := 0 to |parts|
        invariant line == Tabulator.CellsHtml(cells, p)
        invariant decls == Tabulator.WidthDecls(ws, p, NatToString)
      {
        var i := p + 1;
        var lastClass := if p == last then " tt-last" else "";
        var elem := engine.paragraph(parts[p], false);
        var cell := "<div class='tt" + NatToString(i) + lastClass + "'>" + elem + "</div>";
        assert cell == Tabulator.CellHtml(cells[p]);
        line := line + cell;
        var w := Tabulator.WidthAt(ws, p);
        if Truthy(w) {
          decls := decls + ("--tt" + NatToString(i) + "-width: " + w + ";");
        }
        assert decls == Tabulator.WidthDecls(ws, p, NatToString) + Tabulator.WidthDecl(NatToString(i), w);
      }
    }
  }
}
