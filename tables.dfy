/** AsciiTable blocks: a table written between two `|===` lines, with
    `|`-led lines holding cells and `|---` lines starting new rows. This
    module holds the scanner, the table-source parser and the pure parts of
    rendering; the renderer that draws a table number lives in `Compiler`. */
module Tables {
  import opened Wrappers
  import opened PhpStrings
  import opened Host
  import LazyMatch
  import Attributes

  // ---------------------------------------------------------------- scanner

  /** `identifyAsciiTable`: the line opens with `|===`. */
  predicate IsTableFence(line: string)
  {
    StartsWith(line, "|===")
  }

  predicate IsEq(c: char) { c == '=' }

  /** What `/^\|===*\s+(.*)$/` captures on the opening fence, or "" where
      it does not match (PHP's `false`, read as a string later on): after
      `|==`, the run of `=` and the run of whitespace are skipped, and the
      rest must be one line, optionally ended by a line feed. */
  function FenceArgs(line: string): string
  {
    if !StartsWith(line, "|==") then ""
    else
      var e := 3 + Span(line, 3, IsEq);
      var w := Span(line, e, IsSpace);
      if w == 0 then ""
      else
        var rest := line[e + w..];
        var x := TakeLine(rest);
        if x == rest || x + "\n" == rest then x else ""
  }

  /** The arguments written after the fence and its spaces are read back. */
  lemma FenceArgsOf(eqs: string, ws: string, a: string)
    requires forall k :: 0 <= k < |eqs| ==> eqs[k] == '='
    requires ws != [] && forall k :: 0 <= k < |ws| ==> IsSpace(ws[k])
    requires '\n' !in a && (a == [] || !IsSpace(a[0]))
    ensures FenceArgs("|==" + (eqs + (ws + a))) == a
  {
    var line := "|==" + (eqs + (ws + a));
    var e := 3 + |eqs|;
    assert line[..3] == "|==";
    assert line[e..] == ws + a;
    assert line[e + |ws|..] == a;
    forall k | 3 <= k < e
      ensures line[k] == '='
    {
      assert line[k] == eqs[k - 3];
    }
    forall k | e <= k < e + |ws|
      ensures IsSpace(line[k])
    {
      assert line[k] == line[e..][k - e];
    }
    FenceArgsAt(line, e, |ws|);
  }

  /** The fence read from its layout: the `=` run up to `e`, the
      whitespace run of `w` characters, then the arguments. */
  lemma FenceArgsAt(line: string, e: nat, w: nat)
    requires StartsWith(line, "|==") && 3 <= e && 0 < w && e + w <= |line|
    requires forall k :: 3 <= k < e ==> line[k] == '='
    requires forall k :: e <= k < e + w ==> IsSpace(line[k])
    requires e + w == |line| || !IsSpace(line[e + w])
    requires '\n' !in line[e + w..]
    ensures FenceArgs(line) == line[e + w..]
  {
    SpanIs(line, 3, e - 3, IsEq);
    SpanIs(line, e, w, IsSpace);
    TakeLineWhole(line[e + w..]);
  }

  /** A scanned table: its source lines and the arguments of its fence. */
  datatype TableBlock = TableBlock(content: seq<string>, args: string)

  /** `consumeAsciiTable`: collects the lines after the opening fence up
      to the next line starting with `|===`, and returns the index of that
      closing line, or the line count when there is none. */
  method ConsumeAsciiTable(lines: seq<string>, current: nat) returns (block: TableBlock, next: nat)
    requires current < |lines|
    ensures current < next <= |lines|
    ensures block.content == lines[current + 1..next]
    ensures next == |lines| || IsTableFence(lines[next])
    ensures forall k :: current < k < next ==> !IsTableFence(lines[k])
    ensures block.args == FenceArgs(lines[current])
  {
    var args := FenceArgs(lines[current]);
    var content: seq<string> := [];
    var i := current + 1;
    while i < |lines|
      invariant current < i <= |lines|
      invariant content == lines[current + 1..i]
      invariant forall k :: current < k < i ==> !IsTableFence(lines[k])
    {
      if IsTableFence(lines[i]) {
        break;
      }
      content := content + [lines[i]];
      i := i + 1;
    }
    return TableBlock(content, args), i;
  }

  // ------------------------------------------------------------------ cells

  /** A cell boundary of `preg_split('/\s(?<!\\\)\|/', …)`: a whitespace
      character followed by `|`. The look-behind stands after `\s`, where
      the character behind is that whitespace, so it never refuses. */
  predicate BoundaryAt(s: string, i: int)
  {
    0 <= i && i + 1 < |s| && IsSpace(s[i]) && s[i + 1] == '|'
  }

  function FirstBoundary(s: string, i: nat): (r: Option<nat>)
    ensures r.Some? ==> i <= r.value && BoundaryAt(s, r.value)
    ensures r.Some? ==> forall j :: i <= j < r.value ==> !BoundaryAt(s, j)
    ensures r.None? ==> forall j :: i <= j ==> !BoundaryAt(s, j)
    decreases |s| - i
  {
    if i + 1 >= |s| then None
    else if BoundaryAt(s, i) then Some(i)
    else FirstBoundary(s, i + 1)
  }

  /** The pieces between boundaries, empty ones included. */
  function SplitCells(s: string): (r: seq<string>)
    ensures |r| >= 1
    decreases |s|
  {
    match FirstBoundary(s, 0)
    case None => [s]
    case Some(i) => [s[..i]] + SplitCells(s[i + 2..])
  }

  /** A text without a boundary is one piece. */
  lemma SplitCellsNone(s: string)
    requires forall j :: !BoundaryAt(s, j)
    ensures SplitCells(s) == [s]
  {
  }

  /** Splitting at the first boundary: the piece written before ` |` comes
      back, and the split goes on after it. */
  lemma SplitCellsOf(a: string, w: char, b: string)
    requires IsSpace(w)
    requires forall j :: !BoundaryAt(a, j)
    ensures SplitCells(a + [w, '|'] + b) == [a] + SplitCells(b)
  {
    var s := a + [w, '|'] + b;
    assert BoundaryAt(s, |a|);
    forall j | 0 <= j < |a|
      ensures !BoundaryAt(s, j)
    {
      if j + 1 < |a| {
        assert !BoundaryAt(a, j);
      } else {
        assert s[j + 1] == w;
      }
    }
    match FirstBoundary(s, 0)
    case None =>
    case Some(i) =>
      assert i == |a|;
      assert s[..i] == a;
      assert s[i + 2..] == b;
  }

  /** The cells one piece makes: a piece PHP counts as true that starts
      with `>` is cut at every `|`, one cell per part; any other piece is
      one cell in which `\|` is read as `|`. */
  function PieceCells(p: string): (r: seq<string>)
    ensures |r| >= 1
  {
    if Truthy(p) && p[0] == '>' then Split(p, '|') else [ReplaceAll(p, "\\|", "|")]
  }

  /** The cells of a run of pieces, in order. */
  function LineCells(pieces: seq<string>): (r: seq<string>)
    ensures |r| >= |pieces|
  {
    if pieces == [] then [] else LineCells(pieces[..|pieces| - 1]) + PieceCells(pieces[|pieces| - 1])
  }

  /** `|` written as `\|`, so that it does not end a cell. */
  function EscapeBars(c: string): (r: string)
  {
    if c == [] then []
    else if c[0] == '|' then "\\|" + EscapeBars(c[1..])
    else [c[0]] + EscapeBars(c[1..])
  }

  /** Reading a cell undoes the escaping of its bars. */
  lemma {:induction false} UnescapeEscaped(c: string)
    requires '\\' !in c
    ensures ReplaceAll(EscapeBars(c), "\\|", "|") == c
  {
    if c != [] {
      UnescapeEscaped(c[1..]);
      var t := EscapeBars(c[1..]);
      if c[0] == '|' {
        assert EscapeBars(c) == "\\|" + t;
        assert (("\\|" + t)[2..]) == t;
      } else {
        assert EscapeBars(c) == [c[0]] + t;
        assert ([c[0]] + t)[1..] == t;
      }
    }
  }

  /** A `>`-led piece: its cells carry no `|`, and joined with `|` they
      give the piece back. */
  lemma SpanPieceCells(p: string)
    requires Truthy(p) && p[0] == '>'
    ensures Join(PieceCells(p), "|") == p
    ensures forall k :: 0 <= k < |PieceCells(p)| ==> '|' !in PieceCells(p)[k]
  {
    JoinSplit(p, '|');
  }

  // ------------------------------------------------------------------- rows

  /** A line starting a new row. */
  predicate IsRowRule(line: string)
  {
    StartsWith(line, "|---")
  }

  predicate IsRuleChar(c: char) { c == ' ' || c == '-' }

  /** The last `c` in `s[lo..hi]`. */
  function LastIndex(s: string, c: char, lo: nat, hi: nat): (r: Option<nat>)
    requires lo <= hi <= |s|
    ensures r.Some? ==> lo <= r.value < hi && s[r.value] == c
    ensures r.Some? ==> forall j :: r.value < j < hi ==> s[j] != c
    ensures r.None? ==> forall j :: lo <= j < hi ==> s[j] != c
    decreases hi - lo
  {
    if hi == lo then None
    else if s[hi - 1] == c then Some(hi - 1)
    else LastIndex(s, c, lo, hi - 1)
  }

  /** The group of `/\{:(.*)}/`: from the first `{:` that a `}` follows on
      its line, up to the last such `}`. */
  function GreedyBrace(t: string, i: nat): (r: Option<string>)
    requires i <= |t|
    decreases |t| - i
  {
    if i + 2 > |t| then None
    else if t[i] == '{' && t[i + 1] == ':' then
      match LastIndex(t, '}', i + 2, i + 2 + LazyMatch.Reach(t, i + 2))
      case Some(j) => Some(t[i + 2..j])
      case None => GreedyBrace(t, i + 1)
    else GreedyBrace(t, i + 1)
  }

  /** The argument text of a `|---` line: what follows the rule once
      spaces and dashes are trimmed off, reduced to the inside of a `{: }`
      when it holds one; nothing when that text is not truthy. */
  function RuleArgs(line: string): Option<string>
    requires IsRowRule(line)
  {
    var rest := LTrimBy(line[4..], IsRuleChar);
    if !Truthy(rest) then None
    else match GreedyBrace(Trim(rest), 0)
      case Some(inner) => Some(inner)
      case None => Some(rest)
  }

  /** A rule with `{:a}` hands `a` to the argument parser. */
  lemma RuleArgsBraced(a: string)
    requires '\n' !in a
    ensures RuleArgs("|--- " + ("{:" + a + "}")) == Some(a)
  {
    var t := "{:" + a + "}";
    var line := "|--- " + t;
    assert line[4..] == " " + t;
    LTrimPrefix(" ", t, IsRuleChar);
    TrimBraced(t);
    GreedyWhole(a);
  }

  lemma TrimBraced(t: string)
    requires |t| >= 1 && t[0] == '{' && t[|t| - 1] == '}'
    ensures Trim(t) == t
  {
    LTrimPrefix("", t, IsTrimChar);
    assert "" + t == t && t + "" == t;
    RTrimSuffix(t, "", IsTrimChar);
  }

  lemma GreedyWhole(a: string)
    requires '\n' !in a
    ensures GreedyBrace("{:" + a + "}", 0) == Some(a)
  {
    var t := "{:" + a + "}";
    forall j | 2 <= j < |t| - 1
      ensures t[j] != '\n'
    {
      assert t[j] == a[j - 2];
    }
    LazyMatch.ReachCovers(t, 2, |t| - 2);
    assert LastIndex(t, '}', 2, |t|) == Some(|t| - 1);
    assert t[2..|t| - 1] == a;
  }

  /** The table under construction: its rows (the last is the current
      row) and the attribute strings of the rows opened by a `|---` line
      with arguments, by row index. */
  datatype Grid = Grid(rows: seq<seq<string>>, attribs: map<nat, string>)

  const Start := Grid([[]], map[])

  function ContinuationError(line: string): string
  {
    "Error in AsciiTable: cell definition needs leading '|' (in \"" + line + "\")"
  }

  /** One line of `parseTableSource`: a rule opens a new row, taking its
      attributes from the rule's arguments; any other line works on the
      current row. */
  function TableStep(g: Grid, line: string, env: Attributes.Env): (r: Result<Grid>)
    requires g.rows != []
    ensures r.Ok? && IsRowRule(line) ==> r.value.rows == g.rows + [[]]
    ensures r.Ok? && !IsRowRule(line) ==>
      var n := |g.rows| - 1;
      |r.value.rows| == |g.rows| && r.value.rows[..n] == g.rows[..n] &&
      |r.value.rows[n]| >= |g.rows[n]| && |r.value.rows[n]| >= 1
  {
    if IsRowRule(line) then RuleStep(g, line, env) else CellStep(g, line)
  }

  function RuleStep(g: Grid, line: string, env: Attributes.Env): (r: Result<Grid>)
    requires IsRowRule(line)
    ensures r.Ok? ==> r.value.rows == g.rows + [[]]
  {
    match RuleArgs(line)
    case None => Ok(Grid(g.rows + [[]], g.attribs))
    case Some(a) =>
      match Attributes.ParseArgs(a, env)
      case Err(m) => Err(m)
      case Ok(b) => Ok(Grid(g.rows + [[]], g.attribs[|g.rows| := b.htmlAttrs]))
  }

  /** A `|`-led line appends its cells to the current row; any other line
      continues the current row's last cell on a new line, and is an error
      while the row has no cell. */
  function CellStep(g: Grid, line: string): (r: Result<Grid>)
    requires g.rows != []
    ensures r.Ok? ==>
      var n := |g.rows| - 1;
      |r.value.rows| == |g.rows| && r.value.rows[..n] == g.rows[..n] &&
      |r.value.rows[n]| >= |g.rows[n]| && |r.value.rows[n]| >= 1
  {
    var last := |g.rows| - 1;
    if |line| > 0 && line[0] == '|' then
      Ok(Grid(g.rows[last := g.rows[last] + LineCells(SplitCells(line[1..]))], g.attribs))
    else if g.rows[last] == [] then Err(ContinuationError(line))
    else
      var row := g.rows[last];
      Ok(Grid(g.rows[last := row[|row| - 1 := row[|row| - 1] + "\n" + line]], g.attribs))
  }

  /** The table built from the given lines. */
  function TableFrom(lines: seq<string>, env: Attributes.Env): (r: Result<Grid>)
    ensures r.Ok? ==> r.value.rows != []
  {
    if lines == [] then Ok(Start)
    else
      match TableFrom(lines[..|lines| - 1], env)
      case Err(m) => Err(m)
      case Ok(g) => TableStep(g, lines[|lines| - 1], env)
  }

  /** The largest row width. */
  function Widest(rows: seq<seq<string>>): (w: nat)
    ensures forall r :: 0 <= r < |rows| ==> |rows[r]| <= w
    ensures w == 0 || exists r :: 0 <= r < |rows| && |rows[r]| == w
  {
    if rows == [] then 0
    else
      var w := Widest(rows[..|rows| - 1]);
      var n := |rows[|rows| - 1]|;
      if n > w then n else w
  }

  /** What `parseTableSource` returns: the cells by row and column, the
      column and row counts, and the row attributes. */
  datatype Table = Table(cells: seq<seq<string>>, nCols: nat, nRows: nat, rowAttribs: map<nat, string>)

  function ParseTable(content: seq<string>, env: Attributes.Env): Result<Table>
  {
    match TableFrom(content, env)
    case Err(m) => Err(m)
    case Ok(g) => Ok(Table(g.rows, if Widest(g.rows) > 1 then Widest(g.rows) else 1, |g.rows|, g.attribs))
  }

  // ---------------------------------------------------------- the parser

  /** `parseTableSource`: walks the lines, each one a step on the table
      so far, keeping the widest column index seen after a line that is not
      a rule. */
  method ParseTableSource(content: seq<string>, env: Attributes.Env) returns (r: Result<Table>)
    ensures r == ParseTable(content, env)
  {
    var table: seq<seq<string>> := [[]];
    var rowAttribs: map<nat, string> := map[];
    var nCols := 0;
    var i := 0;
    while i < |content|
      invariant 0 <= i <= |content|
      invariant TableFrom(content[..i], env) == Ok(Grid(table, rowAttribs))
      invariant table != []
      invariant nCols + 1 == if Widest(table) > 1 then Widest(table) else 1
    {
      TableFromStep(content, i, env);
      var step := TableTurn(table, rowAttribs, content[i], env);
      if step.Err? {
        ErrSticks(content, i + 1, env);
        return Err(step.msg);
      }
      StepWidest(Grid(table, rowAttribs), content[i], env);
      table, rowAttribs := step.value.rows, step.value.attribs;
      if !IsRowRule(content[i]) {
        var col := |table[|table| - 1]| - 1;
        nCols := if nCols > col then nCols else col;
      }
      i := i + 1;
    }
    assert content[..i] == content;
    r := Ok(Table(table, nCols + 1, |table|, rowAttribs));
  }

  /** One line of `parseTableSource`, with the current row and column
      taken from the table so far. */
  method TableTurn(table: seq<seq<string>>, rowAttribs: map<nat, string>, line: string, env: Attributes.Env)
    returns (r: Result<Grid>)
    requires table != []
    ensures r == TableStep(Grid(table, rowAttribs), line, env)
  {
    if IsRowRule(line) {
      r := RuleTurn(table, rowAttribs, line, env);
    } else {
      r := CellTurn(table, rowAttribs, line);
    }
  }

  /** A line of cells or a continuation line. */
  method CellTurn(table: seq<seq<string>>, rowAttribs: map<nat, string>, line: string)
    returns (r: Result<Grid>)
    requires table != []
    ensures r == CellStep(Grid(table, rowAttribs), line)
  {
    var row := |table| - 1;
    var col := |table[row]| - 1;
    if |line| > 0 && line[0] == '|' {
      var cur := AppendCells(table[row], SplitCells(line[1..]));
      return Ok(Grid(table[row := cur], rowAttribs));
    }
    if col < 0 {
      return Err(ContinuationError(line));
    }
    return Ok(Grid(table[row := table[row][col := table[row][col] + "\n" + line]], rowAttribs));
  }

  /** A `|---` line: a new row, with the attributes its arguments give. */
  method RuleTurn(table: seq<seq<string>>, rowAttribs: map<nat, string>, line: string, env: Attributes.Env)
    returns (r: Result<Grid>)
    requires IsRowRule(line)
    ensures r == RuleStep(Grid(table, rowAttribs), line, env)
  {
    var a := RuleArgs(line);
    if a.None? {
      return Ok(Grid(table + [[]], rowAttribs));
    }
    var args := Attributes.ParseInlineBlockArguments(a.value, env);
    if args.Err? {
      return Err(args.msg);
    }
    return Ok(Grid(table + [[]], rowAttribs[|table| := args.value.htmlAttrs]));
  }

  /** How a step changes the widest row: a rule adds an empty row; any
      other line leaves the row count and extends or keeps the last row,
      which then has a cell. */
  lemma StepWidest(g: Grid, line: string, env: Attributes.Env)
    requires g.rows != [] && TableStep(g, line, env).Ok?
    ensures var h := TableStep(g, line, env).value;
      IsRowRule(line) ==> Widest(h.rows) == Widest(g.rows)
    ensures var h := TableStep(g, line, env).value; var n := |g.rows| - 1;
      !IsRowRule(line) ==>
        |h.rows| == |g.rows| && |h.rows[n]| >= 1 &&
        Widest(h.rows) == if |h.rows[n]| > Widest(g.rows) then |h.rows[n]| else Widest(g.rows)
  {
    var h := TableStep(g, line, env).value;
    if IsRowRule(line) {
      WidestGrows(g.rows, []);
    } else {
      var n := |g.rows| - 1;
      WidestLast(g.rows, h.rows[n]);
      assert h.rows == g.rows[n := h.rows[n]];
    }
  }

  /** Once a line fails, the table fails with its message. */
  lemma {:induction false} ErrSticks(content: seq<string>, j: nat, env: Attributes.Env)
    requires j <= |content| && TableFrom(content[..j], env).Err?
    ensures TableFrom(content, env) == TableFrom(content[..j], env)
    decreases |content| - j
  {
    if j == |content| {
      assert content[..j] == content;
    } else {
      TableFromStep(content, j, env);
      ErrSticks(content, j + 1, env);
    }
  }

  /** The inner loop of `parseTableSource`: each piece's cells are
      appended to the row in turn. */
  method AppendCells(row: seq<string>, pieces: seq<string>) returns (cur: seq<string>)
    ensures cur == row + LineCells(pieces)
  {
    cur := row;
    var k := 0;
    while k < |pieces|
      invariant 0 <= k <= |pieces|
      invariant cur == row + LineCells(pieces[..k])
    {
      LineCellsStep(pieces, k);
      cur := AppendPiece(cur, pieces[k]);
      k := k + 1;
    }
    assert pieces[..k] == pieces;
  }

  /** The cells of one piece appended to a row: the parts of a `>`-led
      piece one by one, or the piece read as one cell. */
  method AppendPiece(row: seq<string>, piece: string) returns (cur: seq<string>)
    ensures cur == row + PieceCells(piece)
  {
    if Truthy(piece) && piece[0] == '>' {
      var parts := Split(piece, '|');
      cur := row;
      var j := 0;
      while j < |parts|
        invariant 0 <= j <= |parts|
        invariant cur == row + parts[..j]
      {
        assert parts[..j + 1] == parts[..j] + [parts[j]];
        cur := cur + [parts[j]];
        j := j + 1;
      }
      assert parts[..j] == parts;
    } else {
      cur := row + [ReplaceAll(piece, "\\|", "|")];
    }
  }

  lemma LineCellsStep(pieces: seq<string>, k: nat)
    requires k < |pieces|
    ensures forall row: seq<string> :: row + LineCells(pieces[..k + 1]) == row + LineCells(pieces[..k]) + PieceCells(pieces[k])
  {
    assert pieces[..k + 1][..k] == pieces[..k];
  }

  /** One more line: the table so far takes one step. */
  lemma TableFromStep(content: seq<string>, i: nat, env: Attributes.Env)
    requires i < |content|
    ensures TableFrom(content[..i], env).Err? ==> TableFrom(content[..i + 1], env) == TableFrom(content[..i], env)
    ensures TableFrom(content[..i], env).Ok? ==>
      TableFrom(content[..i + 1], env) == TableStep(TableFrom(content[..i], env).value, content[i], env)
  {
    assert content[..i + 1][..i] == content[..i];
  }

  /** Adding a row widens the table to that row at most. */
  lemma WidestGrows(rows: seq<seq<string>>, x: seq<string>)
    ensures Widest(rows + [x]) == if |x| > Widest(rows) then |x| else Widest(rows)
  {
    assert (rows + [x])[..|rows|] == rows;
  }

  /** Replacing the last row by one at least as long. */
  lemma WidestLast(rows: seq<seq<string>>, x: seq<string>)
    requires rows != [] && |x| >= |rows[|rows| - 1]|
    ensures Widest(rows[|rows| - 1 := x]) == if |x| > Widest(rows) then |x| else Widest(rows)
  {
    var n := |rows| - 1;
    var ys := rows[n := x];
    assert ys[..n] == rows[..n];
    var w0 := Widest(rows[..n]);
    assert Widest(rows) == if |rows[n]| > w0 then |rows[n]| else w0;
    assert Widest(ys) == if |x| > w0 then |x| else w0;
  }

  // ---------------------------------------------------------- table facts

  /** The number of `|---` lines. */
  function CountRules(lines: seq<string>): nat
  {
    if lines == [] then 0
    else CountRules(lines[..|lines| - 1]) + (if IsRowRule(lines[|lines| - 1]) then 1 else 0)
  }

  /** Every rule opens a row: the table has one row more than it has rules. */
  lemma {:induction false} TableRows(content: seq<string>, env: Attributes.Env)
    requires TableFrom(content, env).Ok?
    ensures |TableFrom(content, env).value.rows| == 1 + CountRules(content)
  {
    if content != [] {
      var n := |content| - 1;
      if TableFrom(content[..n], env).Ok? {
        TableRows(content[..n], env);
      }
    }
  }

  /** What `parseTableSource` promises its caller: one row per rule plus
      one, and as many columns as the widest row has cells (at least one). */
  lemma ParsedShape(content: seq<string>, env: Attributes.Env)
    requires ParseTable(content, env).Ok?
    ensures var t := ParseTable(content, env).value;
      t.nRows == |t.cells| == 1 + CountRules(content) && t.nCols >= 1 &&
      (forall r :: 0 <= r < |t.cells| ==> |t.cells[r]| <= t.nCols) &&
      (t.nCols == 1 || exists r :: 0 <= r < |t.cells| && |t.cells[r]| == t.nCols)
  {
    TableRows(content, env);
  }

  /** A first line that neither starts with `|` nor is a rule is an error:
      there is no cell to continue. */
  lemma FirstLineNeedsBar(content: seq<string>, env: Attributes.Env)
    requires content != [] && !IsRowRule(content[0]) && !(|content[0]| > 0 && content[0][0] == '|')
    ensures ParseTable(content, env).Err?
  {
    TableFromStep(content, 0, env);
    assert content[..0] == [];
    ErrSticks(content, 1, env);
  }

  /** The same holds right after a rule: the new row has no cell yet. */
  lemma LineAfterRuleNeedsBar(content: seq<string>, i: nat, env: Attributes.Env)
    requires 0 < i < |content| && IsRowRule(content[i - 1])
    requires !IsRowRule(content[i]) && !(|content[i]| > 0 && content[i][0] == '|')
    ensures ParseTable(content, env).Err?
  {
    TableFromStep(content, i - 1, env);
    assert content[..i - 1 + 1] == content[..i];
    if TableFrom(content[..i], env).Ok? {
      TableFromStep(content, i, env);
      assert TableFrom(content[..i + 1], env).Err?;
      ErrSticks(content, i + 1, env);
    } else {
      ErrSticks(content, i, env);
    }
  }

  // ----------------------------------------------------- table attributes

  /** The group of `/\{:(.*?)}/` replaced by itself throughout: each `{:`
      that a `}` follows on its line loses its braces, up to the first `}`. */
  function UnwrapBraces(s: string): (r: string)
    decreases |s|
  {
    if s == [] then []
    else if |s| >= 2 && s[0] == '{' && s[1] == ':' then
      match FindChar(TakeLine(s[2..]), '}')
      case Some(j) => s[2..2 + j] + UnwrapBraces(s[3 + j..])
      case None => [s[0]] + UnwrapBraces(s[1..])
    else [s[0]] + UnwrapBraces(s[1..])
  }

  /** Text without `{` is left alone. */
  lemma {:induction false} UnwrapPlain(s: string)
    requires '{' !in s
    ensures UnwrapBraces(s) == s
  {
    if s != [] {
      UnwrapPlain(s[1..]);
    }
  }

  /** `{:a}` is read as `a`. */
  lemma UnwrapOne(a: string)
    requires '}' !in a && '\n' !in a && '{' !in a
    ensures UnwrapBraces("{:" + a + "}") == a
  {
    var s := "{:" + a + "}";
    assert s[2..] == a + "}";
    TakeLineWhole(a + "}");
    FindFirstAfterPrefix(a, '}', "");
    assert a + "}" == a + ['}'] + "";
    assert s[2..2 + |a|] == a;
    assert s[3 + |a|..] == [];
  }

  /** `/class=["\'].*?["\']/` replaced by nothing throughout: a `class=`
      with a quote, up to the next quote of either kind on the line. */
  function StripClassAttrs(s: string): (r: string)
    decreases |s|
  {
    if s == [] then []
    else match ClassAttrEnd(s)
      case Some(e) => StripClassAttrs(s[e..])
      case None => [s[0]] + StripClassAttrs(s[1..])
  }

  /** The end of a class attribute at the head of `s`, if one is there. */
  function ClassAttrEnd(s: string): (r: Option<nat>)
    ensures r.Some? ==> 8 <= r.value <= |s|
  {
    if |s| > 6 && s[..6] == "class=" && IsQuote(s[6]) then QuoteEnd(s, 7) else None
  }

  /** Just past the first quote from `i` on, if the line has one. */
  function QuoteEnd(s: string, i: nat): (r: Option<nat>)
    requires i <= |s|
    ensures r.Some? ==> i < r.value <= |s|
    decreases |s| - i
  {
    if i == |s| || s[i] == '\n' then None
    else if IsQuote(s[i]) then Some(i + 1)
    else QuoteEnd(s, i + 1)
  }

  lemma {:induction false} QuoteEndAt(s: string, i: nat, j: nat)
    requires i <= j < |s| && IsQuote(s[j])
    requires forall k :: i <= k < j ==> !IsQuote(s[k]) && s[k] != '\n'
    ensures QuoteEnd(s, i) == Some(j + 1)
    decreases j - i
  {
    if i < j {
      QuoteEndAt(s, i + 1, j);
    }
  }

  /** Attributes without `=` keep all they have. */
  lemma {:induction false} StripPlain(s: string)
    requires '=' !in s
    ensures StripClassAttrs(s) == s
  {
    if s != [] {
      if |s| > 6 {
        assert s[5] != '=';
        assert s[..6] != "class=";
      }
      assert ClassAttrEnd(s) == None;
      StripPlain(s[1..]);
    }
  }

  /** A quoted class list is dropped. */
  lemma StripOne(c: string, rest: string)
    requires forall k :: 0 <= k < |c| ==> !IsQuote(c[k]) && c[k] != '\n'
    ensures StripClassAttrs("class='" + (c + ("'" + rest))) == StripClassAttrs(rest)
  {
    var s := "class='" + (c + ("'" + rest));
    QuotedClassEnd(c, rest);
    assert s != [];
  }

  /** A quoted class list at the head ends just past its closing quote. */
  lemma QuotedClassEnd(c: string, rest: string)
    requires forall k :: 0 <= k < |c| ==> !IsQuote(c[k]) && c[k] != '\n'
    ensures ClassAttrEnd("class='" + (c + ("'" + rest))) == Some(8 + |c|)
    ensures ("class='" + (c + ("'" + rest)))[8 + |c|..] == rest
  {
    var t := c + ("'" + rest);
    var s := "class='" + t;
    assert s[..6] == "class=";
    assert s[7..] == t;
    forall k | 7 <= k < 7 + |c|
      ensures !IsQuote(s[k]) && s[k] != '\n'
    {
      assert s[k] == t[k - 7] == c[k - 7];
    }
    QuoteEndAt(s, 7, 7 + |c|);
    assert s[8 + |c|..] == rest;
  }

  /** What `prepareTableAttributes` gives back: a caption and the table's
      attributes, or nothing when the table is not to be shown. */
  datatype TableHead = Suppressed | TableHead(caption: string, attrs: string)

  function TableId(inx: nat): string
  {
    "id='mdp-table-" + NatToString(inx) + "' "
  }

  function TableClass(inx: nat): string
  {
    "mdp-table mdp-table-" + NatToString(inx)
  }

  /** `prepareTableAttributes($args)` for table number `inx`. The caption
      is the trimmed arguments with `{: }` wrappers removed. When it is
      truthy it is parsed: tag `skip`, or a language other than the active
      one, suppresses the table (with no active language, reading its code
      fails); otherwise the table is shown with the parsed caption. An
      empty caption keeps its text and gets the default id and class. */
  function TableAttributes(args: string, inx: nat, env: Attributes.Env): Result<TableHead>
  {
    var caption := UnwrapBraces(Trim(args));
    if !Truthy(caption) then Ok(TableHead(caption, TableId(inx) + "class='" + TableClass(inx) + "'"))
    else
      match Attributes.ParseArgs(caption, env)
      case Err(m) => Err(m)
      case Ok(a) =>
        if a.tag == "skip" then Ok(Suppressed)
        else if Truthy(a.lang) && env.language.None? then Err(NoLanguage)
        else if Truthy(a.lang) && a.lang != env.language.value then Ok(Suppressed)
        else Ok(CaptionHead(a, inx))
  }

  /** A shown table with a parsed caption: the caption is the parsed text;
      the parsed class attribute is dropped and the class list is the
      table's own class names followed by the parsed ones; the table's own
      id goes first unless one was given. */
  function CaptionHead(a: Attributes.BlockArgs, inx: nat): TableHead
  {
    var base := StripClassAttrs(a.htmlAttrs);
    var attrs := if Truthy(a.id) then base else TableId(inx) + base;
    TableHead(CaptionHtml(a.text), attrs + ClassAttr(ClassList(a.classes, inx)))
  }

  function CaptionHtml(text: string): string
  {
    "\t  <caption>" + text + "</caption>\n"
  }

  function ClassAttr(cls: string): string
  {
    " class='" + cls + "'"
  }

  function ClassList(classes: string, inx: nat): string
  {
    TableClass(inx) + (if Truthy(classes) then " " + classes else "")
  }

  /** The shown caption's shape: the numbered class names come last,
      followed by the parsed ones, and the numbered id first unless the
      caption named one. */
  lemma CaptionHeadShape(a: Attributes.BlockArgs, inx: nat)
    ensures CaptionHead(a, inx).caption == CaptionHtml(a.text)
    ensures EndsWith(CaptionHead(a, inx).attrs, ClassAttr(ClassList(a.classes, inx)))
    ensures StartsWith(ClassList(a.classes, inx), TableClass(inx))
    ensures !Truthy(a.id) ==> StartsWith(CaptionHead(a, inx).attrs, TableId(inx))
  {
    var base := StripClassAttrs(a.htmlAttrs);
    var attrs := if Truthy(a.id) then base else TableId(inx) + base;
    EndsWithConcat(attrs, ClassAttr(ClassList(a.classes, inx)));
    StartsWithConcat(TableClass(inx), if Truthy(a.classes) then " " + a.classes else "");
    if !Truthy(a.id) {
      StartsWithConcat(TableId(inx), base + ClassAttr(ClassList(a.classes, inx)));
      assert CaptionHead(a, inx).attrs == TableId(inx) + (base + ClassAttr(ClassList(a.classes, inx)));
    }
  }

  const NoLanguage := "Call to a member function code() on null"

  /** A table is suppressed exactly when its caption is truthy and parses
      to tag `skip` or to a language other than the active one. */
  lemma SuppressedIff(args: string, inx: nat, env: Attributes.Env)
    ensures var caption := UnwrapBraces(Trim(args));
      TableAttributes(args, inx, env) == Ok(Suppressed) <==>
        Truthy(caption) && Attributes.ParseArgs(caption, env).Ok? &&
        (Attributes.ParseArgs(caption, env).value.tag == "skip" ||
         (Truthy(Attributes.ParseArgs(caption, env).value.lang) && env.language.Some? &&
          Attributes.ParseArgs(caption, env).value.lang != env.language.value))
  {
  }

  /** A shown table with an empty caption gets the default id and class. */
  lemma PlainTableHead(args: string, inx: nat, env: Attributes.Env)
    requires !Truthy(UnwrapBraces(Trim(args)))
    ensures TableAttributes(args, inx, env) ==
      Ok(TableHead(UnwrapBraces(Trim(args)), TableId(inx) + "class='" + TableClass(inx) + "'"))
  {
  }

  /** A shown table with a truthy caption gets the parsed caption's head. */
  lemma CaptionTableHead(args: string, inx: nat, env: Attributes.Env)
    requires TableAttributes(args, inx, env).Ok? && TableAttributes(args, inx, env).value.TableHead?
    requires Truthy(UnwrapBraces(Trim(args)))
    ensures Attributes.ParseArgs(UnwrapBraces(Trim(args)), env).Ok?
    ensures TableAttributes(args, inx, env).value ==
      CaptionHead(Attributes.ParseArgs(UnwrapBraces(Trim(args)), env).value, inx)
  {
  }
}
