/** Definition lists: a term line followed by one or more lines opening
    with `:`, each such run one `<dt>`/`<dd>` pair, optionally headed by a
    `{: ...}` line holding the attributes of the `<dl>`. */
module DefLists {
  import opened Wrappers
  import opened PhpStrings
  import opened Host
  import Attributes
  import Inject
  import opened DivBlocks

  /** `$lines[$k] ?? ''`. */
  function LineAt(lines: seq<string>, k: nat): string
  {
    if k < |lines| then lines[k] else ""
  }

  /** `$s[0] ?? ' '`: the first character, a space for the empty line. */
  function Lead(s: string): char
  {
    if |s| > 0 then s[0] else ' '
  }

  /** A line that opens with `:`, that is, a definition line. */
  predicate ColonLine(s: string)
  {
    Lead(s) == ':'
  }

  /** `^\{:(.*?)}$` on a line: it opens with `{:` and closes with `}`. */
  predicate AttrLine(l: string)
  {
    |l| >= 3 && l[0] == '{' && l[1] == ':' && l[|l| - 1] == '}'
  }

  /** The group of `^\{:(.*?)}$`: what stands between `{:` and `}`. */
  function AttrText(l: string): (r: string)
    requires AttrLine(l)
    ensures "{:" + r + "}" == l
  {
    var r := l[2..|l| - 1];
    assert l == l[..2] + r + l[|l| - 1..];
    r
  }

  /** `identifyDefinitionList`: the next line opens with `: `, or this
      line is an attribute line and the one after the next opens with
      `: `. As written, a line that is itself a definition line starts a
      list too; corrected, it does not (the consumer could not take it). */
  predicate IdentifyDefinitionList(lines: seq<string>, current: nat, rd: Reading)
    requires current < |lines|
  {
    var byNext := current + 1 < |lines| && StartsWith(lines[current + 1], ": ");
    var byAttrs := AttrLine(lines[current]) && StartsWith(LineAt(lines, current + 2), ": ");
    match rd
    case AsWritten => byNext || byAttrs
    case Corrected => (byNext && !ColonLine(lines[current])) || byAttrs
  }

  /** `substr($line, 1)`: the line without its first character. */
  function Uncolon(l: string): string
  {
    if |l| > 0 then l[1..] else ""
  }

  function Uncolons(xs: seq<string>): (r: seq<string>)
    ensures |r| == |xs| && forall k :: 0 <= k < |xs| ==> r[k] == Uncolon(xs[k])
  {
    seq(|xs|, k requires 0 <= k < |xs| => Uncolon(xs[k]))
  }

  /** A pair of the list. */
  datatype Item = Item(dt: string, dd: string)

  /** A consumed list: its pairs and the text of its attribute line. */
  datatype DlBlock = DlBlock(items: seq<Item>, attrs: string)

  /** The list and the index of its last line, as `consumeDefinitionList`
      returns them (one before where the scan stopped). */
  datatype DlConsumed = DlConsumed(block: DlBlock, last: int)

  /** The definition of a term, from its first `:` line at `i`: the index
      of the last `:` line of the run and the text of the run. */
  datatype DdRun = DdRun(last: nat, dd: string)

  /** The inner loop: the `:` lines that follow line `i`, each without its
      colon, one per line of the definition. */
  function RunFrom(lines: seq<string>, i: nat): (r: DdRun)
    requires i < |lines|
    ensures i <= r.last < |lines|
    decreases |lines| - i
  {
    if i + 1 < |lines| && ColonLine(lines[i + 1]) then
      var rest := RunFrom(lines, i + 1);
      DdRun(rest.last, Uncolon(lines[i]) + "\n" + rest.dd)
    else DdRun(i, Uncolon(lines[i]))
  }

  /** What the run from line `i` still adds to the definition after that
      line. */
  function RunTail(lines: seq<string>, i: nat): string
    requires i < |lines|
  {
    if i + 1 < |lines| && ColonLine(lines[i + 1]) then "\n" + RunFrom(lines, i + 1).dd else ""
  }

  /** Where the scan stopped and the pairs found. */
  datatype DlScan = DlScan(items: seq<Item>, stop: nat)

  /** The outer loop from line `i`, `nEmpty` empty lines seen since the
      last pair: one empty line is passed over, a second ends the list; a
      term line followed by a `:` line adds a pair; any other line ends
      the list. The loop never reads the last line as a term. */
  function ScanFrom(lines: seq<string>, i: nat, nEmpty: nat, items: seq<Item>): DlScan
    requires i <= |lines|
    decreases |lines| - i
  {
    if i + 1 >= |lines| then DlScan(items, i)
    else if !Truthy(lines[i]) then
      if nEmpty < 1 then ScanFrom(lines, i + 1, nEmpty + 1, items) else DlScan(items, i)
    else if lines[i][0] != ':' && ColonLine(lines[i + 1]) then
      var run := RunFrom(lines, i + 1);
      ScanFrom(lines, run.last + 1, 0, items + [Item(lines[i], run.dd)])
    else DlScan(items, i)
  }

  /** `consumeDefinitionList` as a function of the lines. */
  function ConsumeDl(lines: seq<string>, current: nat): DlConsumed
    requires current < |lines|
  {
    var head := AttrLine(lines[current]);
    var attrs := if head then AttrText(lines[current]) else "";
    var s := ScanFrom(lines, if head then current + 1 else current, 0, []);
    DlConsumed(DlBlock(s.items, attrs), s.stop - 1)
  }

  /** A definition is the run of `:` lines that starts at `i`, each
      without its colon, joined by line feeds; the run ends at the end or
      at a line that does not open with `:`. */
  lemma {:induction false} RunShape(lines: seq<string>, i: nat)
    requires i < |lines|
    ensures var r := RunFrom(lines, i);
      (forall k :: i < k <= r.last ==> ColonLine(lines[k])) &&
      (r.last + 1 == |lines| || !ColonLine(lines[r.last + 1])) &&
      r.dd == Join(Uncolons(lines[i..r.last + 1]), "\n")
    decreases |lines| - i
  {
    var r := RunFrom(lines, i);
    if i + 1 < |lines| && ColonLine(lines[i + 1]) {
      RunShape(lines, i + 1);
      var xs := lines[i..r.last + 1];
      assert xs[1..] == lines[i + 1..r.last + 1];
      assert Uncolons(xs)[1..] == Uncolons(xs[1..]);
    } else {
      assert Uncolons(lines[i..i + 1]) == [Uncolon(lines[i])];
    }
  }

  /** Putting the colon back in front of each line of a definition gives
      the `:` lines it was read from. */
  lemma RunRoundTrip(lines: seq<string>, i: nat)
    requires i < |lines| && ColonLine(lines[i])
    requires forall k :: i <= k < |lines| ==> '\n' !in lines[k]
    ensures var r := RunFrom(lines, i);
      var parts := Split(r.dd, '\n');
      |parts| == r.last + 1 - i &&
      forall k :: 0 <= k < |parts| ==> ":" + parts[k] == lines[i + k]
  {
    var r := RunFrom(lines, i);
    var xs := RunLines(lines, i);
    UncolonsBack(xs);
    var parts := Split(r.dd, '\n');
    forall k | 0 <= k < |parts|
      ensures ":" + parts[k] == lines[i + k]
    {
      assert ":" + parts[k] == xs[k];
    }
  }

  /** The lines of the run from `i`: `:` lines without line feeds, whose
      joined remainders are the definition. */
  lemma RunLines(lines: seq<string>, i: nat) returns (xs: seq<string>)
    requires i < |lines| && ColonLine(lines[i])
    requires forall k :: i <= k < |lines| ==> '\n' !in lines[k]
    ensures var r := RunFrom(lines, i);
      |xs| == r.last + 1 - i && |xs| >= 1 && RunFrom(lines, i).dd == Join(Uncolons(xs), "\n") &&
      forall k :: 0 <= k < |xs| ==> xs[k] == lines[i + k] && ColonLine(xs[k]) && '\n' !in xs[k]
  {
    var r := RunFrom(lines, i);
    RunShape(lines, i);
    xs := lines[i..r.last + 1];
    forall k | 0 <= k < |xs|
      ensures xs[k] == lines[i + k] && ColonLine(xs[k]) && '\n' !in xs[k]
    {
      assert xs[k] == lines[i + k];
    }
  }

  /** Splitting the joined definition at line feeds and putting each
      colon back gives the `:` lines, none of which holds a line feed. */
  lemma UncolonsBack(xs: seq<string>)
    requires |xs| >= 1
    requires forall k :: 0 <= k < |xs| ==> ColonLine(xs[k]) && '\n' !in xs[k]
    ensures var parts := Split(Join(Uncolons(xs), "\n"), '\n');
      |parts| == |xs| && forall k :: 0 <= k < |parts| ==> ":" + parts[k] == xs[k]
  {
    var us := Uncolons(xs);
    forall k | 0 <= k < |xs|
      ensures '\n' !in us[k] && ":" + us[k] == xs[k]
    {
      UncolonBack(xs[k]);
    }
    SplitJoin(us, '\n');
  }

  lemma UncolonBack(x: string)
    requires ColonLine(x) && '\n' !in x
    ensures '\n' !in Uncolon(x) && ":" + Uncolon(x) == x
  {
    assert x == [x[0]] + x[1..];
    assert forall c :: c in x[1..] ==> c in x;
  }

  /** The scan stops between `i` and the end, keeps the pairs it was
      given, and every pair it adds has a term that is a non-empty line
      not opening with `:`. */
  lemma {:induction false} ScanShape(lines: seq<string>, i: nat, nEmpty: nat, items: seq<Item>)
    requires i <= |lines|
    ensures var s := ScanFrom(lines, i, nEmpty, items);
      i <= s.stop <= |lines| && |items| <= |s.items| && s.items[..|items|] == items &&
      forall n :: |items| <= n < |s.items| ==> Truthy(s.items[n].dt) && !ColonLine(s.items[n].dt)
    decreases |lines| - i
  {
    if i + 1 < |lines| {
      if !Truthy(lines[i]) {
        if nEmpty < 1 {
          ScanShape(lines, i + 1, nEmpty + 1, items);
        }
      } else if lines[i][0] != ':' && ColonLine(lines[i + 1]) {
        var run := RunFrom(lines, i + 1);
        var items' := items + [Item(lines[i], run.dd)];
        ScanShape(lines, run.last + 1, 0, items');
        var s := ScanFrom(lines, run.last + 1, 0, items');
        assert s.items[..|items|] == s.items[..|items'|][..|items|];
      }
    }
  }

  /** A scan that does not stop at once reaches past its first line. */
  lemma ScanMoves(lines: seq<string>, i: nat)
    requires i + 1 < |lines|
    requires !Truthy(lines[i]) || (lines[i][0] != ':' && ColonLine(lines[i + 1]))
    ensures i < ScanFrom(lines, i, 0, []).stop
  {
    if !Truthy(lines[i]) {
      ScanShape(lines, i + 1, 1, []);
    } else {
      var run := RunFrom(lines, i + 1);
      assert [] + [Item(lines[i], run.dd)] == [Item(lines[i], run.dd)];
      ScanShape(lines, run.last + 1, 0, [Item(lines[i], run.dd)]);
    }
  }

  /** With the corrected test, a list that is identified takes at least
      its first line, and never more lines than there are. */
  lemma ConsumeProgress(lines: seq<string>, current: nat)
    requires current < |lines| && IdentifyDefinitionList(lines, current, Corrected)
    ensures current <= ConsumeDl(lines, current).last < |lines|
  {
    if AttrLine(lines[current]) {
      ScanShape(lines, current + 1, 0, []);
    } else {
      ScanShape(lines, current, 0, []);
      assert lines[current + 1][0] == lines[current + 1][..2][0];
      ScanMoves(lines, current);
    }
  }

  /** As written, every line the corrected test refuses but the original
      accepts leaves the list without a line: the consumer reports the
      line before the current one as its last. */
  lemma StallAsWritten(lines: seq<string>, current: nat)
    requires current < |lines|
    requires IdentifyDefinitionList(lines, current, AsWritten) && !IdentifyDefinitionList(lines, current, Corrected)
    ensures ConsumeDl(lines, current) == DlConsumed(DlBlock([], ""), current - 1)
  {
    assert !AttrLine(lines[current]);
  }

  /** The smallest such input: `:a` followed by `: b`. */
  lemma StallExample()
    ensures IdentifyDefinitionList([":a", ": b"], 0, AsWritten)
    ensures !IdentifyDefinitionList([":a", ": b"], 0, Corrected)
    ensures ConsumeDl([":a", ": b"], 0).last == -1
  {
    var lines := [":a", ": b"];
    assert lines[1][..2] == ": ";
    StallAsWritten(lines, 0);
  }

  /** `consumeDefinitionList`: the attribute line if there is one, then
      the pairs, until a second empty line or a line that is not a term. */
  method ConsumeDefinitionList(lines: seq<string>, current: nat) returns (block: DlBlock, last: int)
    requires current < |lines|
    ensures DlConsumed(block, last) == ConsumeDl(lines, current)
  {
    var attrs := "";
    var start := current;
    if AttrLine(lines[current]) {
      attrs := AttrText(lines[current]);
      start := current + 1;
    }
    var items, stop := ScanItems(lines, start);
    block := DlBlock(items, attrs);
    last := stop as int - 1;
  }

  /** The outer loop of `consumeDefinitionList`. */
  method ScanItems(lines: seq<string>, start: nat) returns (items: seq<Item>, stop: nat)
    requires start <= |lines|
    ensures DlScan(items, stop) == ScanFrom(lines, start, 0, [])
  {
    items := [];
    var nEmpty := 0;
    var i := start;
    while i + 1 < |lines|
      invariant start <= i <= |lines|
      invariant ScanFrom(lines, i, nEmpty, items) == ScanFrom(lines, start, 0, [])
      decreases |lines| - i
    {
      if !Truthy(lines[i]) {
        if nEmpty < 1 {
          nEmpty := nEmpty + 1;
          i := i + 1;
          continue;
        }
        break;
      }
      if lines[i][0] != ':' && Lead(lines[i + 1]) == ':' {
        var dt := lines[i];
        var last, dd := ReadDefinition(lines, i + 1);
        items := items + [Item(dt, dd)];
        nEmpty := 0;
        i := last + 1;
      } else {
        break;
      }
    }
    stop := i;
  }

  /** One more `:` line: the tail from line `i` is that line's text and
      the tail after it, and the run ends at the same line. */
  lemma RunStep(lines: seq<string>, i: nat)
    requires i + 1 < |lines| && ColonLine(lines[i + 1])
    ensures RunTail(lines, i) == "\n" + Uncolon(lines[i + 1]) + RunTail(lines, i + 1)
    ensures RunFrom(lines, i).last == RunFrom(lines, i + 1).last
  {
  }

  lemma Append3(a: string, b: string, c: string, d: string)
    ensures (a + b + c) + d == a + (b + c + d)
  {
  }

  /** The inner loop of `consumeDefinitionList`: the definition that
      starts at line `first`, and its last line. */
  method ReadDefinition(lines: seq<string>, first: nat) returns (last: nat, dd: string)
    requires first < |lines|
    ensures DdRun(last, dd) == RunFrom(lines, first)
  {
    var i := first;
    dd := Uncolon(lines[i]);
    while i + 1 < |lines| && Lead(lines[i + 1]) == ':'
      invariant first <= i < |lines|
      invariant dd + RunTail(lines, i) == RunFrom(lines, first).dd
      invariant RunFrom(lines, i).last == RunFrom(lines, first).last
      decreases |lines| - i
    {
      RunStep(lines, i);
      ghost var u, t := Uncolon(lines[i + 1]), RunTail(lines, i + 1);
      Append3(dd, "\n", u, t);
      i := i + 1;
      dd := dd + "\n" + Uncolon(lines[i]);
    }
    last := i;
  }

  // ---------------------------------------------------------------- render

  /** The term, compiled as a paragraph without its `<p>` and trimmed. */
  function DtHtml(it: Item, e: Engine): string
  {
    "\t<dt>" + Trim(e.paragraph(it.dt, true)) + "</dt>\n"
  }

  /** The definition, compiled as block text. */
  function DdHtml(it: Item, e: Engine): string
  {
    "\t<dd>\n" + e.compile(it.dd, false) + "\t</dd>\n\n"
  }

  /** Each pair as written: its term, then its definition. */
  function Pieces(items: seq<Item>, e: Engine): (r: seq<string>)
    ensures |r| == |items| && forall k :: 0 <= k < |items| ==> r[k] == DtHtml(items[k], e) + DdHtml(items[k], e)
  {
    seq(|items|, k requires 0 <= k < |items| => DtHtml(items[k], e) + DdHtml(items[k], e))
  }

  /** The first `n` texts of `ps`, one after the other. */
  function Cat(ps: seq<string>, n: nat): string
    requires n <= |ps|
  {
    if n == 0 then "" else Cat(ps, n - 1) + ps[n - 1]
  }

  /** The first `n` pairs, in order. */
  function ItemsHtml(items: seq<Item>, n: nat, e: Engine): string
    requires n <= |items|
  {
    Cat(Pieces(items, e), n)
  }

  /** The attributes of the `<dl>`: none without an attribute line. */
  function DlAttrs(attrs: string, parse: string -> Result<Attributes.BlockArgs>): Result<string>
  {
    if !Truthy(attrs) then Ok("")
    else
      match parse(attrs)
      case Err(m) => Err(m)
      case Ok(a) => Ok(a.htmlAttrs)
  }

  /** `renderDefinitionList`: the pairs, with their `{: ...}` instructions
      applied, inside a `<dl>` that carries the list's attributes. */
  function DlHtml(b: DlBlock, e: Engine, paragraph: bool, parse: string -> Result<Attributes.BlockArgs>): Result<string>
  {
    match DlAttrs(b.attrs, parse)
    case Err(m) => Err(m)
    case Ok(attrs) =>
      match Inject.CatchInject(ItemsHtml(b.items, |b.items|, e), paragraph, parse, AsWritten)
      case Err(m) => Err(m)
      case Ok(out) => Ok(DlWrap(attrs, out))
  }

  /** The `<dl>` element around the pairs, on lines of its own. */
  function DlWrap(attrs: string, out: string): string
  {
    "\n<dl" + attrs + ">\n" + out + "</dl>\n\n"
  }

  /** The element opens with its tag and closes with its end tag. */
  lemma DlWrapFrame(attrs: string, out: string)
    ensures StartsWith(DlWrap(attrs, out), "\n<dl") && EndsWith(DlWrap(attrs, out), "</dl>\n\n")
  {
    var w := DlWrap(attrs, out);
    assert w == "\n<dl" + (attrs + ">\n" + out + "</dl>\n\n");
    assert w == ("\n<dl" + attrs + ">\n" + out) + "</dl>\n\n";
  }

  /** Every text is written, in order, after the texts before it. */
  lemma {:induction false} CatInOrder(ps: seq<string>, n: nat, k: nat) returns (after: string)
    requires k < n <= |ps|
    ensures Cat(ps, n) == Cat(ps, k) + ps[k] + after
    decreases n
  {
    if k == n - 1 {
      after := "";
    } else {
      var a := CatInOrder(ps, n - 1, k);
      after := a + ps[n - 1];
    }
  }

  /** Every pair is written, in order: its term, then its definition,
      after the pairs before it. */
  lemma ItemsInOrder(items: seq<Item>, n: nat, e: Engine, k: nat) returns (after: string)
    requires k < n <= |items|
    ensures ItemsHtml(items, n, e) == ItemsHtml(items, k, e) + (DtHtml(items[k], e) + DdHtml(items[k], e)) + after
  {
    after := CatInOrder(Pieces(items, e), n, k);
  }

  /** A rendered list is a `<dl>` element on its own lines; it fails only
      when its attributes or an instruction in its pairs fail to parse. */
  lemma DlFrame(b: DlBlock, e: Engine, paragraph: bool, parse: string -> Result<Attributes.BlockArgs>)
    ensures var r := DlHtml(b, e, paragraph, parse);
      r.Ok? ==> StartsWith(r.value, "\n<dl") && EndsWith(r.value, "</dl>\n\n")
    ensures DlAttrs(b.attrs, parse).Err? ==> DlHtml(b, e, paragraph, parse) == Err(DlAttrs(b.attrs, parse).msg)
  {
    var r := DlHtml(b, e, paragraph, parse);
    if r.Ok? {
      var attrs := DlAttrs(b.attrs, parse).value;
      var out := Inject.CatchInject(ItemsHtml(b.items, |b.items|, e), paragraph, parse, AsWritten).value;
      DlWrapFrame(attrs, out);
    }
  }

  /** Without an attribute line and without instructions in the pairs,
      the list is the pairs as written inside a bare `<dl>`. */
  lemma PlainDl(b: DlBlock, e: Engine, paragraph: bool, parse: string -> Result<Attributes.BlockArgs>)
    requires !Truthy(b.attrs)
    requires forall i :: !OccursAt(ItemsHtml(b.items, |b.items|, e), "{:", i)
    ensures DlHtml(b, e, paragraph, parse) == Ok("\n<dl>\n" + ItemsHtml(b.items, |b.items|, e) + "</dl>\n\n")
  {
    var body := ItemsHtml(b.items, |b.items|, e);
    Inject.NoMarkersUnchanged(body, paragraph, parse, AsWritten);
    assert DlWrap("", body) == "\n<dl>\n" + body + "</dl>\n\n";
  }

  /** The loop of `renderDefinitionList`: the pairs in order. */
  method RenderItems(items: seq<Item>, e: Engine) returns (out: string)
    ensures out == ItemsHtml(items, |items|, e)
  {
    out := "";
    for n := 0 to |items|
      invariant out == ItemsHtml(items, n, e)
    {
      var it := items[n];
      var dt := Trim(e.paragraph(it.dt, true));
      out := out + ("\t<dt>" + dt + "</dt>\n");
      var dd := e.compile(it.dd, false);
      out := out + ("\t<dd>\n" + dd + "\t</dd>\n\n");
    }
  }

  /** `renderDefinitionList`, reading attributes with
      `parseInlineBlockArguments`; `paragraph` is the compiler's paragraph
      context, which instruction injection reads. */
  method RenderDefinitionList(block: DlBlock, e: Engine, paragraph: bool, env: Attributes.Env) returns (r: Result<string>)
    ensures r == DlHtml(block, e, paragraph, Inject.Parser(env))
  {
    var attrsStr := "";
    if Truthy(block.attrs) {
      var a := Attributes.ParseInlineBlockArguments(block.attrs, env);
      if a.Err? {
        return Err(a.msg);
      }
      attrsStr := a.value.htmlAttrs;
    }
    var out := RenderItems(block.items, e);
    var inj := Inject.CatchAndInjectTagAttributes(out, paragraph, env);
    if inj.Err? {
      return Err(inj.msg);
    }
    r := Ok("\n<dl" + attrsStr + ">\n" + inj.value + "</dl>\n\n");
  }
}
