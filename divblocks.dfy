/** DivBlocks: a fence of three to ten marker characters (from the
    compiler's `divblockChars`, `@` and `%` by default) followed by block
    arguments opens a block that a fence of the same length closes. An
    mdp-style block (arguments written plainly) ends at the next fence of its
    length; a block whose arguments are written in braces nests, so fences
    with text open inner blocks and bare fences close them. The content is
    shielded: literally, as markdown, or compiled at once when the block is
    inline, with the DivBlocks embedded in it expanded first. */
module DivBlocks {
  import opened Wrappers
  import opened PhpStrings
  import opened Host
  import opened TagLists
  import Attributes
  import Shield
  import Base64

  // ---- recognising fences ------------------------------------------------

  /** The test "is the marker `m`". */
  function IsMarker(m: char): char -> bool
  {
    c => c == m
  }

  /** What the greedy `M{3,10}` takes at `i`: the run of markers there,
      capped at ten. */
  function MarkerRun(s: string, i: nat, m: char): (n: nat)
    requires i <= |s|
    ensures n <= 10 && i + n <= |s|
    ensures forall k :: i <= k < i + n ==> s[k] == m
    ensures n < 10 ==> i + n == |s| || s[i + n] != m
  {
    var n := Span(s, i, IsMarker(m));
    if n > 10 then 10 else n
  }

  /** `/^M{3,10}\s+\S/` with the marker `m` read literally. */
  predicate OpensWith(line: string, m: char)
  {
    exists k :: 3 <= k <= 10 && k < |line| && (forall j :: 0 <= j < k ==> line[j] == m) &&
      IsSpace(line[k]) && k + Span(line, k, IsSpace) < |line|
  }

  /** `identifyDivBlock`: the first character (a space for an empty line)
      is a fence character, and the line opens with three to ten of it,
      spaces and then more text. */
  predicate IdentifyDivBlock(line: string, chars: string)
  {
    var m := if line == [] then ' ' else line[0];
    m in chars && OpensWith(line, m)
  }

  /** For a marker that is not a space, the fence is the whole run of
      markers: a line opens a DivBlock exactly when that run has three to
      ten markers and is followed by spaces and then more text. */
  lemma IdentifyByRun(line: string, chars: string)
    requires line != [] && !IsSpace(line[0])
    ensures var n := Span(line, 0, IsMarker(line[0]));
      IdentifyDivBlock(line, chars) <==>
      line[0] in chars && 3 <= n <= 10 && n < |line| && IsSpace(line[n]) && n + Span(line, n, IsSpace) < |line|
  {
    var m := line[0];
    var n := Span(line, 0, IsMarker(m));
    if OpensWith(line, m) {
      var k :| 3 <= k <= 10 && k < |line| && (forall j :: 0 <= j < k ==> line[j] == m) &&
        IsSpace(line[k]) && k + Span(line, k, IsSpace) < |line|;
      SpanIs(line, 0, k, IsMarker(m));
    }
  }

  // ---- the opening line --------------------------------------------------

  /** An opening fence: its length, the argument text after it, and whether
      the block is mdp-style (arguments not written in braces). */
  datatype Opening = Opening(len: nat, args: string, mdp: bool)

  /** The first position at or after `i` where three markers `m` begin:
      where the unanchored `(M{3,10})` matches. */
  function TripleFrom(s: string, m: char, i: nat): (r: Option<nat>)
    ensures r.Some? ==> i <= r.value && r.value + 3 <= |s| && s[r.value] == m && s[r.value + 1] == m && s[r.value + 2] == m
    ensures r.Some? ==> forall j :: i <= j < r.value ==> !(s[j] == m && s[j + 1] == m && s[j + 2] == m)
    ensures r.None? ==> forall j :: i <= j && j + 3 <= |s| ==> !(s[j] == m && s[j + 1] == m && s[j + 2] == m)
    decreases |s| - i
  {
    if i + 3 > |s| then None
    else if s[i] == m && s[i + 1] == m && s[i + 2] == m then Some(i)
    else TripleFrom(s, m, i + 1)
  }

  /** The fence of the opening line `/(M{3,10})(.*)/`: the first run of
      at least three markers; the trimmed rest of the line holds the
      arguments, and when it starts with `{` the block nests and every
      brace is dropped from the arguments. */
  function OpeningOf(line: string, m: char): Option<Opening>
  {
    match TripleFrom(line, m, 0)
    case None => None
    case Some(p) =>
      var len := MarkerRun(line, p, m);
      var rest := Trim(TakeLine(line[p + len..]));
      if Truthy(rest) && rest[0] == '{' then
        Some(Opening(len, Trim(ReplaceAll(ReplaceAll(rest, "{", ""), "}", "")), false))
      else Some(Opening(len, rest, true))
  }

  /** A line with three markers has an opening fence, the run of markers
      found first. */
  lemma OpeningLen(line: string, m: char, p: nat)
    requires TripleFrom(line, m, 0) == Some(p)
    ensures OpeningOf(line, m).Some? && OpeningOf(line, m).value.len == MarkerRun(line, p, m)
  {
  }

  /** `rtrim` keeps every character up to the last one it does not trim. */
  lemma RTrimKeeps(line: string, k: nat)
    requires k < |line| && !IsTrimChar(line[k])
    ensures |RTrim(line)| > k && RTrim(line) == line[..|RTrim(line)|]
  {
  }

  /** A leading run of `k` markers that `rtrim` cannot remove survives it. */
  lemma TrimmedFence(line: string, m: char, k: nat)
    requires 3 <= k < |line| && (forall j :: 0 <= j < k ==> line[j] == m)
    requires !IsTrimChar(m) && line[k] != m
    ensures RTrim(line) != [] && TripleFrom(RTrim(line), m, 0) == Some(0)
    ensures Span(RTrim(line), 0, IsMarker(m)) == k
  {
    RTrimKeeps(line, k - 1);
    var t := RTrim(line);
    assert t[0] == m && t[1] == m && t[2] == m;
    assert forall j :: 0 <= j < k ==> t[j] == m;
    assert |t| == k || t[k] == line[k];
    SpanIs(t, 0, k, IsMarker(m));
  }

  /** An identified line whose marker is neither a space nor trimmed has an
      opening fence, and it is the line's whole leading run of markers. */
  lemma IdentifiedOpens(line: string, chars: string)
    requires IdentifyDivBlock(line, chars)
    requires line != [] && !IsSpace(line[0]) && !IsTrimChar(line[0])
    ensures RTrim(line) != []
    ensures var o := OpeningOf(RTrim(line), line[0]);
      o.Some? && o.value.len == Span(line, 0, IsMarker(line[0]))
  {
    var m := line[0];
    var k :| 3 <= k <= 10 && k < |line| && (forall j :: 0 <= j < k ==> line[j] == m) &&
      IsSpace(line[k]) && k + Span(line, k, IsSpace) < |line|;
    assert line[k] != m;
    TrimmedFence(line, m, k);
    SpanIs(line, 0, k, IsMarker(m));
    OpeningLen(RTrim(line), m, 0);
  }

  // ---- scanning to the closing fence ------------------------------------

  /** A fence line inside a block: `/^(M{3,10})\s*(.*)/`, the length of its
      fence and the text after it and the spaces that follow. */
  datatype FenceHit = FenceHit(len: nat, rest: string)

  function FenceAt(line: string, m: char): Option<FenceHit>
  {
    var len := MarkerRun(line, 0, m);
    if len < 3 then None
    else Some(FenceHit(len, TakeLine(line[len + Span(line, len, IsSpace)..])))
  }

  /** How a line reads inside a block: a fence of the block's length with
      text after it nests a block (or, mdp-style, starts the next one), a
      bare one closes, any other line is text. */
  datatype LineKind = Text | Nests | Closes

  function LineKindOf(line: string, m: char, len: nat): LineKind
  {
    match FenceAt(line, m)
    case None => Text
    case Some(h) => if h.len != len then Text else if h.rest != "" then Nests else Closes
  }

  /** The reading of lines inside a block with marker `m` and fence length
      `len`. */
  function Classifier(m: char, len: nat): string -> LineKind
  {
    line => LineKindOf(line, m, len)
  }

  /** The text collected from the lines and the index of the last line
      consumed. */
  datatype Scan = Scan(content: string, last: nat)

  /** The loop of `consumeDivBlock` from line `i` on, with the nesting
      depth and the content so far, lines read by `kind`: a nesting line
      starts the next block (mdp-style, which gives the line back) or nests
      one more level; a closing one closes a level and, at the last level,
      the block; every other line is collected. */
  function ScanFrom(lines: seq<string>, i: nat, kind: string -> LineKind, mdp: bool, depth: int, content: string): Scan
    requires 1 <= i <= |lines|
    decreases |lines| - i
  {
    if i == |lines| then Scan(content, i)
    else
      var line := lines[i];
      match kind(line)
      case Nests =>
        if mdp then Scan(content, i - 1)
        else ScanFrom(lines, i + 1, kind, mdp, depth + 1, content + (line + "\n"))
      case Closes =>
        if depth - 1 < 1 then Scan(content, i)
        else ScanFrom(lines, i + 1, kind, mdp, depth - 1, content + (line + "\n"))
      case Text => ScanFrom(lines, i + 1, kind, mdp, depth, content + (line + "\n"))
  }

  /** Lines, each followed by a line feed. */
  function Lines(ls: seq<string>): string
  {
    if ls == [] then "" else ls[0] + "\n" + Lines(ls[1..])
  }

  lemma LinesStep(lines: seq<string>, i: nat, j: nat)
    requires i < j <= |lines|
    ensures Lines(lines[i..j]) == lines[i] + "\n" + Lines(lines[i + 1..j])
  {
    assert lines[i..j][1..] == lines[i + 1..j];
  }

  /** The first fence line at or after line `i`, or the number of lines
      when there is none. */
  function FirstFence(lines: seq<string>, i: nat, kind: string -> LineKind): (j: nat)
    requires i <= |lines|
    ensures i <= j <= |lines|
    ensures j < |lines| ==> kind(lines[j]) != Text
    ensures forall k :: i <= k < j ==> kind(lines[k]) == Text
    decreases |lines| - i
  {
    if i == |lines| || kind(lines[i]) != Text then i else FirstFence(lines, i + 1, kind)
  }

  /** A text line is collected and changes nothing else. */
  lemma TextStep(lines: seq<string>, i: nat, kind: string -> LineKind, mdp: bool, depth: int, content: string)
    requires 1 <= i < |lines| && kind(lines[i]) == Text
    ensures ScanFrom(lines, i, kind, mdp, depth, content) ==
            ScanFrom(lines, i + 1, kind, mdp, depth, content + (lines[i] + "\n"))
  {
  }

  /** An mdp-style block collects the lines up to its first fence: a bare
      one closes the block and is consumed, one with text is left to open
      the next block. */
  lemma {:induction false} MdpScan(lines: seq<string>, i: nat, kind: string -> LineKind, depth: int, content: string)
    requires 1 <= i <= |lines| && depth <= 1
    ensures var r := ScanFrom(lines, i, kind, true, depth, content);
      var j := FirstFence(lines, i, kind);
      r.content == content + Lines(lines[i..j]) &&
      r.last == if j < |lines| && kind(lines[j]) == Nests then j - 1 else j
    decreases |lines| - i
  {
    if i < |lines| && kind(lines[i]) == Text {
      var line := lines[i];
      TextStep(lines, i, kind, true, depth, content);
      MdpScan(lines, i + 1, kind, depth, content + (line + "\n"));
      LinesStep(lines, i, FirstFence(lines, i, kind));
    }
  }

  /** A line's effect on the nesting of a brace block. */
  function Delta(k: LineKind): int
  {
    match k
    case Text => 0
    case Nests => 1
    case Closes => -1
  }

  /** The nesting change over lines `i` up to `j`. */
  function Nesting(lines: seq<string>, i: nat, j: nat, kind: string -> LineKind): int
    requires i <= j <= |lines|
    decreases j - i
  {
    if i == j then 0 else Delta(kind(lines[i])) + Nesting(lines, i + 1, j, kind)
  }

  /** A bare fence at the block's own level ends the scan of a brace block. */
  lemma BraceClose(lines: seq<string>, i: nat, kind: string -> LineKind, depth: int, content: string)
    requires 1 <= i < |lines| && kind(lines[i]) == Closes && depth - 1 < 1
    ensures ScanFrom(lines, i, kind, false, depth, content) == Scan(content, i)
  {
  }

  /** Any other line of a brace block is collected and changes the depth by
      its nesting effect. */
  lemma BraceStep(lines: seq<string>, i: nat, kind: string -> LineKind, depth: int, content: string)
    requires 1 <= i < |lines| && !(kind(lines[i]) == Closes && depth - 1 < 1)
    ensures ScanFrom(lines, i, kind, false, depth, content) ==
            ScanFrom(lines, i + 1, kind, false, depth + Delta(kind(lines[i])), content + (lines[i] + "\n"))
  {
  }

  /** A brace block stays open while the nesting stays positive, closes on
      the bare fence that brings it back to the block's own level, and
      collects every line before that fence, inner fences included. */
  lemma {:induction false} BraceScan(lines: seq<string>, i: nat, kind: string -> LineKind, depth: int, content: string)
    requires 1 <= i <= |lines| && depth >= 1
    ensures var r := ScanFrom(lines, i, kind, false, depth, content);
      i <= r.last <= |lines| &&
      r.content == content + Lines(lines[i..r.last]) &&
      (forall k :: i <= k <= r.last ==> depth + Nesting(lines, i, k, kind) >= 1) &&
      (r.last < |lines| ==> kind(lines[r.last]) == Closes && depth + Nesting(lines, i, r.last, kind) == 1)
    decreases |lines| - i
  {
    assert Nesting(lines, i, i, kind) == 0;
    if i < |lines| {
      var line := lines[i];
      if kind(line) == Closes && depth - 1 < 1 {
        BraceClose(lines, i, kind, depth, content);
      } else {
        var d := depth + Delta(kind(line));
        var c := content + (line + "\n");
        BraceStep(lines, i, kind, depth, content);
        BraceScan(lines, i + 1, kind, d, c);
        var r := ScanFrom(lines, i + 1, kind, false, d, c);
        LinesStep(lines, i, r.last);
        assert content + Lines(lines[i..r.last]) == c + Lines(lines[i + 1..r.last]);
        forall k | i < k <= r.last
          ensures depth + Nesting(lines, i, k, kind) >= 1
        {
          assert Nesting(lines, i, k, kind) == Delta(kind(line)) + Nesting(lines, i + 1, k, kind);
        }
        if r.last < |lines| {
          assert Nesting(lines, i, r.last, kind) == Delta(kind(line)) + Nesting(lines, i + 1, r.last, kind);
        }
      }
    }
  }

  // ---- the consumed block ------------------------------------------------

  /** A consumed DivBlock: its marker, tag, attribute text, language,
      whether its content is kept literally, its meta text, whether it is
      an inline element, and its shielded content. */
  datatype DivBlock = DivBlock(marker: char, tag: string, attributes: string, lang: string,
                               literal: bool, meta: string, inline: bool, content: string)

  /** The block and the index of the last line it consumed. */
  datatype Consumed = Consumed(block: DivBlock, last: nat)

  /** The shield around a block's collected text: a literal block is kept
      as it is, an inline one is compiled at once as a paragraph after its
      embedded blocks are expanded, any other is left to be compiled as
      markdown. */
  function ShieldContent(content: string, literal: bool, inline: bool, chars: string,
                         env: Attributes.Env, e: Engine): Result<string>
  {
    if literal then Ok(Shield.ShieldStr(Base64.ToBytes(content), "block"))
    else if inline then
      match Embedded(content, chars, env, e)
      case Err(msg) => Err(msg)
      case Ok(x) => Ok(Shield.ShieldStr(Base64.ToBytes(e.paragraph(x, true)), "inline"))
    else Ok(Shield.ShieldStr(Base64.ToBytes(content), "md"))
  }

  /** The block once its arguments `a` are read and the scan has collected
      its text: literal when its arguments say so or its tag is an inline
      element, inline when its tag is one. */
  function Assemble(m: char, a: Attributes.BlockArgs, s: Scan, chars: string, env: Attributes.Env, e: Engine)
    : Result<Consumed>
  {
    var inlineTag := IsInlineTag(a.tag);
    var literal := a.literal || inlineTag;
    match ShieldContent(s.content, literal, a.inline || inlineTag, chars, env, e)
    case Err(msg) => Err(msg)
    case Ok(c) => Ok(Consumed(DivBlock(m, a.tag, a.htmlAttrs, a.lang, literal, "", inlineTag, c), s.last))
  }

  /** `consumeDivBlock` from line `current`: the opening fence and its
      arguments, then the lines up to the closing fence; a line without a
      fence is an error naming the line. */
  function ConsumeDiv(lines: seq<string>, current: nat, chars: string, env: Attributes.Env, e: Engine)
    : Result<Consumed>
    requires current < |lines| && RTrim(lines[current]) != []
  {
    var line := RTrim(lines[current]);
    var m := line[0];
    match OpeningOf(line, m)
    case None => Err("Error in Markdown source line " + NatToString(current) + ": " + line)
    case Some(o) =>
      match Attributes.ParseArgs(o.args, env)
      case Err(msg) => Err(msg)
      case Ok(a) =>
        Assemble(m, a, ScanFrom(lines, current + 1, Classifier(m, o.len), o.mdp, if o.mdp then 0 else 1, a.text + "\n"),
                 chars, env, e)
  }

  /** What an assembled block holds: the fields its arguments give, and a
      content that restores to the collected text: as it is for a literal
      block, through the markdown compiler for a block that is neither
      literal nor inline. */
  lemma AssembledBlock(m: char, a: Attributes.BlockArgs, s: Scan, chars: string, env: Attributes.Env, e: Engine,
                       compile: string -> string)
    requires Assemble(m, a, s, chars, env, e).Ok?
    ensures var r := Assemble(m, a, s, chars, env, e).value;
      var b := r.block;
      var text := Base64.ToBytes(s.content);
      r.last == s.last && b.marker == m &&
      b.tag == a.tag && b.attributes == a.htmlAttrs && b.lang == a.lang && b.meta == "" &&
      b.inline == IsInlineTag(a.tag) && (b.literal <==> a.literal || IsInlineTag(a.tag)) &&
      (b.literal && (forall i :: !OccursAt(text, "<span md>", i)) ==>
        Shield.UnshieldStr(b.content, true, compile) == text) &&
      (!b.literal && !a.inline && !b.inline ==> Shield.UnshieldStr(b.content, true, compile) == compile(text))
  {
    var text := Base64.ToBytes(s.content);
    if a.literal || IsInlineTag(a.tag) {
      if forall i :: !OccursAt(text, "<span md>", i) {
        Shield.LiteralRoundTrip(text, "block", compile);
      }
    } else if !a.inline {
      Shield.MdAlwaysCompiled(text, true, compile);
    }
  }

  /** A consumed block comes from the line's opening fence and arguments and
      the scan that follows it, read with the fence's marker and length;
      consuming fails exactly when the line has no fence, its arguments
      fail, or an inline block's embedded blocks fail. */
  lemma ConsumeParts(lines: seq<string>, current: nat, chars: string, env: Attributes.Env, e: Engine)
    requires current < |lines| && RTrim(lines[current]) != []
    ensures var line := RTrim(lines[current]);
      var o := OpeningOf(line, line[0]);
      ConsumeDiv(lines, current, chars, env, e).Err? <==>
        o.None? || Attributes.ParseArgs(o.value.args, env).Err? ||
        Assemble(line[0], Attributes.ParseArgs(o.value.args, env).value,
                 ScanFrom(lines, current + 1, Classifier(line[0], o.value.len), o.value.mdp,
                          if o.value.mdp then 0 else 1, Attributes.ParseArgs(o.value.args, env).value.text + "\n"),
                 chars, env, e).Err?
  {
  }

  // ---- blocks embedded in an inline block --------------------------------

  /** How a line opening an embedded block is read: as written, the fence
      is the text after the markers and the closing tag is chosen by the
      substring test; corrected, the fence is the markers themselves and
      the closing tag is chosen by the tag list. */
  datatype Reading = AsWritten | Corrected

  /** The fence an embedded line opens, if any: its first character is a
      fence character and `/^M{3,10}(.*)/` matches. */
  function EmbeddedFence(line: string, chars: string, rd: Reading): Option<string>
  {
    var mk := if line == [] then ' ' else line[0];
    var n := MarkerRun(line, 0, mk);
    if mk !in chars || n < 3 then None
    else if rd.AsWritten? then Some(TakeLine(line[n..]))
    else Some(line[..n])
  }

  /** The HTML of a closed embedded block: compiled as a paragraph when
      its arguments say inline, as markdown otherwise, inside its tag
      (`div` when it has none). */
  function EmbeddedHtml(a: Attributes.BlockArgs, block: string, e: Engine, rd: Reading): string
  {
    var tag := if Truthy(a.tag) then a.tag else "div";
    var html := if a.inline then e.paragraph(block, true) else e.compile(block, true);
    var close := if rd.AsWritten? then ClosingTagAsWritten(tag) else ClosingTag(tag);
    "<" + tag + a.htmlAttrs + ">\n" + html + "\n" + close + "\n"
  }

  /** What the embedding loop does with a line: the fence it opens, the
      arguments read from it, and the HTML of a closed block. */
  datatype Reader = Reader(fence: string -> Option<string>,
                           parse: string -> Result<Attributes.BlockArgs>,
                           html: (Attributes.BlockArgs, string) -> string)

  /** The reader of `compileEmbeddedDivBlock`. */
  function ReaderOf(chars: string, env: Attributes.Env, e: Engine, rd: Reading): Reader
  {
    Reader(line => EmbeddedFence(line, chars, rd), line => Attributes.ParseArgs(line, env),
           (a, b) => EmbeddedHtml(a, b, e, rd))
  }

  /** Outside an embedded block, or inside one with its fence, the text
      collected so far and its arguments. */
  datatype Embedding = Outside | Inside(fence: string, block: string, args: Attributes.BlockArgs)

  /** The state after a line, and the text it adds to the output. */
  datatype Stepped = Stepped(state: Embedding, out: string)

  /** One line of `compileEmbeddedDivBlock`: outside a block, a fence line
      opens one (its arguments read from the whole line) and any other line
      is copied; inside, a line starting with the fence closes the block and
      writes it, any other line is appended to the block without a line
      feed. */
  function EmbedStep(st: Embedding, line: string, R: Reader): Result<Stepped>
  {
    match st
    case Outside =>
      (match R.fence(line)
       case None => Ok(Stepped(Outside, line + "\n"))
       case Some(f) =>
         match R.parse(line)
         case Err(msg) => Err(msg)
         case Ok(a) => Ok(Stepped(Inside(f, "", a), "")))
    case Inside(f, b, a) =>
      if StartsWith(line, f) then Ok(Stepped(Outside, R.html(a, b)))
      else Ok(Stepped(Inside(f, b + line, a), ""))
  }

  /** The lines from the state `st` on, after the output `out`; a block
      still open at the end is dropped. */
  function EmbedLines(lines: seq<string>, st: Embedding, out: string, R: Reader): Result<string>
    decreases |lines|
  {
    if lines == [] then Ok(out)
    else
      match EmbedStep(st, lines[0], R)
      case Err(msg) => Err(msg)
      case Ok(s) => EmbedLines(lines[1..], s.state, out + s.out, R)
  }

  /** `compileEmbeddedDivBlock`, corrected: a block's fence is its run of
      markers. */
  function Embedded(str: string, chars: string, env: Attributes.Env, e: Engine): Result<string>
  {
    EmbedLines(Split(str, '\n'), Outside, "", ReaderOf(chars, env, e, Corrected))
  }

  /** `compileEmbeddedDivBlock` as written: a block's fence is the text
      after its run of markers. */
  function EmbeddedAsWritten(str: string, chars: string, env: Attributes.Env, e: Engine): Result<string>
  {
    EmbedLines(Split(str, '\n'), Outside, "", ReaderOf(chars, env, e, AsWritten))
  }

  /** Lines that open no block are copied, each with a line feed. */
  lemma {:induction false} EmbedPlain(lines: seq<string>, out: string, R: Reader)
    requires forall k :: 0 <= k < |lines| ==> R.fence(lines[k]).None?
    ensures EmbedLines(lines, Outside, out, R) == Ok(out + Lines(lines))
    decreases |lines|
  {
    if lines != [] {
      assert EmbedStep(Outside, lines[0], R) == Ok(Stepped(Outside, lines[0] + "\n"));
      assert forall k :: 0 <= k < |lines[1..]| ==> lines[1..][k] == lines[k + 1];
      assert EmbedLines(lines, Outside, out, R) == EmbedLines(lines[1..], Outside, out + (lines[0] + "\n"), R);
      EmbedPlain(lines[1..], out + (lines[0] + "\n"), R);
      assert out + (lines[0] + "\n") + Lines(lines[1..]) == out + Lines(lines);
    } else {
      assert out + Lines(lines) == out;
    }
  }

  /** Lines joined with line feeds, plus a final one, are the lines each
      followed by a line feed. */
  lemma {:induction false} LinesJoin(ls: seq<string>)
    requires ls != []
    ensures Lines(ls) == Join(ls, "\n") + "\n"
    decreases |ls|
  {
    if |ls| > 1 {
      LinesJoin(ls[1..]);
    }
  }

  /** A text none of whose lines opens a block comes back with a line feed
      added. */
  lemma EmbeddedPlain(str: string, chars: string, env: Attributes.Env, e: Engine)
    requires forall k :: 0 <= k < |Split(str, '\n')| ==> EmbeddedFence(Split(str, '\n')[k], chars, Corrected).None?
    ensures Embedded(str, chars, env, e) == Ok(str + "\n")
  {
    var ls := Split(str, '\n');
    var R := ReaderOf(chars, env, e, Corrected);
    assert forall k :: 0 <= k < |ls| ==> R.fence(ls[k]).None?;
    EmbedPlain(ls, "", R);
    LinesJoin(ls);
    JoinSplit(str, '\n');
    assert "" + Lines(ls) == str + "\n";
  }

  /** The lines concatenated without separators. */
  function Concat(ls: seq<string>): string
  {
    if ls == [] then "" else ls[0] + Concat(ls[1..])
  }

  /** Inside a block, lines that do not start with its fence are collected
      into it. */
  lemma {:induction false} EmbedInside(body: seq<string>, rest: seq<string>, f: string, b: string,
                                       a: Attributes.BlockArgs, out: string, R: Reader)
    requires forall k :: 0 <= k < |body| ==> !StartsWith(body[k], f)
    ensures EmbedLines(body + rest, Inside(f, b, a), out, R) ==
            EmbedLines(rest, Inside(f, b + Concat(body), a), out, R)
    decreases |body|
  {
    if body != [] {
      var all := body + rest;
      assert all[0] == body[0] && all[1..] == body[1..] + rest;
      assert EmbedStep(Inside(f, b, a), body[0], R) == Ok(Stepped(Inside(f, b + body[0], a), ""));
      assert out + "" == out;
      EmbedInside(body[1..], rest, f, b + body[0], a, out, R);
      assert b + body[0] + Concat(body[1..]) == b + Concat(body);
    } else {
      assert body + rest == rest && b + Concat(body) == b;
    }
  }

  /** A block opened by a fence line and closed by a line starting with the
      fence is written as one element holding its collected lines. */
  lemma EmbedBlock(open: string, body: seq<string>, close: string, rest: seq<string>, out: string, R: Reader)
    requires R.fence(open).Some? && R.parse(open).Ok?
    requires (forall k :: 0 <= k < |body| ==> !StartsWith(body[k], R.fence(open).value)) &&
      StartsWith(close, R.fence(open).value)
    ensures EmbedLines([open] + body + [close] + rest, Outside, out, R) ==
            EmbedLines(rest, Outside, out + R.html(R.parse(open).value, Concat(body)), R)
  {
    var f := R.fence(open).value;
    var a := R.parse(open).value;
    var all := [open] + body + [close] + rest;
    assert all[0] == open && all[1..] == body + ([close] + rest);
    assert EmbedStep(Outside, open, R) == Ok(Stepped(Inside(f, "", a), ""));
    assert out + "" == out;
    EmbedInside(body, [close] + rest, f, "", a, out, R);
    assert "" + Concat(body) == Concat(body);
    assert ([close] + rest)[0] == close && ([close] + rest)[1..] == rest;
    assert EmbedStep(Inside(f, Concat(body), a), close, R) == Ok(Stepped(Outside, R.html(a, Concat(body))));
  }

  /** A fence line of three markers and arguments that do not start with
      the marker: as written its fence is the arguments, corrected it is
      the markers. */
  lemma FencesOf(m: char, args: string, chars: string)
    requires m in chars && args != [] && args[0] != m && '\n' !in args
    ensures EmbeddedFence([m, m, m] + args, chars, AsWritten) == Some(args)
    ensures EmbeddedFence([m, m, m] + args, chars, Corrected) == Some([m, m, m])
  {
    var line := [m, m, m] + args;
    assert line[3] == args[0];
    SpanIs(line, 0, 3, IsMarker(m));
    assert line[3..] == args && line[..3] == [m, m, m];
    TakeLineWhole(args);
  }

  /** A block whose fence starts neither of the next two lines is still
      open when the lines end, and is dropped. */
  lemma EmbedDrops(open: string, body: string, close: string, R: Reader)
    requires R.fence(open).Some? && R.parse(open).Ok?
    requires !StartsWith(body, R.fence(open).value) && !StartsWith(close, R.fence(open).value)
    ensures EmbedLines([open, body, close], Outside, "", R) == Ok("")
  {
    var f := R.fence(open).value;
    var a := R.parse(open).value;
    var lines := [open, body, close];
    assert lines[0] == open && lines[1..] == [body, close] + [];
    assert EmbedStep(Outside, open, R) == Ok(Stepped(Inside(f, "", a), ""));
    assert "" + "" == "";
    assert EmbedLines(lines, Outside, "", R) == EmbedLines([body, close] + [], Inside(f, "", a), "", R);
    EmbedInside([body, close], [], f, "", a, "", R);
  }

  /** As written, an embedded block opened with arguments is not closed by
      its bare fence: for `@@@ .box`, a line of text and `@@@` it writes
      nothing. */
  lemma EmbeddedAsWrittenDropsBlock(m: char, args: string, body: string, chars: string,
                                    env: Attributes.Env, e: Engine)
    requires m in chars && args != [] && args[0] != m && '\n' !in args
    requires Attributes.ParseArgs([m, m, m] + args, env).Ok?
    requires !StartsWith(body, args)
    ensures EmbedLines([[m, m, m] + args, body, [m, m, m]], Outside, "", ReaderOf(chars, env, e, AsWritten)) == Ok("")
  {
    var open, close := [m, m, m] + args, [m, m, m];
    FencesOf(m, args, chars);
    assert !StartsWith(close, args) by { assert close[0] != args[0]; }
    EmbedDrops(open, body, close, ReaderOf(chars, env, e, AsWritten));
  }

  /** Corrected, the same lines write the block. */
  lemma EmbeddedKeepsBlock(m: char, args: string, body: string, chars: string,
                           env: Attributes.Env, e: Engine)
    requires m in chars && args != [] && args[0] != m && '\n' !in args
    requires Attributes.ParseArgs([m, m, m] + args, env).Ok?
    requires !StartsWith(body, [m, m, m])
    ensures EmbedLines([[m, m, m] + args, body, [m, m, m]], Outside, "", ReaderOf(chars, env, e, Corrected)) ==
      Ok(EmbeddedHtml(Attributes.ParseArgs([m, m, m] + args, env).value, body, e, Corrected))
  {
    var open, close := [m, m, m] + args, [m, m, m];
    var C := ReaderOf(chars, env, e, Corrected);
    CorrectedFence(m, args, chars, env, e, body);
    SelfStart(close);
    AsCorrected(open, body, close, C);
  }

  /** The corrected reader closes a fence line with arguments by its bare
      fence. */
  lemma CorrectedFence(m: char, args: string, chars: string, env: Attributes.Env, e: Engine, body: string)
    requires m in chars && args != [] && args[0] != m && '\n' !in args
    ensures ReaderOf(chars, env, e, Corrected).fence([m, m, m] + args) == Some([m, m, m])
    ensures ReaderOf(chars, env, e, Corrected).parse([m, m, m] + args) == Attributes.ParseArgs([m, m, m] + args, env)
    ensures forall a :: ReaderOf(chars, env, e, Corrected).html(a, body) == EmbeddedHtml(a, body, e, Corrected)
  {
    FencesOf(m, args, chars);
  }

  lemma SelfStart(s: string)
    ensures StartsWith(s, s)
  {
    assert s[..|s|] == s;
  }

  /** The corrected half: a single-line block between a fence line and its
      bare fence is written. */
  lemma AsCorrected(open: string, body: string, close: string, R: Reader)
    requires R.fence(open).Some? && R.parse(open).Ok?
    requires !StartsWith(body, R.fence(open).value) && StartsWith(close, R.fence(open).value)
    ensures EmbedLines([open, body, close], Outside, "", R) == Ok(R.html(R.parse(open).value, body))
  {
    EmbedBlock(open, [body], close, [], "", R);
    assert [open, body, close] == [open] + [body] + [close] + [];
    assert Concat([body]) == body;
    assert "" + R.html(R.parse(open).value, body) == R.html(R.parse(open).value, body);
  }

  // ---- rendering ---------------------------------------------------------

  /** The active language's code, empty when none is set. */
  function ActiveLang(env: Attributes.Env): string
  {
    if env.language.Some? then env.language.value else ""
  }

  /** A block that renders as nothing: tagged `skip`, or for another
      language. */
  predicate Hidden(b: DivBlock, env: Attributes.Env)
  {
    b.tag == "skip" || (Truthy(b.lang) && b.lang != ActiveLang(env))
  }

  /** The element name a block is written with: its tag, `div` when it
      has none. */
  function TagName(b: DivBlock): string
  {
    if Truthy(b.tag) then b.tag else "div"
  }

  /** The opening tag with the attributes. */
  function OpenTag(b: DivBlock): string
  {
    "<" + TagName(b) + b.attributes + ">"
  }

  /** What precedes the content of a block element. */
  function BlockHead(b: DivBlock): string
  {
    "\n\n" + OpenTag(b) + "\n"
  }

  /** The comment naming the element after a block element. */
  function BlockComment(b: DivBlock): string
  {
    "<!-- " + TagName(b) + b.attributes + " -->\n\n\n"
  }

  /** A block written inside its element with the closing tag `close`:
      inline, or as a block followed by a comment naming the element. */
  function Wrapped(b: DivBlock, close: string): string
  {
    if b.inline then OpenTag(b) + b.content + close
    else BlockHead(b) + b.content + ("\n" + close + BlockComment(b))
  }

  /** A shown block: the content alone when its meta says `html`, followed
      by two line feeds when it has neither tag nor attributes, wrapped in
      its element otherwise. */
  function Shown(b: DivBlock): string
  {
    if Contains(b.meta, "html") then b.content
    else if b.tag == "" && !Truthy(b.attributes) then b.content + "\n\n"
    else Wrapped(b, ClosingTag(TagName(b)))
  }

  /** `renderDivBlock`: nothing for a hidden block. */
  function RenderDivBlock(b: DivBlock, env: Attributes.Env): string
  {
    if Hidden(b, env) then "" else Shown(b)
  }

  /** A text between two others occurs right after the first. */
  lemma OccursMiddle(pre: string, x: string, post: string)
    ensures OccursAt(pre + x + post, x, |pre|)
  {
    var r := pre + x + post;
    assert r[|pre|..|pre| + |x|] == x;
  }

  /** An occurrence stays one after a prefix, shifted by its length. */
  lemma OccursShift(a: string, t: string, x: string, i: nat)
    requires OccursAt(t, x, i)
    ensures OccursAt(a + t, x, |a| + i)
  {
    assert (a + t)[|a| + i..|a| + i + |x|] == t[i..i + |x|];
  }

  /** Where the content of a wrapped block starts: after the opening tag,
      and after the line feeds around it for a block element. */
  function ContentAt(b: DivBlock): nat
  {
    if b.inline then |OpenTag(b)| else |BlockHead(b)|
  }

  /** The wrapped block holds its content right after the opening tag, and
      its closing tag right after the content (and a line feed, for a block
      element). */
  lemma WrappedLayout(b: DivBlock, close: string)
    ensures OccursAt(Wrapped(b, close), b.content, ContentAt(b))
    ensures OccursAt(Wrapped(b, close), close, ContentAt(b) + |b.content| + if b.inline then 0 else 1)
  {
    if b.inline {
      OccursMiddle(OpenTag(b), b.content, close);
      OccursMiddle(OpenTag(b) + b.content, close, "");
      assert OpenTag(b) + b.content + close + "" == Wrapped(b, close);
    } else {
      var tail := "\n" + close + BlockComment(b);
      OccursMiddle(BlockHead(b), b.content, tail);
      OccursMiddle("\n", close, BlockComment(b));
      OccursShift(BlockHead(b) + b.content, tail, close, 1);
    }
  }

  /** A shown block holds its content. */
  lemma ShownKeeps(b: DivBlock)
    ensures exists i :: OccursAt(Shown(b), b.content, i)
  {
    if Contains(b.meta, "html") {
      assert OccursAt(Shown(b), b.content, 0);
    } else if b.tag == "" && !Truthy(b.attributes) {
      OccursMiddle("", b.content, "\n\n");
      assert "" + b.content + "\n\n" == Shown(b);
    } else {
      WrappedLayout(b, ClosingTag(TagName(b)));
      assert OccursAt(Shown(b), b.content, ContentAt(b));
    }
  }

  /** A hidden block renders as nothing; a shown one keeps its content. */
  lemma RenderKeeps(b: DivBlock, env: Attributes.Env)
    ensures Hidden(b, env) ==> RenderDivBlock(b, env) == ""
    ensures !Hidden(b, env) ==> Contains(RenderDivBlock(b, env), b.content)
  {
    ShownKeeps(b);
    ContainsIff(Shown(b), b.content);
  }

  /** A shown block whose meta says `html` is its content alone; one with
      neither tag nor attributes is its content followed by an empty line. */
  lemma RenderBare(b: DivBlock, env: Attributes.Env)
    requires !Hidden(b, env)
    ensures Contains(b.meta, "html") ==> RenderDivBlock(b, env) == b.content
    ensures !Contains(b.meta, "html") && b.tag == "" && !Truthy(b.attributes) ==>
              RenderDivBlock(b, env) == b.content + "\n\n"
  {
  }

  /** A prefix of a prefix is a prefix. */
  lemma StartsWithTrans(s: string, p: string, q: string)
    requires StartsWith(s, p) && StartsWith(p, q)
    ensures StartsWith(s, q)
  {
    assert s[..|q|] == p[..|p|][..|q|];
  }

  /** The wrapped block opens with its element and its attributes. */
  lemma WrappedOpens(b: DivBlock, close: string)
    ensures StartsWith(Wrapped(b, close), (if b.inline then "" else "\n\n") + OpenTag(b))
  {
    if b.inline {
      StartsWithConcat(OpenTag(b), b.content);
      StartsWithConcat(OpenTag(b) + b.content, close);
      StartsWithTrans(Wrapped(b, close), OpenTag(b) + b.content, OpenTag(b));
      assert "" + OpenTag(b) == OpenTag(b);
    } else {
      var tail := "\n" + close + BlockComment(b);
      StartsWithConcat("\n\n" + OpenTag(b), "\n");
      StartsWithConcat(BlockHead(b), b.content);
      StartsWithConcat(BlockHead(b) + b.content, tail);
      StartsWithTrans(Wrapped(b, close), BlockHead(b) + b.content, BlockHead(b));
      StartsWithTrans(Wrapped(b, close), BlockHead(b), "\n\n" + OpenTag(b));
    }
  }

  /** A shown block with a tag or attributes opens with its element (`div`
      when it has no tag) and its attributes, and closes the element unless
      it is an empty one. */
  lemma RenderWraps(b: DivBlock, env: Attributes.Env)
    requires !Hidden(b, env) && !Contains(b.meta, "html") && (b.tag != "" || Truthy(b.attributes))
    ensures StartsWith(RenderDivBlock(b, env), (if b.inline then "" else "\n\n") + OpenTag(b))
    ensures TagName(b) !in SingletonNames ==> Contains(RenderDivBlock(b, env), "</" + TagName(b) + ">")
  {
    var close := ClosingTag(TagName(b));
    assert RenderDivBlock(b, env) == Wrapped(b, close);
    WrappedOpens(b, close);
    WrappedLayout(b, close);
    ContainsIff(Wrapped(b, close), close);
  }
}
