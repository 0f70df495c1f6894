/** The `{: … }` attribute mini-language of `MdPlusHelper`:
    `parseInlineBlockArguments` reads tag, id, classes, style declarations,
    attributes, text and `!` meta commands from an argument string,
    `_parseMetaCmds` interprets the meta commands and `_assembleHtmlAttrs`
    renders the HTML attribute text.

    The argument string is read token by token: `NextToken` recognises the
    token at the head of the (left-trimmed) string, `Apply` performs its
    effect on the accumulated arguments. */
module Attributes {
  import opened Wrappers
  import opened PhpStrings
  import Permission

  datatype Token =
    | TagTok(tag: string)               // `<word`
    | IdTok(id: string)                 // `#name`
    | ClassTok(name: string)            // `.name`
    | StyleTok(key: string, value: string)  // `key: value` or `key: 'value'`
    | AttrTok(attr: string)             // `key=value` or `key='value'`
    | TextTok(text: string)             // a bare word or quoted text
    | MetaTok(cmd: string, arg: string) // `!cmd=arg`
    | Skip                              // a character that means nothing

  predicate NotSpace(c: char) { !IsSpace(c) }

  predicate StyleValueChar(c: char) { !IsSpace(c) && c != ';' }


  /** `/^(['"])(.*?)\1(.*)/` on one line: the quote, the text up to the
      next quote of the same kind, and what follows that quote. */
  function QuotedValue(rest: string): (r: Option<(char, string, string)>)
    requires '\n' !in rest
    ensures r.Some? ==>
      (IsQuote(r.value.0) && r.value.0 !in r.value.1 &&
       rest == [r.value.0] + r.value.1 + [r.value.0] + r.value.2)
    ensures r.None? ==> rest == [] || !IsQuote(rest[0]) || rest[0] !in rest[1..]
  {
    if rest != [] && IsQuote(rest[0]) then
      match FindChar(rest[1..], rest[0])
      case None => None
      case Some(j) =>
        assert rest == [rest[0]] + rest[1..1 + j] + [rest[0]] + rest[j + 2..];
        Some((rest[0], rest[1..1 + j], rest[j + 2..]))
    else None
  }

  /** What follows a `key:` or `key=` (spaces skipped) up to the end of its line. */
  function KeyRest(s: string, k: nat): (r: string)
    requires k < |s|
    ensures |r| < |s| - k && '\n' !in r
    ensures var j := k + 1 + Span(s, k + 1, IsSpace);
      j + |r| <= |s| && (j == |s| || !IsSpace(s[j])) && r == s[j..j + |r|] &&
      (j + |r| == |s| || s[j + |r|] == '\n')
  {
    var j := k + 1 + Span(s, k + 1, IsSpace);
    var r := TakeLine(s[j..]);
    assert s[j..][..|r|] == s[j..j + |r|];
    r
  }

  /** The length of the `[\w-]` run a key is made of. */
  function KeyLen(s: string): nat
    ensures KeyLen(s) <= |s|
  {
    Span(s, 0, IsWordOrDash)
  }

  /** The value after `key:` (`isStyle`) or `key=`, and the text after it:
      a quoted value, or else a run of characters other than spaces and `;`
      (style) or of `[\w-]` (attribute). An attribute keeps its quotes, or
      gets single quotes. None when neither kind of value is there. */
  function ValueScan(rest: string, isStyle: bool): (r: Option<(string, string)>)
    requires '\n' !in rest
    ensures r.Some? ==> |r.value.1| < |rest|
    ensures QuotedValue(rest).Some? ==>
      var (q, inner, after) := QuotedValue(rest).value;
      r == Some((if isStyle then inner else [q] + inner + [q], after))
    ensures QuotedValue(rest).None? && r.Some? ==>
      var n := |rest| - |r.value.1|;
      r.value.1 == rest[n..] &&
      (forall i :: 0 <= i < n ==> if isStyle then StyleValueChar(rest[i]) else IsWordOrDash(rest[i])) &&
      (n == |rest| || (if isStyle then !StyleValueChar(rest[n]) else !IsWordOrDash(rest[n]))) &&
      r.value.0 == (if isStyle then rest[..n] else "'" + rest[..n] + "'")
    ensures r.None? ==>
      (rest == [] || !IsQuote(rest[0]) || rest[0] !in rest[1..]) &&
      (rest == [] || (if isStyle then !StyleValueChar(rest[0]) else !IsWordOrDash(rest[0])))
  {
    match QuotedValue(rest)
    case Some((q, inner, after)) =>
      Some((if isStyle then inner else [q] + inner + [q], after))
    case None =>
      var n := if isStyle then Span(rest, 0, StyleValueChar) else Span(rest, 0, IsWordOrDash);
      if n == 0 then None
      else Some((if isStyle then rest[..n] else "'" + rest[..n] + "'", rest[n..]))
  }

  /** The token at the head of `s` when `s` starts with a letter, and the
      text left to read, or None when, as written, nothing would be
      consumed: a `key:` followed by nothing or by `;`, or a `key=`
      followed by anything but a closed quote or a word. */
  function LetterScan(s: string): (r: (Token, Option<string>))
    requires s != [] && IsAlpha(s[0])
    ensures r.1.Some? ==> |r.1.value| < |s|
    ensures r.1.None? ==> r.0 == Skip && KeyLen(s) < |s| && (s[KeyLen(s)] == ':' || s[KeyLen(s)] == '=')
    ensures r.0.StyleTok? ==> r.0.key == s[..KeyLen(s)] && KeyLen(s) < |s| && s[KeyLen(s)] == ':'
    ensures r.0.AttrTok? ==> KeyLen(s) < |s| && s[KeyLen(s)] == '=' && StartsWith(r.0.attr, s[..KeyLen(s) + 1])
    ensures r.0.StyleTok? ==> r.1.Some? && ValueScan(KeyRest(s, KeyLen(s)), true) == Some((r.0.value, r.1.value))
    ensures r.0.AttrTok? ==>
      r.1.Some? && ValueScan(KeyRest(s, KeyLen(s)), false) == Some((r.0.attr[KeyLen(s) + 1..], r.1.value))
    ensures KeyLen(s) < |s| && (s[KeyLen(s)] == ':' || s[KeyLen(s)] == '=') ==>
      (r.0.StyleTok? <==> s[KeyLen(s)] == ':' && r.1.Some?) && (r.0.AttrTok? <==> s[KeyLen(s)] == '=' && r.1.Some?)
    ensures KeyLen(s) == |s| || (s[KeyLen(s)] != ':' && s[KeyLen(s)] != '=') ==>
      var n := Span(s, 0, NotSpace); r == (TextTok(s[..n]), Some(TakeLine(s[n..])))
  {
    var k := KeyLen(s);
    if k < |s| && (s[k] == ':' || s[k] == '=') then
      match ValueScan(KeyRest(s, k), s[k] == ':')
      case None => (Skip, None)
      case Some((v, after)) =>
        if s[k] == ':' then (StyleTok(s[..k], v), Some(after))
        else (AttrTok(s[..k + 1] + v), Some(after))
    else
      var n := Span(s, 0, NotSpace);
      (TextTok(s[..n]), Some(TakeLine(s[n..])))
  }

  /** `/^(\S+)\s*(.*)/` on the command's (left-trimmed) line: the run of
      non-spaces as argument and what follows it and its spaces; when the
      line does not start with a non-space, no argument and the line as it is. */
  function ArgSplit(rest: string): (r: (string, string))
    ensures StartsWith(rest, r.0) && (|r.0| == |rest| || IsSpace(rest[|r.0|]))
    ensures forall i :: 0 <= i < |r.0| ==> !IsSpace(r.0[i])
    ensures r.1 == if r.0 == [] then rest else rest[|r.0| + Span(rest, |r.0|, IsSpace)..]
  {
    var n := Span(rest, 0, NotSpace);
    if n == 0 then ("", rest)
    else
      assert rest[..n][..n] == rest[..n];
      (rest[..n], rest[n + Span(rest, n, IsSpace)..])
  }

  /** What `/^([\w-]+) [=:]? (.*) /x` leaves after a command of length `k`,
      left-trimmed: the rest of its line past an optional `=` or `:`. */
  function CmdRest(s: string, k: nat): (r: string)
    requires k <= |s|
    ensures |r| <= |s| - k
  {
    LTrim(TakeLine(if k < |s| && (s[k] == '=' || s[k] == ':') then s[k + 1..] else s[k..]))
  }

  /** `_parseMetaCmds` reading its command: a `[\w-]` run, lowercased, an
      optional `=` or `:`, and the next run of non-spaces as argument; what
      follows the argument and its spaces, to the end of the line, is left
      to read. Without a command the text is left as it is. */
  function MetaToken(s: string): (r: (Token, string))
    ensures |r.1| <= |s|
    ensures s == [] || !IsWordOrDash(s[0]) ==> r == (Skip, s)
    ensures s != [] && IsWordOrDash(s[0]) ==>
      var k := Span(s, 0, IsWordOrDash);
      var (arg, after) := ArgSplit(CmdRest(s, k));
      r == (MetaTok(Lower(s[..k]), arg), after) && Lower(s[..k]) != []
  {
    var k := Span(s, 0, IsWordOrDash);
    if k == 0 then (Skip, s)
    else
      var (arg, after) := ArgSplit(CmdRest(s, k));
      assert |after| <= |CmdRest(s, k)|;
      (MetaTok(Lower(s[..k]), arg), after)
  }

  /** `<tag`: the word after `<`, the rest of its line left to read. */
  function TagToken(s: string): (r: (Token, string))
    ensures |r.1| <= |s| && (r.0 == Skip || r.0.TagTok?)
    ensures r.0.TagTok? ==>
      r.0.tag != [] && StartsWith(s, r.0.tag) && forall i :: 0 <= i < |r.0.tag| ==> IsWord(r.0.tag[i])
    ensures r.0.TagTok? ==> (|r.0.tag| == |s| || !IsWord(s[|r.0.tag|])) && r.1 == TakeLine(s[|r.0.tag|..])
    ensures r.0 == Skip <==> s == [] || !IsWord(s[0])
    ensures r.0 == Skip ==> r.1 == s
  {
    var n := Span(s, 0, IsWord);
    if n > 0 then
      assert s[..n][..n] == s[..n];
      (TagTok(s[..n]), TakeLine(s[n..]))
    else (Skip, s)
  }

  /** `#id` (`isId`) or `.class`: the `[\w-]` run after the sign, the rest
      of its line left to read. */
  function NameToken(isId: bool, s: string): (r: (Token, string))
    ensures |r.1| <= |s| && (r.0 == Skip || (isId && r.0.IdTok?) || (!isId && r.0.ClassTok?))
    ensures r.0.IdTok? ==>
      r.0.id != [] && StartsWith(s, r.0.id) && forall i :: 0 <= i < |r.0.id| ==> IsWordOrDash(r.0.id[i])
    ensures r.0.ClassTok? ==>
      r.0.name != [] && StartsWith(s, r.0.name) && forall i :: 0 <= i < |r.0.name| ==> IsWordOrDash(r.0.name[i])
    ensures r.0 != Skip ==>
      var n := if isId then |r.0.id| else |r.0.name|;
      (n == |s| || !IsWordOrDash(s[n])) && r.1 == TakeLine(s[n..])
    ensures r.0 == Skip <==> s == [] || !IsWordOrDash(s[0])
    ensures r.0 == Skip ==> r.1 == s
  {
    var n := Span(s, 0, IsWordOrDash);
    if n == 0 then (Skip, s)
    else
      assert s[..n][..n] == s[..n];
      if isId then (IdTok(s[..n]), TakeLine(s[n..]))
      else (ClassTok(s[..n]), TakeLine(s[n..]))
  }

  /** Text in quotes `c`: up to the first closing quote, cut as
      `asWritten` says; no closing quote, nothing read. */
  function QuoteToken(c: char, s: string, asWritten: bool): (r: (Token, string))
    ensures |r.1| <= |s|
    ensures c in s ==>
      (exists p :: 0 <= p < |s| && s[p] == c && c !in s[..p] &&
        r == (TextTok(QuoteCut(s, p, asWritten)), s[p + 1..]))
    ensures c !in s ==> r == (Skip, s)
  {
    match FindChar(s, c)
    case None => (Skip, s)
    case Some(p) => (TextTok(QuoteCut(s, p, asWritten)), s[p + 1..])
  }

  /** The token a non-letter `c` starts, read from the text `s` after it;
      `asWritten` chooses how quoted text is cut. */
  function PunctToken(c: char, s: string, asWritten: bool): (r: (Token, string))
    ensures |r.1| <= |s|
    ensures r.0.IdTok? ==>
      (c == '#' && r.0.id != [] && StartsWith(s, r.0.id) &&
       forall i :: 0 <= i < |r.0.id| ==> IsWordOrDash(r.0.id[i]))
    ensures r.0.ClassTok? ==>
      (c == '.' && r.0.name != [] && StartsWith(s, r.0.name) &&
       forall i :: 0 <= i < |r.0.name| ==> IsWordOrDash(r.0.name[i]))
    ensures r.0.TagTok? ==>
      (c == '<' && r.0.tag != [] && StartsWith(s, r.0.tag) &&
       forall i :: 0 <= i < |r.0.tag| ==> IsWord(r.0.tag[i]))
    ensures !IsQuote(c) && c != '<' && c != '#' && c != '.' && c != '!' ==> r == (Skip, s)
    ensures IsQuote(c) && c in s ==>
      (exists p :: 0 <= p < |s| && s[p] == c && c !in s[..p] &&
        r == (TextTok(QuoteCut(s, p, asWritten)), s[p + 1..]))
    ensures IsQuote(c) && c !in s ==> r == (Skip, s)
    ensures c == '<' ==> r == TagToken(s)
    ensures c == '#' || c == '.' ==> r == NameToken(c == '#', s)
    ensures c == '!' ==> r == MetaToken(s)
  {
    if c == '<' then TagToken(s)
    else if c == '#' || c == '.' then NameToken(c == '#', s)
    else if c == '!' then MetaToken(s)
    else if IsQuote(c) then QuoteToken(c, s, asWritten)
    else (Skip, s)
  }

  /** The quoted text as the source cuts it, `substr($str, 0, $p-1)`: the
      character before the closing quote is lost, and for an empty quote
      (`$p == 0`) the length -1 keeps all but the last character of the rest. */
  function QuotedTextAsWritten(s: string, p: nat): (t: string)
    requires p < |s|
    ensures |t| <= |s|
  {
    if p == 0 then s[..|s| - 1] else s[..p - 1]
  }

  /** The quoted text as intended: everything up to the closing quote. */
  function QuotedText(s: string, p: nat): (t: string)
    requires p < |s|
    ensures t == s[..p] && |t| <= |s|
  {
    s[..p]
  }

  function QuoteCut(s: string, p: nat, asWritten: bool): string
    requires p < |s|
  {
    if asWritten then QuotedTextAsWritten(s, p) else QuotedText(s, p)
  }

  /** One step of the reading loop as written: a stalled `key:` or `key=`
      leaves the text unchanged, and quoted text loses a character. */
  function NextTokenAsWritten(s: string): (r: (Token, string))
  {
    if s == [] then (Skip, [])
    else if IsAlpha(s[0]) then
      var (t, rest) := LetterScan(s);
      (t, if rest.Some? then rest.value else s)
    else PunctToken(s[0], s[1..], true)
  }

  /** One step of the reading loop: the token at the head of `s` (already
      left-trimmed) and the text left to read, which is always shorter. A
      malformed `key:` or `key=` is skipped with its separator. */
  function NextToken(s: string): (r: (Token, string))
    ensures s == [] ==> r == (Skip, [])
    ensures s != [] ==> |r.1| < |s|
    ensures s != [] && !IsAlpha(s[0]) && !IsQuote(s[0]) && s[0] !in "<#.!" ==> r == (Skip, s[1..])
    ensures s != [] && !IsAlpha(s[0]) ==> r == PunctToken(s[0], s[1..], false)
    ensures s != [] && IsAlpha(s[0]) && LetterScan(s).1.Some? ==> r == NextTokenAsWritten(s)
  {
    if s == [] then (Skip, [])
    else if IsAlpha(s[0]) then
      var (t, rest) := LetterScan(s);
      if rest.Some? then (t, rest.value)
      else (Skip, KeyRest(s, KeyLen(s)))
    else PunctToken(s[0], s[1..], false)
  }

  /** The tokens of an argument string, read while it is truthy. */
  function Lex(str: string): seq<Token>
    decreases |str|
  {
    if !Truthy(str) then []
    else
      var r := NextToken(LTrim(str));
      [r.0] + Lex(r.1)
  }

  /** The accumulated arguments; `literal` and `inline` are false for
      PHP's `null`. */
  datatype Args = Args(tag: string, id: string, classes: string, style: string,
                       attr: seq<string>, text: string, literal: bool, inline: bool,
                       lang: string)

  const Initial := Args("", "", "", "", [], "", false, false, "")

  /** The facts `_parseMetaCmds` looks up: the visitor for
      `Permission::evaluate`, the active language (`kirby()->language()`),
      the clock (`time()`) and `strtotime`. */
  datatype Env = Env(visitor: Permission.Visitor, language: Option<string>, now: int,
                     strToTime: string -> Option<int>)

  /** `$text ? "$text $t" : $t`, and the same for classes. */
  function AppendWord(acc: string, w: string): string
  {
    if Truthy(acc) then acc + " " + w else w
  }

  /** `$style ? " $style display:none;" : 'display:none;'`. */
  function Hide(style: string): (r: string)
    ensures Truthy(style) ==> r == " " + style + " display:none;"
    ensures !Truthy(style) ==> r == "display:none;"
  {
    if Truthy(style) then " " + style + " display:none;" else "display:none;"
  }

  /** `strtotime($arg) - time()`, with `false` counting as 0. */
  function SecondsUntil(env: Env, arg: string): int
  {
    (match env.strToTime(arg) case Some(t) => t case None => 0) - env.now
  }

  /** `_parseMetaCmds` performing a command. The `lang` command fails when
      no language is active. */
  function ApplyMeta(a: Args, cmd: string, arg: string, env: Env): (r: Result<Args>)
    ensures r.Err? <==> cmd == "lang" && env.language.None?
    ensures r.Ok? && r.value.tag != a.tag ==> r.value.tag == "skip"
    ensures r.Ok? ==> r.value.id == a.id && r.value.classes == a.classes && r.value.attr == a.attr && r.value.text == a.text
    ensures r.Ok? ==> (r.value.literal <==> a.literal || cmd == "literal")
    ensures r.Ok? ==> (r.value.inline <==> a.inline || cmd == "inline")
    ensures (cmd == "user" || cmd == "role" || cmd == "visible" || cmd == "visibility") ==>
      r == Ok(if Granted(cmd, arg, env) then a else a.(tag := "skip"))
    ensures cmd == "off" ==> r == Ok(a.(style := Hide(a.style)))
    ensures cmd == "showtill" || cmd == "showfrom" ==> r == Ok(Schedule(a, cmd == "showtill", arg, env))
    ensures cmd !in {"literal", "user", "role", "visible", "visibility", "inline", "lang", "off", "showtill", "showfrom"} ==>
      r == Ok(a)
    ensures cmd == "lang" && env.language.Some? ==>
      r.Ok? && r.value.lang == arg &&
      (r.value.tag == "skip" <==> a.tag == "skip" || arg == "skip" || arg == "none" || arg != env.language.value)
  {
    if cmd == "literal" then Ok(a.(literal := true))
    else if cmd == "user" || cmd == "role" || cmd == "visible" || cmd == "visibility" then
      Ok(Gate(a, Granted(cmd, arg, env)))
    else if cmd == "inline" then Ok(a.(inline := true))
    else if cmd == "lang" then LangCmd(a, arg, env)
    else if cmd == "off" then Ok(a.(style := Hide(a.style)))
    else if cmd == "showtill" || cmd == "showfrom" then Ok(Schedule(a, cmd == "showtill", arg, env))
    else Ok(a)
  }

  /** Whether the visitor may see the element under `!user`, `!role`,
      `!visible` or `!visibility`. */
  predicate Granted(cmd: string, arg: string, env: Env)
  {
    if cmd == "user" then Permission.Evaluate("user=" + arg, env.visitor, true)
    else if cmd == "role" then Permission.Evaluate("role=" + arg, env.visitor, true)
    else Permission.Evaluate(arg, env.visitor, true)
  }

  /** The arguments kept, or the element skipped. */
  function Gate(a: Args, granted: bool): (r: Args)
    ensures granted ==> r == a
    ensures !granted ==> r.tag == "skip" && r.(tag := a.tag) == a
  {
    if granted then a else a.(tag := "skip")
  }

  /** `!lang`: an error without an active language; otherwise the language
      recorded and the element skipped unless it is the active one. */
  function LangCmd(a: Args, arg: string, env: Env): (r: Result<Args>)
    ensures r.Err? <==> env.language.None?
    ensures r.Ok? ==> r.value.(lang := a.lang, tag := a.tag) == a && r.value.lang == arg
    ensures r.Ok? ==>
      (r.value.tag == "skip" <==> a.tag == "skip" || arg == "skip" || arg == "none" || arg != env.language.value)
    ensures r.Ok? && r.value.tag != a.tag ==> r.value.tag == "skip"
  {
    if env.language.None? then Err("Warning: no language is active or defined while using MarkdownPlus option '!lang=xy'. -> You need to configure languages.")
    else if arg == "skip" || arg == "none" || arg != env.language.value then Ok(a.(lang := arg, tag := "skip"))
    else Ok(a.(lang := arg))
  }

  /** `!showtill` (`till`) and `!showfrom`: past the time, or before it,
      the element is skipped and hidden. */
  function Schedule(a: Args, till: bool, arg: string, env: Env): (r: Args)
    ensures r.tag != a.tag ==> r.tag == "skip"
    ensures r.(lang := a.lang, tag := a.tag, style := a.style) == a
    ensures (till && SecondsUntil(env, arg) < 0) || (!till && SecondsUntil(env, arg) > 0) ==>
      r.lang == "none" && r.tag == "skip" && r.style == Hide(a.style)
    ensures !((till && SecondsUntil(env, arg) < 0) || (!till && SecondsUntil(env, arg) > 0)) ==> r == a
  {
    var t := SecondsUntil(env, arg);
    if (till && t < 0) || (!till && t > 0) then
      a.(lang := "none", tag := "skip", style := Hide(a.style))
    else a
  }

  /** The effect of one token on the accumulated arguments. */
  function Apply(a: Args, t: Token, env: Env): Result<Args>
  {
    match t
    case TagTok(w) => Ok(a.(tag := w))
    case IdTok(x) => Ok(a.(id := x))
    case ClassTok(c) => Ok(a.(classes := AppendWord(a.classes, c)))
    case StyleTok(k, v) => Ok(a.(style := a.style + k + ":" + v + "; "))
    case AttrTok(x) => Ok(a.(attr := a.attr + [x]))
    case TextTok(w) => Ok(a.(text := AppendWord(a.text, w)))
    case MetaTok(cmd, arg) => ApplyMeta(a, cmd, arg, env)
    case Skip => Ok(a)
  }

  /** The effect of a sequence of tokens; the first failure ends it. */
  function Run(a: Args, ts: seq<Token>, env: Env): Result<Args>
    decreases |ts|
  {
    if ts == [] then Ok(a)
    else match Apply(a, ts[0], env)
      case Err(m) => Err(m)
      case Ok(b) => Run(b, ts[1..], env)
  }

  /** An entry of `$htmlAttrArray`: a named entry or a positional one. */
  datatype HtmlAttr = Named(key: string, value: string) | Positional(text: string)

  /** The attribute text an entry stands for. */
  function AttrText(x: HtmlAttr): string
  {
    match x
    case Named(k, v) => " " + k + "='" + v + "'"
    case Positional(t) => " " + t
  }

  function AttrsText(xs: seq<HtmlAttr>): string
  {
    if xs == [] then "" else AttrText(xs[0]) + AttrsText(xs[1..])
  }

  function Positionals(attr: seq<string>): (r: seq<HtmlAttr>)
    ensures |r| == |attr| && forall i :: 0 <= i < |r| ==> r[i] == Positional(attr[i])
  {
    if attr == [] then [] else [Positional(attr[0])] + Positionals(attr[1..])
  }

  function NamedIf(key: string, value: string): seq<HtmlAttr>
  {
    if Truthy(value) then [Named(key, value)] else []
  }

  /** One `if ($x) { $out .= " x='$x'"; }` of `_assembleHtmlAttrs`. */
  function AttrPiece(key: string, value: string): string
  {
    if Truthy(value) then " " + key + "='" + value + "'" else ""
  }

  /** `' ' . implode(' ', $attr)` when there are misc attributes. */
  function MiscPiece(attr: seq<string>): string
  {
    if attr != [] then " " + Join(attr, " ") else ""
  }

  /** `_assembleHtmlAttrs`: the attribute text and the attribute array.
      The array holds id, class and style, each only when non-empty and in
      that order, then the misc attributes; the text is the rendering of
      the array, entry by entry. */
  function AssembleHtmlAttrs(id: string, cls: string, style: string, attr: seq<string>): (r: (string, seq<HtmlAttr>))
    ensures r.1 == NamedIf("id", id) + (NamedIf("class", cls) + (NamedIf("style", style) + Positionals(attr)))
    ensures r.0 == AttrsText(r.1)
  {
    var out := AttrPiece("id", id) + (AttrPiece("class", cls) + (AttrPiece("style", style) + MiscPiece(attr)));
    var arr := NamedIf("id", id) + (NamedIf("class", cls) + (NamedIf("style", style) + Positionals(attr)));
    AssembleText(id, cls, style, attr);
    (out, arr)
  }

  lemma AssembleText(id: string, cls: string, style: string, attr: seq<string>)
    ensures AttrPiece("id", id) + (AttrPiece("class", cls) + (AttrPiece("style", style) + MiscPiece(attr)))
         == AttrsText(NamedIf("id", id) + (NamedIf("class", cls) + (NamedIf("style", style) + Positionals(attr))))
  {
    var a, b, c := NamedIf("id", id), NamedIf("class", cls), NamedIf("style", style);
    var p := Positionals(attr);
    AttrsTextConcat(a, b + (c + p));
    AttrsTextConcat(b, c + p);
    AttrsTextConcat(c, p);
    NamedText("id", id);
    NamedText("class", cls);
    NamedText("style", style);
    PositionalText(attr);
  }

  lemma NamedText(key: string, value: string)
    ensures AttrsText(NamedIf(key, value)) == AttrPiece(key, value)
  {
    if Truthy(value) {
      assert NamedIf(key, value)[1..] == [];
    }
  }

  lemma {:induction false} AttrsTextConcat(xs: seq<HtmlAttr>, ys: seq<HtmlAttr>)
    ensures AttrsText(xs + ys) == AttrsText(xs) + AttrsText(ys)
    decreases |xs|
  {
    if xs == [] {
      assert xs + ys == ys;
    } else {
      assert (xs + ys)[1..] == xs[1..] + ys;
      AttrsTextConcat(xs[1..], ys);
    }
  }

  /** `' ' . implode(' ', $attr)` renders the positional entries. */
  lemma {:induction false} PositionalText(attr: seq<string>)
    ensures AttrsText(Positionals(attr)) == MiscPiece(attr)
    decreases |attr|
  {
    if |attr| > 1 {
      PositionalText(attr[1..]);
      assert Positionals(attr)[1..] == Positionals(attr[1..]);
    } else if |attr| == 1 {
      assert Positionals(attr)[1..] == [];
    }
  }

  /** What `parseInlineBlockArguments` returns; `literal` and `inline` are
      false where the original returns `null`. */
  datatype BlockArgs = BlockArgs(tag: string, id: string, classes: string, style: string,
                                 attr: seq<string>, text: string, literal: bool, inline: bool,
                                 lang: string, htmlAttrs: string, htmlAttrArray: seq<HtmlAttr>)

  /** The end of `parseInlineBlockArguments`: the style is trimmed and the
      HTML attributes are assembled. */
  function Finish(a: Args): (b: BlockArgs)
    ensures b.style == Trim(a.style)
    ensures (b.htmlAttrs, b.htmlAttrArray) == AssembleHtmlAttrs(a.id, a.classes, b.style, a.attr)
    ensures b.tag == a.tag && b.id == a.id && b.classes == a.classes && b.attr == a.attr &&
            b.text == a.text && b.literal == a.literal && b.inline == a.inline && b.lang == a.lang
  {
    var style := Trim(a.style);
    var (html, arr) := AssembleHtmlAttrs(a.id, a.classes, style, a.attr);
    BlockArgs(a.tag, a.id, a.classes, style, a.attr, a.text, a.literal, a.inline, a.lang, html, arr)
  }

  /** `parseInlineBlockArguments` as a function of its argument string:
      `&lt;` is read as `<`, then the tokens are performed in order. */
  function ParseArgs(str: string, env: Env): Result<BlockArgs>
  {
    match Run(Initial, Lex(ReplaceAll(str, "&lt;", "<")), env)
    case Err(m) => Err(m)
    case Ok(a) => Ok(Finish(a))
  }

  /** `parseInlineBlockArguments`: reads the argument string token by token,
      performing each on the accumulated arguments, until the string is no
      longer truthy; then assembles the result. */
  method ParseInlineBlockArguments(str: string, env: Env) returns (r: Result<BlockArgs>)
    ensures r == ParseArgs(str, env)
  {
    var s := ReplaceAll(str, "&lt;", "<");
    ghost var all := Lex(s);
    var acc := Initial;
    while Truthy(s)
      invariant Run(acc, Lex(s), env) == Run(Initial, all, env)
      decreases |s|
    {
      var tok, rest := ReadToken(s);
      var before := acc;
      var m := Apply(acc, tok, env);
      if m.Err? {
        RunErrStep(before, tok, Lex(rest), env);
        return Err(m.msg);
      }
      acc := m.value;
      RunStep(before, tok, Lex(rest), env, acc);
      s := rest;
    }
    r := Ok(Finish(acc));
  }

  /** Reading the next token: the text is left-trimmed, then the token at
      its head is taken off. */
  method ReadToken(s: string) returns (tok: Token, rest: string)
    requires Truthy(s)
    ensures Lex(s) == [tok] + Lex(rest) && |rest| < |s|
  {
    var next := NextToken(LTrim(s));
    tok, rest := next.0, next.1;
  }

  lemma RunStep(a: Args, t: Token, ts: seq<Token>, env: Env, b: Args)
    requires Apply(a, t, env) == Ok(b)
    ensures Run(a, [t] + ts, env) == Run(b, ts, env)
  {
    assert ([t] + ts)[1..] == ts;
  }

  lemma RunErrStep(a: Args, t: Token, ts: seq<Token>, env: Env)
    requires Apply(a, t, env).Err?
    ensures Run(a, [t] + ts, env) == Err(Apply(a, t, env).msg)
  {
  }

  /** The misc attributes of a token sequence, in order. */
  function AttrsOf(ts: seq<Token>): seq<string>
  {
    if ts == [] then [] else (if ts[0].AttrTok? then [ts[0].attr] else []) + AttrsOf(ts[1..])
  }

  /** The style declarations of a token sequence, each as `key:value; `. */
  function StyleDecls(ts: seq<Token>): string
  {
    if ts == [] then ""
    else (if ts[0].StyleTok? then ts[0].key + ":" + ts[0].value + "; " else "") + StyleDecls(ts[1..])
  }

  predicate HasCmd(ts: seq<Token>, cmd: string)
  {
    exists i :: 0 <= i < |ts| && ts[i].MetaTok? && ts[i].cmd == cmd
  }

  /** Performing tokens fails exactly when a `!lang` command meets no
      active language. */
  lemma {:induction false} RunFails(a: Args, ts: seq<Token>, env: Env)
    ensures Run(a, ts, env).Err? <==> env.language.None? && HasCmd(ts, "lang")
    decreases |ts|
  {
    if ts != [] {
      HasCmdCons(ts, "lang");
      match Apply(a, ts[0], env)
      case Err(_) =>
      case Ok(b) => RunFails(b, ts[1..], env);
    }
  }

  lemma HasCmdCons(ts: seq<Token>, cmd: string)
    requires ts != []
    ensures HasCmd(ts, cmd) <==> (ts[0].MetaTok? && ts[0].cmd == cmd) || HasCmd(ts[1..], cmd)
  {
    if HasCmd(ts[1..], cmd) {
      var i :| 0 <= i < |ts[1..]| && ts[1..][i].MetaTok? && ts[1..][i].cmd == cmd;
      assert ts[i + 1] == ts[1..][i];
    }
    if HasCmd(ts, cmd) && !(ts[0].MetaTok? && ts[0].cmd == cmd) {
      var i :| 0 <= i < |ts| && ts[i].MetaTok? && ts[i].cmd == cmd;
      assert ts[1..][i - 1] == ts[i];
    }
  }

  /** The misc attributes are those of the `key=value` tokens, in order. */
  lemma {:induction false} RunAttr(a: Args, ts: seq<Token>, env: Env)
    requires Run(a, ts, env).Ok?
    ensures Run(a, ts, env).value.attr == a.attr + AttrsOf(ts)
    decreases |ts|
  {
    if ts == [] {
      assert a.attr + [] == a.attr;
    } else {
      var b := Apply(a, ts[0], env).value;
      RunAttr(b, ts[1..], env);
      assert b.attr == a.attr + (if ts[0].AttrTok? then [ts[0].attr] else []);
      assert a.attr + (if ts[0].AttrTok? then [ts[0].attr] else []) + AttrsOf(ts[1..]) ==
             a.attr + ((if ts[0].AttrTok? then [ts[0].attr] else []) + AttrsOf(ts[1..]));
    }
  }

  /** Without meta commands the style is the declarations, in order. */
  lemma {:induction false} RunStyle(a: Args, ts: seq<Token>, env: Env)
    requires forall i :: 0 <= i < |ts| ==> !ts[i].MetaTok?
    ensures Run(a, ts, env).Ok?
    ensures Run(a, ts, env).value.style == a.style + StyleDecls(ts)
    decreases |ts|
  {
    if ts == [] {
      assert a.style + "" == a.style;
    } else {
      var d := if ts[0].StyleTok? then ts[0].key + ":" + ts[0].value + "; " else "";
      var b := Apply(a, ts[0], env).value;
      assert b.style == a.style + d;
      RunStyle(b, ts[1..], env);
      assert a.style + d + StyleDecls(ts[1..]) == a.style + (d + StyleDecls(ts[1..]));
    }
  }

  /** The last `#id` wins; without one the id stays. */
  lemma {:induction false} RunId(a: Args, ts: seq<Token>, env: Env)
    requires Run(a, ts, env).Ok?
    ensures forall i :: 0 <= i < |ts| && ts[i].IdTok? && (forall j :: i < j < |ts| ==> !ts[j].IdTok?) ==>
      Run(a, ts, env).value.id == ts[i].id
    ensures (forall i :: 0 <= i < |ts| ==> !ts[i].IdTok?) ==> Run(a, ts, env).value.id == a.id
    decreases |ts|
  {
    if ts != [] {
      var b := Apply(a, ts[0], env).value;
      RunId(b, ts[1..], env);
      assert b.id == if ts[0].IdTok? then ts[0].id else a.id;
      forall i | 0 <= i < |ts| && ts[i].IdTok? && (forall j :: i < j < |ts| ==> !ts[j].IdTok?)
        ensures Run(a, ts, env).value.id == ts[i].id
      {
        if i > 0 {
          assert ts[1..][i - 1] == ts[i];
          assert forall j :: i - 1 < j < |ts[1..]| ==> ts[1..][j] == ts[j + 1];
        } else {
          assert forall j :: 0 <= j < |ts[1..]| ==> ts[1..][j] == ts[j + 1];
        }
      }
      if forall i :: 0 <= i < |ts| ==> !ts[i].IdTok? {
        assert forall j :: 0 <= j < |ts[1..]| ==> ts[1..][j] == ts[j + 1];
      }
    }
  }

  /** `!literal` and `!inline` anywhere set their flag; nothing clears it. */
  lemma {:induction false} RunFlags(a: Args, ts: seq<Token>, env: Env)
    requires Run(a, ts, env).Ok?
    ensures Run(a, ts, env).value.literal <==> a.literal || HasCmd(ts, "literal")
    ensures Run(a, ts, env).value.inline <==> a.inline || HasCmd(ts, "inline")
    decreases |ts|
  {
    if ts != [] {
      var b := Apply(a, ts[0], env).value;
      RunFlags(b, ts[1..], env);
      HasCmdCons(ts, "literal");
      HasCmdCons(ts, "inline");
    }
  }

  /** A string as a list of words: none when empty. */
  function Words(acc: string): seq<string>
  {
    if acc == "" then [] else [acc]
  }

  function ClassNames(ts: seq<Token>): seq<string>
  {
    if ts == [] then [] else (if ts[0].ClassTok? then [ts[0].name] else []) + ClassNames(ts[1..])
  }

  function Texts(ts: seq<Token>): seq<string>
  {
    if ts == [] then [] else (if ts[0].TextTok? then [ts[0].text] else []) + Texts(ts[1..])
  }

  /** Appending a word to a truthy accumulator is joining one more word. */
  lemma AppendJoin(acc: string, w: string, rest: seq<string>)
    requires acc != "0" && Truthy(w)
    ensures Join(Words(AppendWord(acc, w)) + rest, " ") == Join(Words(acc) + [w] + rest, " ")
  {
    if acc == "" {
      assert Words(acc) + [w] + rest == [w] + rest;
    } else {
      assert Words(acc) + [w] + rest == [acc, w] + rest;
      var x := [acc + " " + w] + rest;
      var y := [acc, w] + rest;
      if rest == [] {
        assert Join(y, " ") == acc + " " + Join(y[1..], " ");
        assert y[1..] == [w];
      } else {
        assert y[1..] == [w] + rest && ([w] + rest)[1..] == rest && x[1..] == rest;
        assert Join(y, " ") == acc + " " + (w + " " + Join(rest, " "));
        assert Join(x, " ") == (acc + " " + w) + " " + Join(rest, " ");
      }
    }
  }

  /** Only a class token changes the classes, only a text token the text. */
  lemma ApplyWords(a: Args, t: Token, env: Env)
    requires Apply(a, t, env).Ok?
    ensures Apply(a, t, env).value.classes == if t.ClassTok? then AppendWord(a.classes, t.name) else a.classes
    ensures Apply(a, t, env).value.text == if t.TextTok? then AppendWord(a.text, t.text) else a.text
  {
  }

  /** Classes are joined with single spaces, in order, when none of them
      (and no class already collected) is the falsy string "0". */
  lemma {:induction false} RunClasses(a: Args, ts: seq<Token>, env: Env)
    requires Run(a, ts, env).Ok?
    requires a.classes != "0"
    requires forall i :: 0 <= i < |ts| && ts[i].ClassTok? ==> Truthy(ts[i].name)
    ensures Run(a, ts, env).value.classes == Join(Words(a.classes) + ClassNames(ts), " ")
    decreases |ts|
  {
    if ts == [] {
      assert Words(a.classes) + [] == Words(a.classes);
    } else {
      var b := Apply(a, ts[0], env).value;
      ApplyWords(a, ts[0], env);
      assert b.classes != "0" by {
        if ts[0].ClassTok? {
          assert Truthy(ts[0].name);
        }
      }
      RunClasses(b, ts[1..], env);
      if ts[0].ClassTok? {
        AppendJoin(a.classes, ts[0].name, ClassNames(ts[1..]));
        assert Words(a.classes) + [ts[0].name] + ClassNames(ts[1..]) == Words(a.classes) + ClassNames(ts);
      } else {
        assert ClassNames(ts) == ClassNames(ts[1..]);
      }
    }
  }

  /** Text is the words and quoted strings joined with single spaces, in
      order, when none of them (and no text already collected) is falsy. */
  lemma {:induction false} RunText(a: Args, ts: seq<Token>, env: Env)
    requires Run(a, ts, env).Ok?
    requires a.text != "0"
    requires forall i :: 0 <= i < |ts| && ts[i].TextTok? ==> Truthy(ts[i].text)
    ensures Run(a, ts, env).value.text == Join(Words(a.text) + Texts(ts), " ")
    decreases |ts|
  {
    if ts == [] {
      assert Words(a.text) + [] == Words(a.text);
    } else {
      var b := Apply(a, ts[0], env).value;
      ApplyWords(a, ts[0], env);
      assert b.text != "0" by {
        if ts[0].TextTok? {
          assert Truthy(ts[0].text);
        }
      }
      RunText(b, ts[1..], env);
      if ts[0].TextTok? {
        AppendJoin(a.text, ts[0].text, Texts(ts[1..]));
        assert Words(a.text) + [ts[0].text] + Texts(ts[1..]) == Words(a.text) + Texts(ts);
      } else {
        assert Texts(ts) == Texts(ts[1..]);
      }
    }
  }

  /** `parseInlineBlockArguments` in terms of the tokens of its argument
      string: it fails only for `!lang` without an active language; the
      misc attributes are the `key=value` tokens in order, the last `#id`
      wins, `!literal` and `!inline` set their flags, and the attribute
      text renders the attribute array. */
  lemma ParseArgsFields(str: string, env: Env)
    ensures var ts := Lex(ReplaceAll(str, "&lt;", "<"));
      ParseArgs(str, env).Err? <==> env.language.None? && HasCmd(ts, "lang")
    ensures var ts := Lex(ReplaceAll(str, "&lt;", "<"));
      ParseArgs(str, env).Ok? ==>
        var b := ParseArgs(str, env).value;
        b.attr == AttrsOf(ts) &&
        (b.literal <==> HasCmd(ts, "literal")) && (b.inline <==> HasCmd(ts, "inline")) &&
        ((forall i :: 0 <= i < |ts| ==> !ts[i].IdTok?) ==> b.id == "") &&
        (forall i :: 0 <= i < |ts| && ts[i].IdTok? && (forall j :: i < j < |ts| ==> !ts[j].IdTok?) ==>
          b.id == ts[i].id) &&
        b.htmlAttrs == AttrsText(b.htmlAttrArray)
  {
    var ts := Lex(ReplaceAll(str, "&lt;", "<"));
    RunFails(Initial, ts, env);
    if Run(Initial, ts, env).Ok? {
      RunAttr(Initial, ts, env);
      assert [] + AttrsOf(ts) == AttrsOf(ts);
      RunFlags(Initial, ts, env);
      RunId(Initial, ts, env);
    }
  }

  /** The `visible` command never hides: the `off`-or-`visible` branch of
      `_parseMetaCmds` is never reached for `visible`. */
  lemma VisibleNeverHides(a: Args, arg: string, env: Env)
    ensures ApplyMeta(a, "visible", arg, env).Ok?
    ensures ApplyMeta(a, "visible", arg, env).value.style == a.style
  {
  }

  /** `!role=x` hides the element from a remote visitor nobody is logged
      in as, whatever the role asked for. */
  lemma RoleHidesFromAnonymous(a: Args, arg: string, env: Env)
    requires !env.visitor.isLocalhost && env.visitor.user == Permission.NoUser
    ensures ApplyMeta(a, "role", arg, env) == Ok(a.(tag := "skip"))
  {
    var query := "role=" + arg;
    var q := Lower(query);
    assert q[0] == LowerChar(query[0]) == 'r';
    assert q != "anybody" && q != "anyone" && q != "notloggedin" && q != "anon";
    assert !StartsWith(q, "user=");
    Permission.AnonymousVisitor(query, env.visitor.isLocalhost, env.visitor.debugOverride, true);
  }

  /** `!visible=anybody` keeps the element for every visitor, and
      `!visible=nobody` (or an empty argument) hides it from every visitor. */
  lemma VisibleWords(a: Args, env: Env)
    ensures ApplyMeta(a, "visible", "anybody", env) == Ok(a)
    ensures ApplyMeta(a, "visible", "nobody", env) == Ok(a.(tag := "skip"))
    ensures ApplyMeta(a, "visible", "", env) == Ok(a.(tag := "skip"))
  {
    Permission.EvaluateWords("anybody", env.visitor, true);
    Permission.EvaluateWords("nobody", env.visitor, true);
    Permission.EvaluateWords("", env.visitor, true);
  }

  /** An expired `!showtill` and a pending `!showfrom` both hide the
      element and mark it for no language; otherwise nothing changes. */
  lemma ScheduleHides(a: Args, arg: string, env: Env)
    ensures var r := ApplyMeta(a, "showtill", arg, env);
      r.Ok? && (SecondsUntil(env, arg) < 0 <==> r.value.tag == "skip" && r.value.lang == "none" && r.value.style == Hide(a.style)) &&
      (SecondsUntil(env, arg) >= 0 ==> r.value == a)
    ensures var r := ApplyMeta(a, "showfrom", arg, env);
      r.Ok? && (SecondsUntil(env, arg) > 0 <==> r.value.tag == "skip" && r.value.lang == "none" && r.value.style == Hide(a.style)) &&
      (SecondsUntil(env, arg) <= 0 ==> r.value == a)
  {
  }

  /** A `key:` followed by nothing or by `;`, or a `key=` followed by
      neither a closed quote nor a word: the case that makes no progress as
      written. */
  predicate Stalls(s: string)
  {
    s != [] && IsAlpha(s[0]) && KeyLen(s) < |s| &&
    var rest := KeyRest(s, KeyLen(s));
    (s[KeyLen(s)] == ':' && (rest == [] || rest[0] == ';')) ||
    (s[KeyLen(s)] == '=' && (rest == [] || (QuotedValue(rest).None? && !IsWordOrDash(rest[0]))))
  }

  /** A key stalls exactly when no value can be read after it. */
  lemma StallsIff(s: string)
    requires s != [] && IsAlpha(s[0])
    ensures Stalls(s) <==> LetterScan(s).1.None?
  {
    var k := KeyLen(s);
    if k < |s| && s[k] == ':' {
      KeyRestHead(s, k);
      StyleStall(KeyRest(s, k));
    } else if k < |s| && s[k] == '=' {
      AttrStall(KeyRest(s, k));
    }
  }

  /** What follows a key's separator starts with no space. */
  lemma KeyRestHead(s: string, k: nat)
    requires k < |s|
    ensures KeyRest(s, k) == [] || !IsSpace(KeyRest(s, k)[0])
  {
    var j := k + 1 + Span(s, k + 1, IsSpace);
    var rest := KeyRest(s, k);
    if rest != [] {
      assert rest[0] == s[j..][0] == s[j];
    }
  }

  lemma StyleStall(rest: string)
    requires '\n' !in rest && (rest == [] || !IsSpace(rest[0]))
    ensures ValueScan(rest, true).None? <==> rest == [] || rest[0] == ';'
  {
  }

  lemma AttrStall(rest: string)
    requires '\n' !in rest
    ensures ValueScan(rest, false).None? <==> rest == [] || (QuotedValue(rest).None? && !IsWordOrDash(rest[0]))
  {
  }

  /** The reading loop as written ends: no key it meets stalls. */
  predicate ReadsThrough(str: string)
    decreases |str|
  {
    !Truthy(str) ||
    var t := LTrim(str);
    !Stalls(t) && (AsWrittenShrinks(str); ReadsThrough(NextTokenAsWritten(t).1))
  }

  /** Without a stall, a step as written consumes something. */
  lemma AsWrittenShrinks(str: string)
    requires Truthy(str) && !Stalls(LTrim(str))
    ensures |NextTokenAsWritten(LTrim(str)).1| < |str|
  {
    var t := LTrim(str);
    if t != [] && IsAlpha(t[0]) {
      StallsIff(t);
    }
  }

  /** The tokens of an argument string as the source reads them, for a
      string it reads through. */
  function LexAsWritten(str: string): seq<Token>
    requires ReadsThrough(str)
    decreases |str|
  {
    if !Truthy(str) then []
    else
      AsWrittenShrinks(str);
      var r := NextTokenAsWritten(LTrim(str));
      [r.0] + LexAsWritten(r.1)
  }

  /** `parseInlineBlockArguments` as written, for an argument string it
      reads through: quoted text loses the character before its closing
      quote. */
  function ParseArgsAsWritten(str: string, env: Env): Result<BlockArgs>
    requires ReadsThrough(ReplaceAll(str, "&lt;", "<"))
  {
    match Run(Initial, LexAsWritten(ReplaceAll(str, "&lt;", "<")), env)
    case Err(m) => Err(m)
    case Ok(a) => Ok(Finish(a))
  }

  /** Every token the reading loop reads, from `str` on, starts with
      something other than a quote. */
  predicate HeadsUnquoted(str: string)
    decreases |str|
  {
    !Truthy(str) ||
    var t := LTrim(str);
    (t == [] || !IsQuote(t[0])) && HeadsUnquoted(NextToken(t).1)
  }

  /** A step that neither stalls nor reads a quote is the same as written
      and mended. */
  lemma StepAgrees(t: string)
    requires !Stalls(t) && (t == [] || !IsQuote(t[0]))
    ensures NextTokenAsWritten(t) == NextToken(t)
  {
    if t != [] && IsAlpha(t[0]) {
      StallsIff(t);
    }
  }

  /** A string read through without quoted text is read the same as
      written and mended, so both parses agree on it. */
  lemma {:induction false} LexAgrees(str: string)
    requires ReadsThrough(str) && HeadsUnquoted(str)
    ensures LexAsWritten(str) == Lex(str)
    decreases |str|
  {
    if Truthy(str) {
      var t := LTrim(str);
      StepAgrees(t);
      AsWrittenShrinks(str);
      LexAgrees(NextToken(t).1);
    }
  }

  lemma ParseAgrees(str: string, env: Env)
    requires ReadsThrough(ReplaceAll(str, "&lt;", "<")) && HeadsUnquoted(ReplaceAll(str, "&lt;", "<"))
    ensures ParseArgsAsWritten(str, env) == ParseArgs(str, env)
  {
    LexAgrees(ReplaceAll(str, "&lt;", "<"));
  }

  /** A stalled key stops the reading loop as written. */
  lemma StallNeverEnds(str: string)
    requires Truthy(str) && Stalls(LTrim(str))
    ensures !ReadsThrough(str)
  {
  }

  /** `color:` and `k=` stall. */
  lemma StallExamples()
    ensures Stalls("color:") && Stalls("k=") && Stalls("k='v")
  {
    var s := "color:";
    SpanRun(s, 5);
    assert KeyRest(s, 5) == [];
    var t := "k=";
    SpanRun(t, 1);
    assert KeyRest(t, 1) == [];
    UnclosedStall();
  }

  /** `k='v`: the quote is never closed and is no word. */
  lemma UnclosedStall()
    ensures Stalls("k='v")
  {
    var u := "k='v";
    SpanRun(u, 1);
    var rest := KeyRest(u, 1);
    assert Span(u, 2, IsSpace) == 0;
    assert u[2..] == "'v";
    TakeLineWhole("'v");
    assert rest == "'v";
    assert FindChar(rest[1..], '\'') == None;
  }

  lemma SpanRun(s: string, n: nat)
    requires n <= |s| && (n == |s| || !IsWordOrDash(s[n]))
    requires forall i :: 0 <= i < n ==> IsWordOrDash(s[i])
    ensures KeyLen(s) == n
  {
    var k := Span(s, 0, IsWordOrDash);
  }

  /** The character just before the closing quote is lost as written,
      kept when mended. */
  lemma QuoteAsWritten(c: char, s: string, p: nat)
    requires IsQuote(c) && p < |s| && s[p] == c && c !in s[..p]
    ensures FindChar(s, c) == Some(p)
    ensures p > 0 ==> PunctToken(c, s, true) == (TextTok(s[..p - 1]), s[p + 1..])
    ensures PunctToken(c, s, false) == (TextTok(s[..p]), s[p + 1..])
  {
    var r := FindChar(s, c);
    assert r.Some?;
  }

  /** `'ab'` yields the text `a` as written and `ab` mended. */
  lemma QuoteExample()
    ensures PunctToken('\'', "ab'", true).0 == TextTok("a")
    ensures PunctToken('\'', "ab'", false).0 == TextTok("ab")
  {
    var s := "ab'";
    assert s[..2] == "ab" && '\'' !in s[..2];
    QuoteAsWritten('\'', s, 2);
    assert s[..1] == "a";
  }
}
