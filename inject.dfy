/** Attribute injection: `{: ...}` instructions written next to (or on the
    line before) an HTML tag are parsed with `parseInlineBlockArguments`
    and merged into that tag (`catchAndInjectTagAttributes` and its helper
    `applyAttributes`). */
module Inject {
  import opened Wrappers
  import opened PhpStrings
  import Attributes
  import opened DivBlocks

  // ---------------------------------------------------------------------
  // applyAttributes

  /** The opening tag of `line` without its `>`: cut at the first `>` when
      that is not the first character, with a self-closing `/` and
      trailing white space dropped; the whole line otherwise. */
  function ElemOf(line: string): (r: string)
    ensures |r| <= |line| && r == line[..|r|]
  {
    match FindChar(line, '>')
    case None => line
    case Some(p) =>
      if p == 0 then line
      else if line[p - 1] == '/' then RTrim(line[..p - 1])
      else RTrim(line[..p])
  }

  /** What follows the tag: the trimmed line without the tag's length,
      empty when the tag is longer. */
  function RestOf(line: string, tag: string): (r: string)
    ensures EndsWith(Trim(line), r)
  {
    var t := Trim(line);
    if |tag| <= |t| then t[|tag|..] else ""
  }

  /** The first `'` or `"` from `from` on, provided no line feed comes
      first: the end of `.*?['"]`. */
  function CloseQuote(s: string, from: nat): (r: Option<nat>)
    requires from <= |s|
    ensures r.Some? ==> from <= r.value < |s| && IsQuote(s[r.value])
    ensures r.Some? ==> forall k :: from <= k < r.value ==> !IsQuote(s[k]) && s[k] != '\n'
    decreases |s| - from
  {
    if from == |s| || s[from] == '\n' then None
    else if IsQuote(s[from]) then Some(from)
    else CloseQuote(s, from + 1)
  }

  /** `\sid=['"]` opens at `i`. */
  predicate IdOpensAt(s: string, i: nat)
  {
    i + 5 <= |s| && IsSpace(s[i]) && s[i + 1..i + 4] == "id=" && IsQuote(s[i + 4])
  }

  /** Where a pattern matched: `s[start..end]`. */
  datatype Found = Found(start: nat, end: nat)

  /** The leftmost match of `\sid=['"].*?['"]` from `i` on. */
  function IdMatch(s: string, i: nat): (r: Option<Found>)
    requires i <= |s|
    ensures r.Some? ==> i <= r.value.start && r.value.start + 6 <= r.value.end <= |s|
    ensures r.Some? ==> IdOpensAt(s, r.value.start) && IsQuote(s[r.value.end - 1])
    decreases |s| - i
  {
    if i + 5 > |s| then None
    else if IdOpensAt(s, i) && CloseQuote(s, i + 5).Some? then Some(Found(i, CloseQuote(s, i + 5).value + 1))
    else IdMatch(s, i + 1)
  }

  /** The `id` step: every copy of the first `id='...'` attribute found is
      removed, then the new one is appended. */
  function WithId(elem: string, v: string): (r: string)
    ensures EndsWith(r, " id='" + v + "'")
  {
    var base := match IdMatch(elem, 0)
      case None => elem
      case Some(f) => ReplaceAll(elem, elem[f.start..f.end], "");
    EndsWithConcat(base, " id='" + v + "'");
    base + " id='" + v + "'"
  }

  /** `preg_replace("/(key=['\"])/", "$1" . ins, ...)`: `ins` is inserted
      after every `key=` that is followed by a quote. */
  function InsertAfter(s: string, key: string, ins: string): string
    requires key != []
    decreases |s|
  {
    if |s| == 0 then s
    else if OccursAt(s, key, 0) && |key| < |s| && IsQuote(s[|key|]) then
      s[..|key| + 1] + ins + InsertAfter(s[|key| + 1..], key, ins)
    else [s[0]] + InsertAfter(s[1..], key, ins)
  }

  /** The `class` and `style` steps: the value goes in front of the values
      of an attribute already there, or is appended as a new attribute. */
  function Merged(elem: string, key: string, v: string): string
  {
    if Contains(elem, key + "=") then InsertAfter(elem, key + "=", v + " ")
    else elem + " " + key + "='" + v + "'"
  }

  predicate IsSemiOrSpace(c: char)
  {
    c == ';' || c == ' '
  }

  /** A style value ends with exactly one `; `. */
  function StyleValue(s: string): (r: string)
    ensures EndsWith(r, "; ")
  {
    var t := RTrimBy(s, IsSemiOrSpace);
    EndsWithConcat(t, "; ");
    t + "; "
  }

  /** A misc attribute as written out: under its position in the list (the
      keys of a PHP list are its indexes), or, corrected, as itself. */
  function MiscAttr(k: nat, v: string, rd: Reading): string
  {
    if rd.AsWritten? then NatToString(k) + "='" + v + "'" else v
  }

  /** One misc attribute: appended unless the tag has it already. */
  function MiscStep(elem: string, x: string): string
  {
    if Contains(elem, x) then elem else elem + " " + x
  }

  /** The misc-attributes loop from entry `k` on. */
  function AddMisc(elem: string, attr: seq<string>, k: nat, rd: Reading): string
    requires k <= |attr|
    decreases |attr| - k
  {
    if k == |attr| then elem
    else AddMisc(MiscStep(elem, MiscAttr(k, attr[k], rd)), attr, k + 1, rd)
  }

  /** The id, class and style steps. */
  function Merge3(elem: string, a: Attributes.BlockArgs): string
  {
    var e1 := if Truthy(a.id) then WithId(elem, a.id) else elem;
    var e2 := if Truthy(a.classes) then Merged(e1, "class", a.classes) else e1;
    if Truthy(a.style) then Merged(e2, "style", StyleValue(a.style)) else e2
  }

  /** `applyAttributes` with the parsed arguments: `tag=skip` drops the
      line; otherwise id, class, style and misc attributes are merged into
      the opening tag and the rest of the line follows it. */
  function Applied(line: string, a: Attributes.BlockArgs, tag: string, rd: Reading): string
  {
    if a.tag == "skip" then ""
    else AddMisc(Merge3(ElemOf(line), a), a.attr, 0, rd) + ">" + RestOf(line, tag)
  }

  /** `parseInlineBlockArguments`, which reads the instruction text. */
  function Parser(env: Attributes.Env): string -> Result<Attributes.BlockArgs>
  {
    s => Attributes.ParseArgs(s, env)
  }

  /** `applyAttributes`: the instruction text is parsed first; a parse
      error is passed on. */
  function ApplyAttrs(line: string, attribs: string, tag: string,
                      parse: string -> Result<Attributes.BlockArgs>, rd: Reading): Result<string>
  {
    match parse(attribs)
    case Err(m) => Err(m)
    case Ok(a) => Ok(Applied(line, a, tag, rd))
  }

  /** The body of `applyAttributes` once the arguments are parsed, with its
      loop over the misc attributes. */
  method ApplyParsed(line: string, a: Attributes.BlockArgs, tag: string, rd: Reading) returns (r: string)
    ensures r == Applied(line, a, tag, rd)
  {
    var elem := ElemOf(line);
    var rest := RestOf(line, tag);
    if a.tag == "skip" {
      return "";
    }
    elem := MergeAttributes(elem, a);
    ghost var e3 := elem;
    for k := 0 to |a.attr|
      invariant AddMisc(elem, a.attr, k, rd) == AddMisc(e3, a.attr, 0, rd)
    {
      var x := MiscAttr(k, a.attr[k], rd);
      if !Contains(elem, x) {
        elem := elem + " " + x;
      }
    }
    r := elem + ">" + rest;
  }

  /** The id, class and style steps of `applyAttributes`. */
  method MergeAttributes(elem: string, a: Attributes.BlockArgs) returns (r: string)
    ensures r == Merge3(elem, a)
  {
    r := elem;
    if Truthy(a.id) {
      r := WithId(r, a.id);
    }
    if Truthy(a.classes) {
      r := Merged(r, "class", a.classes);
    }
    if Truthy(a.style) {
      r := Merged(r, "style", StyleValue(a.style));
    }
  }

  /** `applyAttributes`. */
  method ApplyAttributes(line: string, attribs: string, tag: string,
                         parse: string -> Result<Attributes.BlockArgs>, rd: Reading) returns (r: Result<string>)
    ensures r == ApplyAttrs(line, attribs, tag, parse, rd)
  {
    var parsed := parse(attribs);
    if parsed.Err? {
      return Err(parsed.msg);
    }
    var v := ApplyParsed(line, parsed.value, tag, rd);
    r := Ok(v);
  }

  /** The arguments that ask for nothing. */
  predicate NothingAsked(a: Attributes.BlockArgs)
  {
    a.tag != "skip" && !Truthy(a.id) && !Truthy(a.classes) && !Truthy(a.style) && a.attr == []
  }

  /** A line opening with a tag: the tag's text is cut at its `>`. */
  lemma ElemOfTagLine(name: string, text: string)
    requires |name| > 0 && '>' !in name && name[|name| - 1] != '/' && !IsTrimChar(name[|name| - 1])
    ensures ElemOf("<" + name + ">" + text) == "<" + name
  {
    var head := "<" + name;
    var line := head + ">" + text;
    assert line == head + ['>'] + text;
    FindFirstAfterPrefix(head, '>', text);
    assert line[|head| - 1] == name[|name| - 1];
    assert line[..|head|] == head + [];
    RTrimSuffix(head, [], IsTrimChar);
  }

  /** A line opening with `<` and closing with a character `trim` keeps is
      its own trim. */
  lemma TrimKeeps(line: string)
    requires |line| > 0 && line[0] == '<' && !IsTrimChar(line[|line| - 1])
    ensures Trim(line) == line
  {
    assert line == [] + line;
    LTrimPrefix([], line, IsTrimChar);
    assert line + [] == line;
    RTrimSuffix(line, [], IsTrimChar);
  }

  /** A line that opens with its tag comes back unchanged when nothing is
      to be injected. */
  lemma NothingAskedKeepsLine(name: string, text: string, a: Attributes.BlockArgs, rd: Reading)
    requires NothingAsked(a)
    requires |name| > 0 && '>' !in name && name[|name| - 1] != '/' && !IsTrimChar(name[|name| - 1])
    requires text == [] || !IsTrimChar(text[|text| - 1])
    ensures Applied("<" + name + ">" + text, a, "<" + name + ">", rd) == "<" + name + ">" + text
  {
    var tag := "<" + name + ">";
    var line := tag + text;
    ElemOfTagLine(name, text);
    assert line[|line| - 1] == if text == [] then '>' else text[|text| - 1];
    TrimKeeps(line);
    assert line[|tag|..] == text;
    assert RestOf(line, tag) == text;
    assert Merge3("<" + name, a) == "<" + name;
  }

  /** A misc step leaves the attribute in the tag and keeps what was
      there. */
  lemma MiscStepContains(elem: string, x: string)
    ensures Contains(MiscStep(elem, x), x) && StartsWith(MiscStep(elem, x), elem)
  {
    if !Contains(elem, x) {
      var e := elem + " " + x;
      assert e[|elem| + 1..|elem| + 1 + |x|] == x;
      assert OccursAt(e, x, |elem| + 1);
      ContainsIff(e, x);
      assert e[..|elem|] == elem;
    }
  }

  /** The element keeps everything before an appended misc attribute. */
  lemma {:induction false} AddMiscExtends(elem: string, attr: seq<string>, k: nat, rd: Reading)
    requires k <= |attr|
    ensures StartsWith(AddMisc(elem, attr, k, rd), elem)
    decreases |attr| - k
  {
    if k < |attr| {
      var e := MiscStep(elem, MiscAttr(k, attr[k], rd));
      AddMiscExtends(e, attr, k + 1, rd);
      MiscStepContains(elem, MiscAttr(k, attr[k], rd));
      var r := AddMisc(e, attr, k + 1, rd);
      assert r[..|elem|] == r[..|e|][..|elem|];
    }
  }

  /** What a text contains, any text it begins contains too. */
  lemma ContainsExtended(s: string, t: string, p: string)
    requires Contains(s, p) && StartsWith(t, s)
    ensures Contains(t, p)
  {
    var i := IndexOf(s, p, 0).value;
    assert OccursAt(s, p, i);
    assert t[..|s|] == s;
    assert forall k :: i <= k < i + |p| ==> t[k] == t[..|s|][k];
    assert t[i..i + |p|] == s[i..i + |p|];
    assert OccursAt(t, p, i);
    ContainsIff(t, p);
  }

  /** Corrected, each misc attribute from `k` on ends up in the tag. */
  lemma {:induction false} MiscPresentFrom(elem: string, attr: seq<string>, k: nat)
    requires k <= |attr|
    ensures forall i :: k <= i < |attr| ==> Contains(AddMisc(elem, attr, k, Corrected), attr[i])
    decreases |attr| - k
  {
    if k < |attr| {
      var e := MiscStep(elem, attr[k]);
      assert MiscAttr(k, attr[k], Corrected) == attr[k];
      MiscStepContains(elem, attr[k]);
      MiscPresentFrom(e, attr, k + 1);
      AddMiscExtends(e, attr, k + 1, Corrected);
      ContainsExtended(e, AddMisc(e, attr, k + 1, Corrected), attr[k]);
    }
  }

  /** Corrected, every misc attribute asked for is present in the tag. */
  lemma MiscPresent(line: string, a: Attributes.BlockArgs, tag: string)
    requires a.tag != "skip"
    ensures forall i :: 0 <= i < |a.attr| ==> Contains(Applied(line, a, tag, Corrected), a.attr[i])
  {
    var e4 := AddMisc(Merge3(ElemOf(line), a), a.attr, 0, Corrected);
    var r := e4 + ">" + RestOf(line, tag);
    MiscPresentFrom(Merge3(ElemOf(line), a), a.attr, 0);
    assert r[..|e4|] == e4;
    forall i | 0 <= i < |a.attr|
      ensures Contains(r, a.attr[i])
    {
      ContainsExtended(e4, r, a.attr[i]);
    }
  }

  /** As written, an attribute `a='b'` is looked for and appended under
      its index: ` 0='a='b''`, never as `a='b'`. */
  lemma MiscAsWrittenKeyed()
    ensures AddMisc("<p", ["a='b'"], 0, AsWritten) == "<p 0='a='b''"
    ensures AddMisc("<p", ["a='b'"], 0, Corrected) == "<p a='b'"
  {
    var x := MiscAttr(0, "a='b'", AsWritten);
    assert NatToString(0) == "0";
    assert x == "0='a='b''";
    assert !Contains("<p", x);
    assert !Contains("<p", "a='b'");
  }

  /** Everything before the first quoted `key=` is passed over. */
  lemma {:induction false} InsertAfterSkip(s: string, key: string, ins: string, p: nat)
    requires key != [] && p <= |s|
    requires forall j :: 0 <= j < p ==> !OccursAt(s, key, j)
    ensures InsertAfter(s, key, ins) == s[..p] + InsertAfter(s[p..], key, ins)
    decreases p
  {
    if p > 0 {
      assert !OccursAt(s, key, 0);
      forall j | 0 <= j < p - 1
        ensures !OccursAt(s[1..], key, j)
      {
        assert !OccursAt(s, key, j + 1);
        if j + |key| <= |s| - 1 {
          assert s[1..][j..j + |key|] == s[j + 1..j + 1 + |key|];
        }
      }
      InsertAfterSkip(s[1..], key, ins, p - 1);
      assert s[1..][p - 1..] == s[p..];
      assert [s[0]] + s[1..][..p - 1] == s[..p];
    }
  }

  /** At a quoted `key=`, the insertion follows the quote. */
  lemma InsertAfterHere(t: string, key: string, ins: string)
    requires key != [] && OccursAt(t, key, 0) && |key| < |t| && IsQuote(t[|key|])
    ensures StartsWith(InsertAfter(t, key, ins), t[..|key| + 1] + ins)
  {
    var h := t[..|key| + 1] + ins;
    var r := h + InsertAfter(t[|key| + 1..], key, ins);
    assert r[..|h|] == h;
  }

  /** A common head survives putting the same text in front. */
  lemma StartsWithBoth(a: string, b: string, c: string)
    requires StartsWith(b, c)
    ensures StartsWith(a + b, a + c)
  {
    assert (a + b)[..|a| + |c|] == a + b[..|c|];
  }

  /** At a quoted `key=` at `p`, the insertion into the rest from `p`
      follows the quote. */
  lemma InsertAfterAt(elem: string, key: string, ins: string, p: nat)
    requires key != [] && p + |key| < |elem| && OccursAt(elem, key, p) && IsQuote(elem[p + |key|])
    ensures StartsWith(InsertAfter(elem[p..], key, ins), elem[p..p + |key| + 1] + ins)
  {
    var t := elem[p..];
    assert t[..|key|] == elem[p..p + |key|];
    assert t[..|key| + 1] == elem[p..p + |key| + 1];
    InsertAfterHere(t, key, ins);
  }

  /** Two neighbouring slices make one, with a tail kept after. */
  lemma SlicesJoin(s: string, p: nat, q: nat, tail: string)
    requires p <= q <= |s|
    ensures s[..p] + (s[p..q] + tail) == s[..q] + tail
  {
    assert s[..p] + s[p..q] == s[..q];
  }

  /** The insertion lands after the quote of the first quoted `key=`. */
  lemma InsertAfterFirst(elem: string, key: string, ins: string, p: nat)
    requires key != [] && IndexOf(elem, key, 0) == Some(p) && p + |key| < |elem| && IsQuote(elem[p + |key|])
    ensures StartsWith(InsertAfter(elem, key, ins), elem[..p + |key| + 1] + ins)
  {
    InsertAfterSkip(elem, key, ins, p);
    InsertAfterAt(elem, key, ins, p);
    StartsWithBoth(elem[..p], InsertAfter(elem[p..], key, ins), elem[p..p + |key| + 1] + ins);
    SlicesJoin(elem, p, p + |key| + 1, ins);
  }

  /** A class or style value goes in front of the values of the first
      quoted attribute of that name, with everything before it kept. */
  lemma MergedGoesFirst(elem: string, name: string, v: string, p: nat)
    requires IndexOf(elem, name + "=", 0) == Some(p) && p + |name| + 1 < |elem| && IsQuote(elem[p + |name| + 1])
    ensures StartsWith(Merged(elem, name, v), elem[..p + |name| + 2] + v + " ")
  {
    InsertAfterFirst(elem, name + "=", v + " ", p);
    assert elem[..p + |name| + 2] + (v + " ") == elem[..p + |name| + 2] + v + " ";
  }

  // ---------------------------------------------------------------------
  // catchAndInjectTagAttributes: recognising the instructions

  /** The first `c` from `from` on, provided no line feed comes first:
      where a lazy `.*?c` ends. */
  function Upto(s: string, from: nat, c: char): (r: Option<nat>)
    requires from <= |s|
    ensures r.Some? ==> from <= r.value < |s| && s[r.value] == c
    ensures r.Some? ==> forall k :: from <= k < r.value ==> s[k] != c && s[k] != '\n'
    decreases |s| - from
  {
    if from == |s| || (s[from] == '\n' && c != '\n') then None
    else if s[from] == c then Some(from)
    else Upto(s, from + 1, c)
  }

  /** A `c` with no `c` or line feed before it is the one found. */
  lemma {:induction false} UptoReaches(s: string, from: nat, c: char, at: nat)
    requires from <= at < |s| && s[at] == c
    requires forall k :: from <= k < at ==> s[k] != c && s[k] != '\n'
    ensures Upto(s, from, c) == Some(at)
    decreases at - from
  {
    if from < at {
      UptoReaches(s, from + 1, c, at);
    }
  }

  /** The end of the white space from `i` on. */
  function SkipSpaces(s: string, i: nat): (r: nat)
    requires i <= |s|
    ensures i <= r <= |s| && (r == |s| || !IsSpace(s[r]))
    ensures forall k :: i <= k < r ==> IsSpace(s[k])
    decreases |s| - i
  {
    if i < |s| && IsSpace(s[i]) then SkipSpaces(s, i + 1) else i
  }

  /** The start of the white space that ends at `j`. */
  function BackSpaces(s: string, j: nat): (r: nat)
    requires j <= |s|
    ensures r <= j && (r == 0 || !IsSpace(s[r - 1]))
    ensures forall k :: r <= k < j ==> IsSpace(s[k])
    decreases j
  {
    if j > 0 && IsSpace(s[j - 1]) then BackSpaces(s, j - 1) else j
  }

  /** Nothing but white space. */
  predicate AllSpace(s: string)
  {
    forall i :: 0 <= i < |s| ==> IsSpace(s[i])
  }

  /** White space followed by a non-space is skipped exactly. */
  lemma {:induction false} SkipSpacesIs(s: string, i: nat, n: nat)
    requires i <= n <= |s| && (n == |s| || !IsSpace(s[n]))
    requires forall k :: i <= k < n ==> IsSpace(s[k])
    ensures SkipSpaces(s, i) == n
    decreases n - i
  {
    if i < n {
      SkipSpacesIs(s, i + 1, n);
    }
  }

  /** White space after a non-space is stepped back over exactly. */
  lemma {:induction false} BackSpacesIs(s: string, j: nat, n: nat)
    requires n <= j <= |s| && (n == 0 || !IsSpace(s[n - 1]))
    requires forall k :: n <= k < j ==> IsSpace(s[k])
    ensures BackSpaces(s, j) == n
    decreases j - n
  {
    if n < j {
      BackSpacesIs(s, j - 1, n);
    }
  }

  /** A `{:` at `i` that some `}` closes. */
  predicate MarkerAt(line: string, i: nat)
  {
    OccursAt(line, "{:", i) && Upto(line, i + 2, '}').Some?
  }

  /** An instruction `{:...}` in a line: `{:` at `at`, `}` at `close`. */
  datatype Marker = Marker(at: nat, close: nat)

  /** The last closed `{:` before `j`. */
  function LastMarker(line: string, j: nat): (r: Option<Marker>)
    requires j <= |line|
    ensures r.Some? ==> r.value.at < j && MarkerAt(line, r.value.at) &&
                        r.value.close == Upto(line, r.value.at + 2, '}').value
    ensures r.Some? ==> forall i :: r.value.at < i < j ==> !MarkerAt(line, i)
    ensures r.None? ==> forall i :: 0 <= i < j ==> !MarkerAt(line, i)
    decreases j
  {
    if j == 0 then None
    else if MarkerAt(line, j - 1) then Some(Marker(j - 1, Upto(line, j + 1, '}').value))
    else LastMarker(line, j - 1)
  }

  /** `(.*){:(.*?)}(.*)`: the greedy head picks the last closed `{:`, the
      lazy body ends at the first `}` after it. */
  function InlineMarker(line: string): Option<Marker>
  {
    LastMarker(line, |line|)
  }

  /** A marker built into a line is the one found there. */
  lemma MarkerLayout(pre: string, x: string, post: string)
    requires '}' !in x && '\n' !in x && '{' !in x && '{' !in post
    ensures InlineMarker(pre + "{:" + x + "}" + post) == Some(Marker(|pre|, |pre| + 2 + |x|))
  {
    var line := pre + "{:" + x + "}" + post;
    var c := |pre| + 2 + |x|;
    assert line[|pre|..|pre| + 2] == "{:";
    assert forall k :: |pre| + 2 <= k < c ==> line[k] == x[k - |pre| - 2];
    assert line[c] == '}';
    UptoReaches(line, |pre| + 2, '}', c);
    assert MarkerAt(line, |pre|);
    forall j | OccursAt(line, "{:", j)
      ensures line[j] == '{'
    {
      assert line[j] == line[j..j + 2][0];
    }
    forall i | |pre| < i < |line|
      ensures line[i] != '{'
    {
      if i == |pre| + 1 {
        assert line[i] == ':';
      } else if i < c {
        assert line[i] == x[i - |pre| - 2];
      } else if i > c {
        assert line[i] == post[i - c - 1];
      }
    }
  }

  /** `^<p>\s*{:(.*?)}\s*</p>$`: a paragraph holding nothing but an
      instruction; the instruction text. */
  function ParaAttr(line: string): Option<string>
  {
    if |line| >= 7 && StartsWith(line, "<p>") && EndsWith(line, "</p>") then MidAttr(line[3..|line| - 4])
    else None
  }

  /** Between `<p>` and `</p>`: white space, `{:`, the instruction up to the
      last `}`, white space. */
  function MidAttr(mid: string): Option<string>
  {
    var w := SkipSpaces(mid, 0);
    var e := BackSpaces(mid, |mid|);
    if OccursAt(mid, "{:", w) && e >= w + 3 && mid[e - 1] == '}' then Some(mid[w + 2..e - 1])
    else None
  }

  /** The frame of a paragraph is recognised around any text. */
  lemma ParaFrame(mid: string)
    ensures ParaAttr("<p>" + mid + "</p>") == MidAttr(mid)
  {
    var line := "<p>" + mid + "</p>";
    assert line[..3] == "<p>";
    assert line[|line| - 4..] == "</p>";
    assert line[3..|line| - 4] == mid;
  }

  /** An instruction between white space is read back. */
  lemma MidAttrLayout(w1: string, x: string, w2: string)
    requires AllSpace(w1) && AllSpace(w2)
    ensures MidAttr(w1 + "{:" + x + "}" + w2) == Some(x)
  {
    var mid := w1 + "{:" + x + "}" + w2;
    var e := |w1| + 3 + |x|;
    assert mid[|w1|] == '{';
    assert forall k :: 0 <= k < |w1| ==> mid[k] == w1[k];
    SkipSpacesIs(mid, 0, |w1|);
    assert mid[e - 1] == '}';
    assert forall k :: e <= k < |mid| ==> mid[k] == w2[k - e];
    BackSpacesIs(mid, |mid|, e);
    assert mid[|w1|..|w1| + 2] == "{:";
    assert mid[|w1| + 2..e - 1] == x;
  }

  /** An instruction paragraph built from an instruction is read back as
      that instruction. */
  lemma ParaAttrLayout(w1: string, x: string, w2: string)
    requires AllSpace(w1) && AllSpace(w2)
    ensures ParaAttr("<p>" + w1 + "{:" + x + "}" + w2 + "</p>") == Some(x)
  {
    var mid := w1 + "{:" + x + "}" + w2;
    assert "<p>" + w1 + "{:" + x + "}" + w2 + "</p>" == "<p>" + mid + "</p>";
    ParaFrame(mid);
    MidAttrLayout(w1, x, w2);
  }

  /** Where `(\s*)(<.*?>)` matches: the white space before the first `<`
      and the tag up to the first `>` after it. */
  datatype TagHit = TagHit(ws: string, tag: string)

  function TagOf(line: string): Option<TagHit>
  {
    match Upto(line, 0, '<')
    case None => None
    case Some(q) =>
      match Upto(line, q + 1, '>')
      case None => None
      case Some(g) => Some(TagHit(line[BackSpaces(line, q)..q], line[q..g + 1]))
  }

  /** What is found is white space and a tag running from `<` to the first
      `>`. */
  lemma TagOfShape(line: string)
    requires TagOf(line).Some?
    ensures AllSpace(TagOf(line).value.ws)
    ensures var t := TagOf(line).value.tag; |t| >= 2 && t[0] == '<' && t[|t| - 1] == '>' && '>' !in t[..|t| - 1]
  {
    var q := Upto(line, 0, '<').value;
    var g := Upto(line, q + 1, '>').value;
    var b := BackSpaces(line, q);
    assert forall k :: 0 <= k < q - b ==> line[b..q][k] == line[b + k];
    var t := line[q..g + 1];
    assert forall k :: 1 <= k < |t| - 1 ==> t[k] == line[q + k];
  }

  /** A tag built into a line, after white space, is the one found. */
  lemma TagOfLayout(w: string, name: string, rest: string)
    requires AllSpace(w) && '\n' !in w && '>' !in name && '\n' !in name
    ensures TagOf(w + "<" + name + ">" + rest) == Some(TagHit(w, "<" + name + ">"))
  {
    var line := w + "<" + name + ">" + rest;
    var q := |w|;
    var g := |w| + 1 + |name|;
    assert forall k :: 0 <= k < q ==> line[k] == w[k];
    assert line[q] == '<';
    UptoReaches(line, 0, '<', q);
    assert forall k :: q + 1 <= k < g ==> line[k] == name[k - q - 1];
    assert line[g] == '>';
    UptoReaches(line, q + 1, '>', g);
    BackSpacesIs(line, q, 0);
    assert line[0..q] == w;
    assert line[q..g + 1] == "<" + name + ">";
  }

  /** `(?<!\\)<\w+` matches at `i`: a tag opens, not escaped. */
  predicate TagStartAt(s: string, i: nat)
  {
    i + 1 < |s| && s[i] == '<' && IsWord(s[i + 1]) && (i == 0 || s[i - 1] != '\\')
  }

  predicate HasTagStart(s: string)
  {
    exists i :: 0 <= i < |s| && TagStartAt(s, i)
  }

  /** The leading-instruction case: the instruction and the text it
      applies to. */
  datatype Leading = Leading(args: string, body: string)

  /** `\s*(.*)` after the instruction: the white space is skipped; as
      written `(.*)` keeps only the first line, corrected all of the text is
      kept. */
  function LeadBody(after: string, rd: Reading): string
  {
    var body := after[SkipSpaces(after, 0)..];
    if rd.AsWritten? then TakeLine(body) else body
  }

  /** `^\s*{:(.*?)}\s*(.*)`: the text opens with an instruction. */
  function LeadingAttr(str: string, rd: Reading): Option<Leading>
  {
    var w := SkipSpaces(str, 0);
    if OccursAt(str, "{:", w) then
      match Upto(str, w + 2, '}')
      case None => None
      case Some(k) => Some(Leading(str[w + 2..k], LeadBody(str[k + 1..], rd)))
    else None
  }

  /** The instruction at the head of a text is read back. */
  lemma LeadingHead(w1: string, x: string, rest: string, rd: Reading)
    requires AllSpace(w1) && '}' !in x && '\n' !in x
    ensures LeadingAttr(w1 + "{:" + x + "}" + rest, rd) == Some(Leading(x, LeadBody(rest, rd)))
  {
    var str := w1 + "{:" + x + "}" + rest;
    var k := |w1| + 2 + |x|;
    assert forall j :: 0 <= j < |w1| ==> str[j] == w1[j];
    assert str[|w1|] == '{';
    SkipSpacesIs(str, 0, |w1|);
    assert str[|w1|..|w1| + 2] == "{:";
    assert forall j :: |w1| + 2 <= j < k ==> str[j] == x[j - |w1| - 2];
    assert str[k] == '}';
    UptoReaches(str, |w1| + 2, '}', k);
    assert str[k + 1..] == rest;
    assert str[|w1| + 2..k] == x;
  }

  /** The text after the instruction and its white space is kept, as
      written only up to its first line feed. */
  lemma LeadBodyLayout(w2: string, body: string)
    requires AllSpace(w2) && (body == [] || !IsSpace(body[0]))
    ensures LeadBody(w2 + body, Corrected) == body
    ensures LeadBody(w2 + body, AsWritten) == TakeLine(body)
  {
    var after := w2 + body;
    assert forall j :: 0 <= j < |w2| ==> after[j] == w2[j];
    SkipSpacesIs(after, 0, |w2|);
    assert after[|w2|..] == body;
  }

  /** A text opening with an instruction is read back as that instruction
      and the text after it; as written only up to the first line feed. */
  lemma LeadingLayout(w1: string, x: string, w2: string, body: string)
    requires AllSpace(w1) && AllSpace(w2) && '}' !in x && '\n' !in x
    requires body == [] || !IsSpace(body[0])
    ensures LeadingAttr(w1 + "{:" + x + "}" + w2 + body, Corrected) == Some(Leading(x, body))
    ensures LeadingAttr(w1 + "{:" + x + "}" + w2 + body, AsWritten) == Some(Leading(x, TakeLine(body)))
  {
    assert w1 + "{:" + x + "}" + w2 + body == w1 + "{:" + x + "}" + (w2 + body);
    LeadingHead(w1, x, w2 + body, Corrected);
    LeadingHead(w1, x, w2 + body, AsWritten);
    LeadBodyLayout(w2, body);
  }

  /** As written, the lines after the first one that follows a leading
      instruction are lost. */
  lemma LeadingDropsLines()
    ensures LeadingAttr("{:}\na\nb", AsWritten) == Some(Leading("", "a"))
    ensures LeadingAttr("{:}\na\nb", Corrected) == Some(Leading("", "a\nb"))
  {
    var body := "a\nb";
    assert body == "a" + ['\n'] + "b";
    FindFirstAfterPrefix("a", '\n', "b");
    assert TakeLine(body) == "a";
    assert AllSpace("\n");
    assert AllSpace([]);
    assert "{:}\na\nb" == [] + "{:" + "" + "}" + "\n" + body;
    LeadingLayout([], "", "\n", body);
  }

  // ---------------------------------------------------------------------
  // catchAndInjectTagAttributes: the line loop

  /** What one line becomes (nothing when it is removed) and the
      instruction left pending for the next line. */
  datatype Step = Step(kept: seq<string>, attr: string)

  /** The instruction `x` applied to the first tag `h` of `line`. */
  function Injected(line: string, x: string, h: TagHit,
                    parse: string -> Result<Attributes.BlockArgs>, rd: Reading): Result<Step>
  {
    match ApplyAttrs(line, x, h.tag, parse, rd)
    case Err(m) => Err(m)
    case Ok(v) => Ok(Step([h.ws + v], ""))
  }

  /** An instruction inside a line: cut out, then applied to the line's
      first tag, or left pending when there is none. */
  function CutMarker(line: string, m: Marker, parse: string -> Result<Attributes.BlockArgs>, rd: Reading): Result<Step>
    requires m.at + 2 <= m.close < |line|
  {
    var x := line[m.at + 2..m.close];
    var cut := line[..m.at] + line[m.close + 1..];
    match TagOf(cut)
    case None => Ok(Step([cut], x))
    case Some(h) => Injected(cut, x, h, parse, rd)
  }

  /** One turn of the line loop. A pending instruction is applied to the
      line's first tag and is dropped even when there is none; a paragraph
      holding only an instruction is removed and its instruction left
      pending; an instruction inside a line is cut out and applied. */
  function InjectLine(line: string, attr: string, parse: string -> Result<Attributes.BlockArgs>, rd: Reading): Result<Step>
  {
    if Truthy(attr) then
      match TagOf(line)
      case None => Ok(Step([line], ""))
      case Some(h) => Injected(line, attr, h, parse, rd)
    else
      match ParaAttr(line)
      case Some(x) => Ok(Step([], x))
      case None =>
        match InlineMarker(line)
        case None => Ok(Step([line], attr))
        case Some(m) => CutMarker(line, m, parse, rd)
  }

  /** A turn keeps at most one line. */
  lemma InjectLineKeepsOne(line: string, attr: string, parse: string -> Result<Attributes.BlockArgs>, rd: Reading)
    ensures InjectLine(line, attr, parse, rd).Ok? ==> |InjectLine(line, attr, parse, rd).value.kept| <= 1
  {
    if !Truthy(attr) && ParaAttr(line).None? && InlineMarker(line).Some? {
      var m := InlineMarker(line).value;
      var r := CutMarker(line, m, parse, rd);
      assert r.Ok? ==> |r.value.kept| == 1;
    }
  }

  /** Lines in front of a result; an error is passed on. */
  function Then(pre: seq<string>, r: Result<seq<string>>): Result<seq<string>>
  {
    match r
    case Err(m) => Err(m)
    case Ok(t) => Ok(pre + t)
  }

  /** The line loop from line `i` on, with `attr` pending. */
  function InjectFrom(lines: seq<string>, i: nat, attr: string,
                      parse: string -> Result<Attributes.BlockArgs>, rd: Reading): Result<seq<string>>
    requires i <= |lines|
    decreases |lines| - i
  {
    if i == |lines| then Ok([])
    else
      match InjectLine(lines[i], attr, parse, rd)
      case Err(m) => Err(m)
      case Ok(st) => Then(st.kept, InjectFrom(lines, i + 1, st.attr, parse, rd))
  }

  /** The loop never adds lines. */
  lemma {:induction false} InjectFromShrinks(lines: seq<string>, i: nat, attr: string,
                                             parse: string -> Result<Attributes.BlockArgs>, rd: Reading)
    requires i <= |lines|
    ensures InjectFrom(lines, i, attr, parse, rd).Ok? ==> |InjectFrom(lines, i, attr, parse, rd).value| <= |lines| - i
    decreases |lines| - i
  {
    if i < |lines| {
      var s := InjectLine(lines[i], attr, parse, rd);
      InjectLineKeepsOne(lines[i], attr, parse, rd);
      if s.Ok? {
        InjectFromShrinks(lines, i + 1, s.value.attr, parse, rd);
      }
    }
  }

  /** An instruction paragraph holds the `{:` that opens its instruction. */
  lemma ParaAttrMarked(l: string)
    ensures ParaAttr(l).Some? ==> Contains(l, "{:")
  {
    ContainsIff(l, "{:");
    if ParaAttr(l).Some? {
      var mid := l[3..|l| - 4];
      var w := SkipSpaces(mid, 0);
      assert MidAttr(mid).Some?;
      assert OccursAt(mid, "{:", w);
      assert mid[w] == mid[w..w + 2][0];
      assert mid[w + 1] == mid[w..w + 2][1];
      assert l[w + 3] == mid[w] && l[w + 4] == mid[w + 1];
      assert l[w + 3..w + 5] == "{:";
      assert OccursAt(l, "{:", w + 3);
    }
  }

  /** A line without `{:` is neither an instruction paragraph nor holds an
      instruction. */
  lemma NoMarkerLine(l: string)
    requires !Contains(l, "{:")
    ensures ParaAttr(l).None? && InlineMarker(l).None?
  {
    ContainsIff(l, "{:");
    ParaAttrMarked(l);
  }

  /** The loop after one successful turn. */
  lemma InjectFromStep(lines: seq<string>, i: nat, attr: string,
                       parse: string -> Result<Attributes.BlockArgs>, rd: Reading, st: Step)
    requires i < |lines| && InjectLine(lines[i], attr, parse, rd) == Ok(st)
    ensures InjectFrom(lines, i, attr, parse, rd) == Then(st.kept, InjectFrom(lines, i + 1, st.attr, parse, rd))
  {
  }

  /** A line without an instruction, with none pending, is kept as it is. */
  lemma PlainLineKept(l: string, attr: string, parse: string -> Result<Attributes.BlockArgs>, rd: Reading)
    requires !Contains(l, "{:") && !Truthy(attr)
    ensures InjectLine(l, attr, parse, rd) == Ok(Step([l], attr))
  {
    NoMarkerLine(l);
  }

  /** Lines without instructions pass the loop untouched. */
  lemma {:induction false} NoMarkersKept(lines: seq<string>, i: nat, attr: string,
                                         parse: string -> Result<Attributes.BlockArgs>, rd: Reading)
    requires i <= |lines| && !Truthy(attr)
    requires forall k :: i <= k < |lines| ==> !Contains(lines[k], "{:")
    ensures InjectFrom(lines, i, attr, parse, rd) == Ok(lines[i..])
    decreases |lines| - i
  {
    if i < |lines| {
      PlainLineKept(lines[i], attr, parse, rd);
      InjectFromStep(lines, i, attr, parse, rd, Step([lines[i]], attr));
      NoMarkersKept(lines, i + 1, attr, parse, rd);
      assert [lines[i]] + lines[i + 1..] == lines[i..];
    } else {
      assert lines[i..] == [];
    }
  }

  /** An instruction inside a line, with none pending, is cut out of the
      line; it is applied to the first tag of what is left, or left pending
      for the next line when no tag is left. */
  lemma InlineAttrApplied(pre: string, x: string, post: string, attr: string,
                          parse: string -> Result<Attributes.BlockArgs>, rd: Reading)
    requires '}' !in x && '\n' !in x && '{' !in x && '{' !in post
    requires !Truthy(attr) && ParaAttr(pre + "{:" + x + "}" + post).None?
    ensures TagOf(pre + post).None? ==>
              InjectLine(pre + "{:" + x + "}" + post, attr, parse, rd) == Ok(Step([pre + post], x))
    ensures TagOf(pre + post).Some? ==>
              InjectLine(pre + "{:" + x + "}" + post, attr, parse, rd) == Injected(pre + post, x, TagOf(pre + post).value, parse, rd)
  {
    var line := pre + "{:" + x + "}" + post;
    var c := |pre| + 2 + |x|;
    var m := Marker(|pre|, c);
    MarkerLayout(pre, x, post);
    assert InjectLine(line, attr, parse, rd) == CutMarker(line, m, parse, rd);
    CutLayout(pre, x, post);
  }

  /** Cutting the marker out of a line built around it. */
  lemma CutLayout(pre: string, x: string, post: string)
    ensures var line := pre + "{:" + x + "}" + post; var c := |pre| + 2 + |x|;
      line[|pre| + 2..c] == x && line[..|pre|] + line[c + 1..] == pre + post
  {
    var line := pre + "{:" + x + "}" + post;
    var c := |pre| + 2 + |x|;
    assert line[..|pre|] == pre;
    assert line[|pre| + 2..c] == x;
    assert line[c + 1..] == post;
  }

  /** Lines in front of nothing. */
  lemma ThenNothing(r: Result<seq<string>>)
    ensures Then([], r) == r
  {
    if r.Ok? {
      assert [] + r.value == r.value;
    }
  }

  /** Putting lines in front in two goes is putting them in front at once. */
  lemma ThenThen(a: seq<string>, b: seq<string>, r: Result<seq<string>>)
    ensures Then(a, Then(b, r)) == Then(a + b, r)
  {
    if r.Ok? {
      assert a + (b + r.value) == (a + b) + r.value;
    }
  }

  /** A paragraph holding only an instruction disappears, and the
      instruction lands on the first tag of the next line. */
  lemma AttrLineApplied(lines: seq<string>, i: nat, attr: string,
                        parse: string -> Result<Attributes.BlockArgs>, rd: Reading,
                        x: string, h: TagHit, v: string)
    requires i + 1 < |lines| && !Truthy(attr)
    requires ParaAttr(lines[i]) == Some(x) && Truthy(x)
    requires TagOf(lines[i + 1]) == Some(h) && ApplyAttrs(lines[i + 1], x, h.tag, parse, rd) == Ok(v)
    ensures InjectFrom(lines, i, attr, parse, rd) == Then([h.ws + v], InjectFrom(lines, i + 2, "", parse, rd))
  {
    var rest := InjectFrom(lines, i + 2, "", parse, rd);
    assert InjectLine(lines[i + 1], x, parse, rd) == Ok(Step([h.ws + v], ""));
    assert InjectFrom(lines, i + 1, x, parse, rd) == Then([h.ws + v], rest);
    assert InjectLine(lines[i], attr, parse, rd) == Ok(Step([], x));
    ThenNothing(Then([h.ws + v], rest));
  }

  /** The wrapper of the leading-instruction case and of a text without
      tags: a `span` inside a paragraph, a `div` elsewhere. */
  function Wrapped(paragraph: bool, attrs: string, body: string): string
  {
    if paragraph then "<span" + attrs + ">" + body + "</span>"
    else "<div" + attrs + ">" + body + "</div>"
  }

  /** `catchAndInjectTagAttributes` as a function of the text and of
      whether it is compiled as a paragraph. */
  function CatchInject(str: string, paragraph: bool, parse: string -> Result<Attributes.BlockArgs>, rd: Reading): Result<string>
  {
    if !Contains(str, "{:") then Ok(str)
    else
      match LeadingAttr(str, rd)
      case Some(l) =>
        (match parse(l.args)
         case Err(m) => Err(m)
         case Ok(a) => Ok(Wrapped(paragraph, a.htmlAttrs, l.body)))
      case None =>
        var s := if HasTagStart(str) then str else Wrapped(paragraph, "", str);
        match InjectFrom(Split(s, '\n'), 0, "", parse, rd)
        case Err(m) => Err(m)
        case Ok(ls) => Ok(Join(ls, "\n"))
  }

  /** A text without instructions is returned as it is. */
  lemma NoMarkersUnchanged(str: string, paragraph: bool, parse: string -> Result<Attributes.BlockArgs>, rd: Reading)
    requires forall i :: !OccursAt(str, "{:", i)
    ensures CatchInject(str, paragraph, parse, rd) == Ok(str)
  {
    ContainsIff(str, "{:");
  }

  /** One turn of the line loop, as the source performs it. */
  method InjectTurn(line: string, attr: string, parse: string -> Result<Attributes.BlockArgs>)
    returns (r: Result<Step>)
    ensures r == InjectLine(line, attr, parse, AsWritten)
  {
    if Truthy(attr) {
      var hit := TagOf(line);
      if hit.None? {
        return Ok(Step([line], ""));
      }
      var v := ApplyAttributes(line, attr, hit.value.tag, parse, AsWritten);
      if v.Err? {
        return Err(v.msg);
      }
      return Ok(Step([hit.value.ws + v.value], ""));
    }
    var para := ParaAttr(line);
    if para.Some? {
      return Ok(Step([], para.value));
    }
    var m := InlineMarker(line);
    if m.None? {
      return Ok(Step([line], attr));
    }
    var x := line[m.value.at + 2..m.value.close];
    var cut := line[..m.value.at] + line[m.value.close + 1..];
    var hit := TagOf(cut);
    if hit.None? {
      return Ok(Step([cut], x));
    }
    var v := ApplyAttributes(cut, x, hit.value.tag, parse, AsWritten);
    if v.Err? {
      return Err(v.msg);
    }
    r := Ok(Step([hit.value.ws + v.value], ""));
  }

  /** The line loop of `catchAndInjectTagAttributes`. */
  method InjectLines(lines: seq<string>, parse: string -> Result<Attributes.BlockArgs>) returns (r: Result<seq<string>>)
    ensures r == InjectFrom(lines, 0, "", parse, AsWritten)
  {
    var out: seq<string> := [];
    var attr := "";
    var i := 0;
    ThenNothing(InjectFrom(lines, 0, "", parse, AsWritten));
    while i < |lines|
      invariant i <= |lines|
      invariant Then(out, InjectFrom(lines, i, attr, parse, AsWritten)) == InjectFrom(lines, 0, "", parse, AsWritten)
      decreases |lines| - i
    {
      var st := InjectTurn(lines[i], attr, parse);
      if st.Err? {
        return Err(st.msg);
      }
      ThenThen(out, st.value.kept, InjectFrom(lines, i + 1, st.value.attr, parse, AsWritten));
      out := out + st.value.kept;
      attr := st.value.attr;
      i := i + 1;
    }
    assert out + [] == out;
    r := Ok(out);
  }

  /** `catchAndInjectTagAttributes`, reading instructions with
      `parseInlineBlockArguments`. */
  method CatchAndInjectTagAttributes(str: string, paragraph: bool, env: Attributes.Env)
    returns (r: Result<string>)
    ensures r == CatchInject(str, paragraph, Parser(env), AsWritten)
  {
    if !Contains(str, "{:") {
      return Ok(str);
    }
    var lead := LeadingAttr(str, AsWritten);
    if lead.Some? {
      var a := Attributes.ParseInlineBlockArguments(lead.value.args, env);
      if a.Err? {
        return Err(a.msg);
      }
      return Ok(Wrapped(paragraph, a.value.htmlAttrs, lead.value.body));
    }
    var s := str;
    if !HasTagStart(str) {
      s := Wrapped(paragraph, "", str);
    }
    var ls := InjectLines(Split(s, '\n'), Parser(env));
    if ls.Err? {
      return Err(ls.msg);
    }
    r := Ok(Join(ls.value, "\n"));
  }
}
