/** The inline marker parsers of `MarkdownPlus` and their renderers. A
    parser is called on the text that starts at its marker and returns the
    element it reads with the number of characters it consumed, or the
    marker itself as plain text. The text between a pair of markers is
    kept as it is: parsing it further (`parseInline`) and rendering the
    result (`renderAbsy`) are the parent parser's work, given to the
    renderers as the function `inline`. */
module Inline {
  import opened Wrappers
  import opened PhpStrings
  import opened LazyMatch

  /** The elements read between a pair of markers. */
  datatype Kind = Strike | Subscript | Kbd | Superscript | Marked | Inserted | Underlined | DoubleBacktick

  datatype Node =
    | Text(text: string)
    | Styled(kind: Kind, inner: string)
    | Image(spec: string)
    | Link(link: string, linkText: string, title: string)
    | Icon(name: string)

  /** What a parser returns: the element it read and the number of
      characters it consumed. */
  datatype Parsed = Parsed(node: Node, len: nat)

  function MarkerOf(k: Kind): (m: string)
    ensures |m| == 1 || |m| == 2
  {
    match k
    case Strike => "~~"
    case Subscript => "~"
    case Kbd => "^^"
    case Superscript => "^"
    case Marked => "=="
    case Inserted => "++"
    case Underlined => "__"
    case DoubleBacktick => "``"
  }

  /** The most characters the pattern allows between the markers; `.+?`
      allows as many as the text has. */
  function MaxInner(k: Kind, s: string): nat
  {
    match k
    case Subscript => 9
    case Kbd => 5
    case Superscript => 20
    case _ => |s|
  }

  /** `s[open..open + k]` is on one line and is followed by `m`. */
  predicate ClosesAt(s: string, open: nat, m: string, k: nat)
    requires open <= |s|
  {
    k <= Reach(s, open) && OccursAt(s, m, open + k)
  }

  /** The lazy `(.{1,hi}?)m` after an opening marker: the least length on
      one line, at most `hi`, that `m` follows. */
  function Lazy(s: string, open: nat, m: string, hi: nat): (r: Option<nat>)
    requires open <= |s|
    ensures r.Some? ==> 1 <= r.value <= hi && ClosesAt(s, open, m, r.value)
    ensures r.Some? ==> forall k :: 1 <= k < r.value ==> !ClosesAt(s, open, m, k)
    ensures r.None? ==> forall k :: 1 <= k <= hi ==> !ClosesAt(s, open, m, k)
  {
    var g := GroupFrom(Closer(m, hi), s, open, 1);
    assert forall k :: 1 <= k <= hi && ClosesAt(s, open, m, k) ==> Rest(Closer(m, hi), s, open, k).Some?;
    if g.Some? then Some(g.value.0) else None
  }

  /** The pattern may start here: the marker opens the text and, for the
      double backtick, no third backtick follows (`(?!`)`). */
  predicate Opens(k: Kind, s: string)
  {
    StartsWith(s, MarkerOf(k)) && (k == DoubleBacktick ==> !OccursAt(s, "`", 2))
  }

  /** `parseStrike`, `parseSubscript`, `parseKbd`, `parseSuperscript`,
      `parseMarked`, `parseInserted`, `parseUnderlined` and
      `parseDoubleBacktick`: the marker, the fewest characters on one line
      the pattern allows, and the marker again; else the marker as text. */
  function ParseDelimited(k: Kind, s: string): (r: Parsed)
    ensures var m := MarkerOf(k);
      r.node.Text? ==> r == Parsed(Text(m), |m|)
    ensures var m := MarkerOf(k);
      r.node.Styled? ==>
        r.node.kind == k && 1 <= |r.node.inner| <= MaxInner(k, s) && r.len == |m| + |r.node.inner| + |m| &&
        r.len <= |s| && s[..r.len] == m + r.node.inner + m && '\n' !in r.node.inner &&
        forall j :: 1 <= j < |r.node.inner| ==> !ClosesAt(s, |m|, m, j)
    ensures var m := MarkerOf(k);
      r.node.Styled? <==> Opens(k, s) && exists j :: 1 <= j <= MaxInner(k, s) && ClosesAt(s, |m|, m, j)
  {
    var m := MarkerOf(k);
    if Opens(k, s) then
      match Lazy(s, |m|, m, MaxInner(k, s))
      case Some(n) =>
        var inner := s[|m|..|m| + n];
        assert s[..|m| + n + |m|] == s[..|m|] + inner + s[|m| + n..|m| + n + |m|];
        assert '\n' !in inner by {
          forall j | 0 <= j < n
            ensures inner[j] != '\n'
          {
            assert inner[j] == s[|m| + j];
          }
        }
        Parsed(Styled(k, inner), |m| + n + |m|)
      case None => Parsed(Text(m), |m|)
    else Parsed(Text(m), |m|)
  }

  /** Whatever the parser reads, it consumes at least one character and no
      more than the text holds. */
  lemma DelimitedConsumes(k: Kind, s: string)
    requires Opens(k, s)
    ensures 1 <= ParseDelimited(k, s).len <= |s|
  {
  }

  /** Between `m` and `m`, a one-line text with no earlier `m` in it is
      the least length the lazy search accepts. */
  lemma LazyFindsInner(m: string, inner: string, rest: string, hi: nat)
    requires 1 <= |m| && 1 <= |inner| <= hi && '\n' !in inner
    requires forall j :: 0 <= j < |inner| ==> !OccursAt(inner + m, m, j)
    ensures Lazy(m + inner + m + rest, |m|, m, hi) == Some(|inner|)
  {
    var s := m + inner + m + rest;
    var n := |inner|;
    assert ClosesAt(s, |m|, m, n) by {
      assert s[|m| + n..|m| + n + |m|] == m;
      forall j | |m| <= j < |m| + n
        ensures s[j] != '\n'
      {
        assert s[j] == inner[j - |m|];
      }
    }
    forall j | 1 <= j < n
      ensures !ClosesAt(s, |m|, m, j)
    {
      if ClosesAt(s, |m|, m, j) {
        assert (inner + m)[j..j + |m|] == s[|m| + j..|m| + j + |m|];
        assert OccursAt(inner + m, m, j);
      }
    }
  }

  /** Writing the markers around a text and parsing reads that text back,
      provided it fits the pattern's bounds, lies on one line and holds no
      earlier closing marker. */
  lemma DelimitedRoundTrip(k: Kind, inner: string, rest: string)
    requires var m := MarkerOf(k);
      1 <= |inner| <= MaxInner(k, m + inner + m + rest) && '\n' !in inner &&
      (forall j :: 0 <= j < |inner| ==> !OccursAt(inner + m, m, j)) &&
      (k == DoubleBacktick ==> inner[0] != '`')
    ensures var m := MarkerOf(k);
      ParseDelimited(k, m + inner + m + rest).node == Styled(k, inner) &&
      ParseDelimited(k, m + inner + m + rest).len == |m| + |inner| + |m|
  {
    var m := MarkerOf(k);
    var s := m + inner + m + rest;
    DelimitedLayout(k, inner, rest);
    LazyFindsInner(m, inner, rest, MaxInner(k, s));
    DelimitedWins(k, s, |inner|);
  }

  /** The pattern may start at the marker written before a text, and the
      text lies right after that marker. */
  lemma DelimitedLayout(k: Kind, inner: string, rest: string)
    requires 1 <= |inner| && (k == DoubleBacktick ==> inner[0] != '`')
    ensures var m := MarkerOf(k);
      var s := m + inner + m + rest;
      Opens(k, s) && s[|m|..|m| + |inner|] == inner
  {
    var m := MarkerOf(k);
    var s := m + inner + m + rest;
    assert s[..|m|] == m;
    if k == DoubleBacktick {
      assert s[2] == inner[0];
    }
    assert s[|m|..|m| + |inner|] == inner;
  }

  /** What the lazy search finds after an opening marker is the parse. */
  lemma DelimitedWins(k: Kind, s: string, n: nat)
    requires Opens(k, s) && Lazy(s, |MarkerOf(k)|, MarkerOf(k), MaxInner(k, s)) == Some(n)
    ensures var m := MarkerOf(k);
      ParseDelimited(k, s).node == Styled(k, s[|m|..|m| + n]) && ParseDelimited(k, s).len == |m| + n + |m|
  {
  }

  /** `render*` of a marker pair: the element's tag around the rendered
      inner text. */
  function TagOf(k: Kind): string
  {
    match k
    case Strike => "del"
    case Subscript => "sub"
    case Kbd => "kbd"
    case Superscript => "sup"
    case Marked => "mark"
    case Inserted => "ins"
    case Underlined => "u"
    case DoubleBacktick => "samp"
  }

  function RenderSpan(k: Kind, inner: string, inline: string -> string): (html: string)
  {
    "<" + TagOf(k) + ">" + inline(inner) + "</" + TagOf(k) + ">"
  }
}
