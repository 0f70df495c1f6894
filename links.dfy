/** `parseLink` and `renderLink`: a link with an optional title. */
module Links {
  import opened Wrappers
  import opened PhpStrings
  import opened LazyMatch
  import opened Inline

  /** The lengths of a link's text and target, when a link opens the
      text. */
  datatype Bounds = NoLink | Bounds(text: nat, target: nat)

  /** A link target split into the link and its title. */
  datatype Target = Target(link: string, title: string)

  predicate NotBracket(c: char) { c != ']' }

  predicate NotParen(c: char) { c != ')' }

  /** `s` opens with `[text](target)`, `t` characters of text without `]`
      and `u` of target without `)`. */
  ghost predicate LinkAt(s: string, t: nat, u: nat)
  {
    |s| >= 1 && s[0] == '[' && 1 <= t && 1 <= u && 3 + t + u < |s| &&
    s[1 + t] == ']' && s[2 + t] == '(' && s[3 + t + u] == ')' &&
    (forall j :: 1 <= j < 1 + t ==> s[j] != ']') &&
    (forall j :: 3 + t <= j < 3 + t + u ==> s[j] != ')')
  }

  /** The target of a link split into the link and the title: at the
      first white space, with quotes trimmed from both ends of the title;
      without white space, the whole target and no title. */
  function SplitTarget(target: string): (r: Target)
    ensures StartsWith(target, r.link)
    ensures forall i :: 0 <= i < |r.link| ==> !IsSpace(r.link[i])
    ensures r.title == [] || !IsQuote(r.title[0])
  {
    match SplitAtSpace(target)
    case Some((link, title)) => Target(link, TrimBy(title, IsQuote))
    case None => Target(target, "")
  }

  /** The lengths of the text and the target of the link `s` opens with:
      the text runs to the first `]`, the target to the first `)`. */
  function LinkBounds(s: string): (b: Bounds)
    ensures b.Bounds? ==> 1 <= b.text && 1 <= b.target && 3 + b.text + b.target < |s|
  {
    if |s| >= 1 && s[0] == '[' then
      var t := Span(s, 1, NotBracket);
      if 1 <= t && 3 + t <= |s| && s[2 + t] == '(' then
        var u := Span(s, 3 + t, NotParen);
        if 1 <= u && 3 + t + u < |s| then Bounds(t, u) else NoLink
      else NoLink
    else NoLink
  }

  /** The bounds are found exactly when the text opens with a link, and
      they are that link's. */
  lemma LinkBoundsIff(s: string)
    ensures LinkBounds(s).Bounds? ==> LinkAt(s, LinkBounds(s).text, LinkBounds(s).target)
    ensures LinkBounds(s).Bounds? <==> exists t, u :: LinkAt(s, t, u)
  {
    if t: nat, u: nat :| LinkAt(s, t, u) {
      SpanIs(s, 1, t, NotBracket);
      SpanIs(s, 3 + t, u, NotParen);
    }
  }

  /** `parseLink`: `[`, a text without `]`, `](`, a target without `)`
      and `)`, read as the text, the link and the title; else the marker
      `[` as text. */
  function ParseLink(s: string): Parsed
  {
    match LinkBounds(s)
    case Bounds(t, u) => LinkParsed(s, t, u)
    case NoLink => Parsed(Text("["), 1)
  }

  /** The link whose text has `t` characters and whose target has `u`. */
  function LinkParsed(s: string, t: nat, u: nat): Parsed
    requires 3 + t + u < |s|
  {
    var lt := SplitTarget(s[3 + t..3 + t + u]);
    Parsed(Link(lt.link, s[1..1 + t], lt.title), 4 + t + u)
  }

  /** What `ParseLink` reads: the marker alone exactly when no link opens
      the text, else the link `s` opens with, a text without `]` between
      `[` and `](` and a target without `)` up to the `)` that ends it. */
  lemma ParseLinkReads(s: string)
    ensures ParseLink(s).node.Text? <==> !exists t, u :: LinkAt(s, t, u)
    ensures ParseLink(s).node.Text? ==> ParseLink(s) == Parsed(Text("["), 1)
    ensures !ParseLink(s).node.Text? ==>
      exists t, u :: LinkAt(s, t, u) && ParseLink(s) == LinkParsed(s, t, u)
  {
    LinkBoundsIff(s);
    match LinkBounds(s)
    case Bounds(t, u) =>
      assert LinkAt(s, t, u);
      assert ParseLink(s) == LinkParsed(s, t, u);
    case NoLink =>
      assert ParseLink(s) == Parsed(Text("["), 1);
  }

  /** The text `[text](target)` followed by `rest`. */
  function LinkSource(text: string, target: string, rest: string): string
  {
    "[" + text + "](" + target + ")" + rest
  }

  /** The target `url "title"`. */
  function Titled(url: string, title: string): string
  {
    url + " " + ("\"" + title + "\"")
  }

  /** Found bounds give the link. */
  lemma LinkFromBounds(s: string, t: nat, u: nat, text: string, link: string, title: string)
    requires LinkBounds(s) == Bounds(t, u) && 3 + t + u < |s|
    requires s[1..1 + t] == text && SplitTarget(s[3 + t..3 + t + u]) == Target(link, title)
    ensures ParseLink(s).node == Link(link, text, title) && ParseLink(s).len == 4 + t + u
  {
    assert ParseLink(s) == LinkParsed(s, t, u);
  }

  /** Where the pieces of `[text](target)rest` lie. */
  lemma SourceAt(text: string, target: string, rest: string)
    ensures LaidOut(LinkSource(text, target, rest), text, target)
  {
  }

  /** `s` is laid out as `[text](target)` followed by anything. */
  predicate LaidOut(s: string, text: string, target: string)
  {
    var t, u := |text|, |target|;
    |s| >= 4 + t + u && s[0] == '[' && s[1 + t] == ']' && s[2 + t] == '(' && s[3 + t + u] == ')' &&
    (forall j :: 0 <= j < t ==> s[1 + j] == text[j]) &&
    (forall j :: 0 <= j < u ==> s[3 + t + j] == target[j])
  }

  /** A text laid out as `[text](target)` has the bounds of that link. */
  lemma LayoutBounds(s: string, text: string, target: string)
    requires 1 <= |text| && ']' !in text && 1 <= |target|
    requires forall i :: 0 <= i < |target| ==> target[i] != ')'
    requires LaidOut(s, text, target)
    ensures LinkBounds(s) == Bounds(|text|, |target|)
  {
    var t, u := |text|, |target|;
    forall j | 1 <= j < 1 + t
      ensures NotBracket(s[j])
    {
      assert s[1 + (j - 1)] == text[j - 1];
    }
    SpanIs(s, 1, t, NotBracket);
    forall j | 3 + t <= j < 3 + t + u
      ensures NotParen(s[j])
    {
      assert s[3 + t + (j - 3 - t)] == target[j - 3 - t];
    }
    SpanIs(s, 3 + t, u, NotParen);
  }

  /** A text laid out as `[text](target)` opens with that link. */
  lemma LinkFromLayout(s: string, text: string, target: string, link: string, title: string)
    requires 1 <= |text| && ']' !in text && 1 <= |target|
    requires forall i :: 0 <= i < |target| ==> target[i] != ')'
    requires SplitTarget(target) == Target(link, title)
    requires LaidOut(s, text, target)
    ensures ParseLink(s).node == Link(link, text, title) && ParseLink(s).len == |text| + |target| + 4
  {
    var t, u := |text|, |target|;
    assert s[1..1 + t] == text;
    assert s[3 + t..3 + t + u] == target;
    LayoutBounds(s, text, target);
    LinkFromBounds(s, t, u, text, link, title);
  }

  /** `[text](target)rest`, with the target split into the link and
      the title, reads back as that link. */
  lemma LinkOf(text: string, target: string, rest: string, link: string, title: string)
    requires 1 <= |text| && ']' !in text && 1 <= |target|
    requires forall i :: 0 <= i < |target| ==> target[i] != ')'
    requires SplitTarget(target) == Target(link, title)
    ensures ParseLink(LinkSource(text, target, rest)).node == Link(link, text, title)
    ensures ParseLink(LinkSource(text, target, rest)).len == |text| + |target| + 4
  {
    SourceAt(text, target, rest);
    LinkFromLayout(LinkSource(text, target, rest), text, target, link, title);
  }

  /** A target without white space is all link. */
  lemma SplitTargetPlain(url: string)
    requires forall i :: 0 <= i < |url| ==> !IsSpace(url[i])
    ensures SplitTarget(url) == Target(url, "")
  {
  }

  /** `[text](url)` reads back as the link without a title. */
  lemma LinkRoundTrip(text: string, url: string, rest: string)
    requires 1 <= |text| && ']' !in text
    requires 1 <= |url| && forall i :: 0 <= i < |url| ==> !IsSpace(url[i]) && url[i] != ')'
    ensures ParseLink(LinkSource(text, url, rest)).node == Link(url, text, "")
    ensures ParseLink(LinkSource(text, url, rest)).len == |text| + |url| + 4
  {
    SplitTargetPlain(url);
    LinkOf(text, url, rest, url, "");
  }

  /** `[text](url "title")` reads back as the link, its text and the
      title. */
  lemma LinkTitleRoundTrip(text: string, url: string, title: string, rest: string)
    requires 1 <= |text| && ']' !in text
    requires 1 <= |url| && forall i :: 0 <= i < |url| ==> !IsSpace(url[i]) && url[i] != ')'
    requires 1 <= |title| && forall i :: 0 <= i < |title| ==> title[i] != ')' && title[i] != '\n'
    requires !IsQuote(title[0]) && !IsQuote(title[|title| - 1])
    ensures ParseLink(LinkSource(text, Titled(url, title), rest)).node == Link(url, text, title)
    ensures ParseLink(LinkSource(text, Titled(url, title), rest)).len == |text| + |Titled(url, title)| + 4
  {
    TitleTarget(url, title);
    LinkOf(text, Titled(url, title), rest, url, title);
  }

  /** The target `url "title"` splits into the link and the title. */
  lemma TitleTarget(url: string, title: string)
    requires 1 <= |url| && forall i :: 0 <= i < |url| ==> !IsSpace(url[i]) && url[i] != ')'
    requires 1 <= |title| && forall i :: 0 <= i < |title| ==> title[i] != ')' && title[i] != '\n'
    requires !IsQuote(title[0]) && !IsQuote(title[|title| - 1])
    ensures var target := Titled(url, title);
      (forall i :: 0 <= i < |target| ==> target[i] != ')') && SplitTarget(target) == Target(url, title)
  {
    var quoted := "\"" + title + "\"";
    var target := url + " " + quoted;
    forall i | 0 <= i < |quoted|
      ensures quoted[i] != ')' && quoted[i] != '\n'
    {
      if 1 <= i <= |title| {
        assert quoted[i] == title[i - 1];
      }
    }
    forall i | 0 <= i < |target|
      ensures target[i] != ')'
    {
      if i < |url| {
        assert target[i] == url[i];
      } else if i > |url| {
        assert target[i] == quoted[i - |url| - 1];
      }
    }
    SplitAtSpaceOf(url, " ", quoted);
    TrimQuotePair(title);
    assert SplitAtSpace(target) == Some((url, quoted));
  }

  /** Trimming quotes from both ends of a quoted title without quotes at
      its ends gives the title. */
  lemma TrimQuotePair(title: string)
    requires 1 <= |title| && !IsQuote(title[0]) && !IsQuote(title[|title| - 1])
    ensures TrimBy("\"" + title + "\"", IsQuote) == title
  {
    var x := "\"" + title + "\"";
    assert x[1..] == title + "\"" && x[1..][0] == title[0];
    assert LTrimBy(x, IsQuote) == title + "\"";
    var y := title + "\"";
    assert y[..|y| - 1] == title;
    assert RTrimBy(y, IsQuote) == title;
  }

  /** Trimming quotes from a text that neither starts nor ends with one
      leaves it. */
  lemma TrimNoQuotes(x: string)
    requires 1 <= |x| && !IsQuote(x[0]) && !IsQuote(x[|x| - 1])
    ensures TrimBy(x, IsQuote) == x
  {
    var l := LTrimBy(x, IsQuote);
    assert l == x;
    var r := RTrimBy(x, IsQuote);
    assert r == x;
  }

  /** `preg_replace('/^ ([\'"]) (.*) \1 $/x', "$2", $title)`: a title
      between a pair of the same quote loses the pair; `$` also matches
      before a final line feed, which stays. */
  function StripQuotePair(x: string): (r: string)
    ensures |r| <= |x|
    ensures x == [] || !IsQuote(x[0]) ==> r == x
  {
    if |x| >= 2 && IsQuote(x[0]) && x[|x| - 1] == x[0] && '\n' !in x[1..|x| - 1] then x[1..|x| - 1]
    else if |x| >= 3 && IsQuote(x[0]) && x[|x| - 1] == '\n' && x[|x| - 2] == x[0] && '\n' !in x[1..|x| - 2] then
      x[1..|x| - 2] + "\n"
    else x
  }

  /** The quotes of a pair go, with the line feed after them kept. */
  lemma StripQuotePairOf(q: char, m: string)
    requires IsQuote(q) && '\n' !in m
    ensures StripQuotePair([q] + m + [q]) == m
    ensures StripQuotePair([q] + m + [q] + "\n") == m + "\n"
  {
    var x := [q] + m + [q];
    assert x[1..|x| - 1] == m;
    var y := x + "\n";
    assert y[1..|y| - 2] == m;
    assert y[|y| - 1] == '\n' && y[|y| - 2] == q;
  }

  /** A title the parser produced never starts with a quote, so
      `renderLink` leaves it as it is. */
  lemma StripParsedTitle(s: string)
    requires ParseLink(s).node.Link?
    ensures StripQuotePair(ParseLink(s).node.title) == ParseLink(s).node.title
  {
  }

  /** `renderLink`: an `a` element to the link with its quotes trimmed,
      with a `title` attribute when the title is true for PHP. */
  function LinkHtml(link: string, text: string, title: string): (html: string)
  {
    var title' := StripQuotePair(title);
    var attr := if Truthy(title') then " title='" + title' + "'" else "";
    "<a href='" + TrimBy(link, IsQuote) + "'" + attr + ">" + text + "</a>"
  }

  /** A link and a title without quotes at their ends render as they
      are, the title as an attribute when PHP finds it true. */
  lemma TitledHtml(link: string, text: string, title: string)
    requires 1 <= |link| && !IsQuote(link[0]) && !IsQuote(link[|link| - 1])
    requires 1 <= |title| && !IsQuote(title[0]) && title != "0"
    ensures LinkHtml(link, text, title) == "<a href='" + link + "'" + (" title='" + title + "'") + ">" + text + "</a>"
  {
    TrimNoQuotes(link);
  }

  /** A link written with a title renders as an `a` element with that
      title. */
  lemma LinkTitleHtml(text: string, url: string, title: string, rest: string)
    requires 1 <= |text| && ']' !in text
    requires 1 <= |url| && forall i :: 0 <= i < |url| ==> !IsSpace(url[i]) && url[i] != ')'
    requires !IsQuote(url[0]) && !IsQuote(url[|url| - 1])
    requires 1 <= |title| && forall i :: 0 <= i < |title| ==> title[i] != ')' && title[i] != '\n'
    requires !IsQuote(title[0]) && !IsQuote(title[|title| - 1]) && title != "0"
    ensures var n := ParseLink(LinkSource(text, Titled(url, title), rest)).node;
      n.Link? && LinkHtml(n.link, n.linkText, n.title) ==
      "<a href='" + url + "'" + (" title='" + title + "'") + ">" + text + "</a>"
  {
    LinkTitleRoundTrip(text, url, title, rest);
    TitledHtml(url, text, title);
  }
}
