/** `parseImage` and `renderImage`: the two patterns of an inline image,
    matched with PCRE's backtracking, and the HTML written for the text an
    image was read as. */
module Images {
  import opened Wrappers
  import opened PhpStrings
  import opened LazyMatch
  import opened Inline

  /** `s` opens with an image of text `sp` that is `n` characters long:
      `![`, the text, white space and `)`; the text holds `](` after at
      least one character. */
  ghost predicate ImageText(s: string, sp: string, n: nat)
  {
    StartsWith(s, "![") && |sp| + 3 <= n <= |s| && sp == s[2..|sp| + 2] && s[n - 1] == ')' &&
    (forall j :: |sp| + 2 <= j < n - 1 ==> IsSpace(s[j])) &&
    exists a :: 1 <= a && OccursAt(sp, "](", a)
  }

  lemma ImageTextAt(s: string, a: nat, g: nat, e: nat)
    requires StartsWith(s, "![") && 1 <= a && OccursAt(s, "](", 2 + a)
    requires 4 + a < g < e <= |s| && s[e - 1] == ')'
    requires forall j :: g <= j < e - 1 ==> IsSpace(s[j])
    ensures ImageText(s, s[2..g], e)
  {
    var sp := s[2..g];
    assert s[2 + a] == ']' && s[3 + a] == '(';
    assert sp[a] == ']' && sp[a + 1] == '(';
    assert sp[a..a + 2] == "](";
    assert OccursAt(sp, "](", a);
  }

  /** One form's match: the image's text `alt](target` and the length. */
  function ImageMatch(form: Form, s: string): (r: Option<(string, nat)>)
    requires StartsWith(s, "![")
    ensures r.Some? ==> ImageText(s, r.value.0, r.value.1)
  {
    var g := GroupFrom(AltEnd(form), s, 2, 1);
    if g.Some? then
      var a := g.value.0;
      var t := g.value.1;
      assert OccursAt(s, "](", 2 + a);
      ImageTextAt(s, a, t.0, t.1);
      Some((s[2..t.0], t.1))
    else None
  }

  /** `parseImage`: the quoted form if it matches, else the plain form,
      else the marker `![` as text. */
  function ParseImage(s: string): (r: Parsed)
    ensures r.node.Text? || r.node.Image?
    ensures r.node.Text? ==> r == Parsed(Text("!["), 2)
    ensures r.node.Image? ==> ImageText(s, r.node.spec, r.len)
  {
    if !StartsWith(s, "![") then Parsed(Text("!["), 2)
    else
      var m := ImageMatch(Quoted, s);
      if m.Some? then Parsed(Image(m.value.0), m.value.1)
      else
        var m' := ImageMatch(Plain, s);
        if m'.Some? then Parsed(Image(m'.value.0), m'.value.1)
        else Parsed(Text("!["), 2)
  }

  /** The caption group of `![alt](src "cap")`: the `c` characters up to
      the closing quote. */
  lemma CaptionOf(s: string, c0: nat, c: nat)
    requires 1 <= c && c0 + c + 2 <= |s| && s[c0 + c] == '"' && s[c0 + c + 1] == ')'
    requires forall j :: c0 <= j < c0 + c ==> s[j] != '"' && s[j] != '\n'
    ensures GroupFrom(CaptionEnd('"'), s, c0, 1) == Some((c, (c0 + c + 1, c0 + c + 2)))
  {
    ReachCovers(s, c0, c);
    assert Span(s, c0 + c + 1, IsSpace) == 0;
    assert Rest(CaptionEnd('"'), s, c0, c) == Some((c0 + c + 1, c0 + c + 2));
    forall k | 1 <= k < c
      ensures Rest(CaptionEnd('"'), s, c0, k).None?
    {
      assert s[c0 + k] != '"';
    }
    GroupIs(CaptionEnd('"'), s, c0, c);
  }

  /** The first part `src ` of `![alt](src "cap")`: the `b` characters up
      to the opening quote. */
  lemma QuoteOf(s: string, p: nat, b: nat, c: nat)
    requires 1 <= b && p + b + c + 3 <= |s| && s[p + b] == '"'
    requires forall j :: p <= j < p + b ==> !IsQuote(s[j]) && s[j] != '\n'
    requires GroupFrom(CaptionEnd('"'), s, p + b + 1, 1) == Some((c, (p + b + c + 2, p + b + c + 3)))
    ensures GroupFrom(QuoteEnd, s, p, 1) == Some((b, (p + b + c + 2, p + b + c + 3)))
  {
    ReachCovers(s, p, b);
    assert Rest(QuoteEnd, s, p, b) == Some((p + b + c + 2, p + b + c + 3));
    forall k | 1 <= k < b
      ensures Rest(QuoteEnd, s, p, k).None?
    {
      assert !IsQuote(s[p + k]);
    }
    GroupIs(QuoteEnd, s, p, b);
  }

  /** The alternative text: the `a` characters up to the first `]`, when
      the target after it matches. */
  lemma AltOf(form: Form, s: string, a: nat, g: nat, e: nat)
    requires StartsWith(s, "![") && 1 <= a && 4 + a <= |s| && s[2 + a] == ']' && s[3 + a] == '('
    requires forall j :: 2 <= j < 2 + a ==> s[j] != ']' && s[j] != '\n'
    requires GroupFrom(if form == Quoted then QuoteEnd else ParenEnd, s, 4 + a, 1).Some?
    requires GroupFrom(if form == Quoted then QuoteEnd else ParenEnd, s, 4 + a, 1).value.1 == (g, e)
    ensures ImageMatch(form, s) == Some((s[2..g], e))
  {
    ReachCovers(s, 2, a);
    assert OccursAt(s, "](", 2 + a) by {
      assert s[2 + a..4 + a] == "](";
    }
    assert Rest(AltEnd(form), s, 2, a) == Some((g, e));
    forall k | 1 <= k < a
      ensures Rest(AltEnd(form), s, 2, k).None?
    {
      assert s[2 + k] != ']';
    }
    GroupIs(AltEnd(form), s, 2, a);
  }

  /** An image of the quoted form, given by the lengths of its parts: `a`
      characters of alternative text, `b` up to the opening quote, `c` of
      caption. */
  lemma QuotedImageAt(s: string, sp: string, a: nat, b: nat, c: nat)
    requires 1 <= a && 1 <= b && 1 <= c && a + b + c + 7 <= |s| && sp == s[2..6 + a + b + c]
    requires StartsWith(s, "![") && s[2 + a] == ']' && s[3 + a] == '('
    requires forall j :: 2 <= j < 2 + a ==> s[j] != ']' && s[j] != '\n'
    requires forall j :: 4 + a <= j < 4 + a + b ==> !IsQuote(s[j]) && s[j] != '\n'
    requires s[4 + a + b] == '"' && s[5 + a + b + c] == '"' && s[6 + a + b + c] == ')'
    requires forall j :: 5 + a + b <= j < 5 + a + b + c ==> s[j] != '"' && s[j] != '\n'
    ensures ParseImage(s).node == Image(sp) && ParseImage(s).len == |sp| + 3
  {
    var g, e := 6 + a + b + c, 7 + a + b + c;
    QuotedTarget(s, a, b, c);
    AltOf(Quoted, s, a, g, e);
    assert |sp| + 3 == e;
    QuotedWins(s, sp, e);
  }

  /** The target `src "cap")` of a quoted image, given by the lengths of
      its parts, is one group ending with the caption's group. */
  lemma QuotedTarget(s: string, a: nat, b: nat, c: nat)
    requires 1 <= b && 1 <= c && a + b + c + 7 <= |s|
    requires forall j :: 4 + a <= j < 4 + a + b ==> !IsQuote(s[j]) && s[j] != '\n'
    requires s[4 + a + b] == '"' && s[5 + a + b + c] == '"' && s[6 + a + b + c] == ')'
    requires forall j :: 5 + a + b <= j < 5 + a + b + c ==> s[j] != '"' && s[j] != '\n'
    ensures GroupFrom(QuoteEnd, s, 4 + a, 1) == Some((b, (6 + a + b + c, 7 + a + b + c)))
  {
    var p := 4 + a;
    CaptionOf(s, p + b + 1, c);
    QuoteOf(s, p, b, c);
  }

  /** A match of the quoted form is the parse. */
  lemma QuotedWins(s: string, sp: string, e: nat)
    requires StartsWith(s, "![") && ImageMatch(Quoted, s) == Some((sp, e))
    ensures ParseImage(s).node == Image(sp) && ParseImage(s).len == e
  {
  }

  /** The text `alt](src "cap"` of a captioned image, character by
      character. */
  lemma CaptionTextAt(alt: string, src: string, cap: string)
    requires 1 <= |alt| && ']' !in alt && '\n' !in alt
    requires forall i :: 0 <= i < |src| ==> !IsQuote(src[i]) && src[i] != '\n'
    requires 1 <= |cap| && '"' !in cap && '\n' !in cap
    ensures var sp := CaptionedSpec(alt, src, cap);
      var a, b, c := |alt|, |src| + 1, |cap|;
      |sp| == a + b + c + 4 && sp[a] == ']' && sp[a + 1] == '(' &&
      sp[a + b + 2] == '"' && sp[a + b + c + 3] == '"' &&
      (forall j :: 0 <= j < a ==> sp[j] != ']' && sp[j] != '\n') &&
      (forall j :: a + 2 <= j < a + b + 2 ==> !IsQuote(sp[j]) && sp[j] != '\n') &&
      (forall j :: a + b + 3 <= j < a + b + c + 3 ==> sp[j] != '"' && sp[j] != '\n')
  {
    var tail := CaptionedTarget(src, cap);
    var sp := alt + "](" + tail;
    var a, b, c := |alt|, |src| + 1, |cap|;
    assert tail[|src|] == ' ' && tail[|src| + 1] == '"' && tail[|tail| - 1] == '"';
    forall j | 0 <= j < a
      ensures sp[j] != ']' && sp[j] != '\n'
    {
      assert sp[j] == alt[j];
    }
    forall j | a + 2 <= j < a + b + 2
      ensures !IsQuote(sp[j]) && sp[j] != '\n'
    {
      assert sp[j] == tail[j - a - 2];
      if j < a + 2 + |src| {
        assert tail[j - a - 2] == src[j - a - 2];
      }
    }
    forall j | a + b + 3 <= j < a + b + c + 3
      ensures sp[j] != '"' && sp[j] != '\n'
    {
      assert sp[j] == tail[j - a - 2] == cap[j - a - b - 3];
    }
  }

  /** The image `![alt](src "cap")` reads back as its text. */
  lemma ImageCaptionRoundTrip(alt: string, src: string, cap: string, rest: string)
    requires 1 <= |alt| && ']' !in alt && '\n' !in alt
    requires forall i :: 0 <= i < |src| ==> !IsQuote(src[i]) && src[i] != '\n'
    requires 1 <= |cap| && '"' !in cap && '\n' !in cap
    ensures var sp := CaptionedSpec(alt, src, cap);
      ParseImage("![" + sp + ")" + rest).node == Image(sp) && ParseImage("![" + sp + ")" + rest).len == |sp| + 3
  {
    var sp := CaptionedSpec(alt, src, cap);
    var a, b, c := |alt|, |src| + 1, |cap|;
    var s := "![" + sp + ")" + rest;
    CaptionTextAt(alt, src, cap);
    ImageAround(sp, rest, a, b, c);
    QuotedImageAt(s, sp, a, b, c);
  }

  /** `![alt](src "cap")`, read and rendered, is a figure of the image
      with the caption; a source without `/` is resolved by `fileUrl`. */
  lemma ImageCaptionHtml(alt: string, src: string, cap: string, rest: string, fileUrl: string -> string)
    requires 1 <= |alt| && ']' !in alt && '\n' !in alt && '"' !in alt && '\'' !in alt
    requires 1 <= |src| && ']' !in src && forall i :: 0 <= i < |src| ==> !IsQuote(src[i]) && !IsSpace(src[i])
    requires 1 <= |cap| && ']' !in cap && '"' !in cap && '\'' !in cap && '\n' !in cap && cap != "0"
    ensures var n := ParseImage("![" + CaptionedSpec(alt, src, cap) + ")" + rest).node;
      var url := if Contains(src, "/") then src else fileUrl(src);
      n.Image? && Contains(n.spec, "](") &&
      ImageHtml(ViewOf(n.spec), fileUrl) ==
        "<figure>" + ("<img src='" + url + "' alt='" + alt + "'>") + "<figcaption>" + cap + "</figcaption></figure>"
  {
    forall i | 0 <= i < |src|
      ensures src[i] != '\n'
    {
      assert !IsSpace(src[i]);
    }
    ImageCaptionRoundTrip(alt, src, cap, rest);
    ViewOfCaptioned(alt, src, cap);
    FigureHtml(src, alt, cap, fileUrl);
  }

  /** An image view with a caption is written as a figure. */
  lemma FigureHtml(src: string, alt: string, cap: string, fileUrl: string -> string)
    requires cap != "" && cap != "0"
    ensures ImageHtml(ImageView(src, alt, cap), fileUrl) ==
      "<figure>" + ("<img src='" + (if Contains(src, "/") then src else fileUrl(src)) + "' alt='" + alt + "'>") +
      "<figcaption>" + cap + "</figcaption></figure>"
  {
  }

  /** `![`, a captioned text given by the lengths of its parts, and `)`:
      the facts the quoted pattern needs, at their places in the whole. */
  lemma ImageAround(sp: string, rest: string, a: nat, b: nat, c: nat)
    requires 1 <= a && 1 <= b && 1 <= c && |sp| == a + b + c + 4
    requires sp[a] == ']' && sp[a + 1] == '(' && sp[a + b + 2] == '"' && sp[a + b + c + 3] == '"'
    requires forall j :: 0 <= j < a ==> sp[j] != ']' && sp[j] != '\n'
    requires forall j :: a + 2 <= j < a + b + 2 ==> !IsQuote(sp[j]) && sp[j] != '\n'
    requires forall j :: a + b + 3 <= j < a + b + c + 3 ==> sp[j] != '"' && sp[j] != '\n'
    ensures var s := "![" + sp + ")" + rest;
      a + b + c + 7 <= |s| && StartsWith(s, "![") && s[2..6 + a + b + c] == sp &&
      s[2 + a] == ']' && s[3 + a] == '(' &&
      s[4 + a + b] == '"' && s[5 + a + b + c] == '"' && s[6 + a + b + c] == ')' &&
      (forall j :: 2 <= j < 2 + a ==> s[j] != ']' && s[j] != '\n') &&
      (forall j :: 4 + a <= j < 4 + a + b ==> !IsQuote(s[j]) && s[j] != '\n') &&
      (forall j :: 5 + a + b <= j < 5 + a + b + c ==> s[j] != '"' && s[j] != '\n')
  {
    var s := "![" + sp + ")" + rest;
    assert s[2..6 + a + b + c] == sp;
    assert s[..2] == "![" && s[6 + a + b + c] == ')';
    assert s[2 + a] == sp[a] && s[3 + a] == sp[a + 1];
    assert s[4 + a + b] == sp[a + b + 2] && s[5 + a + b + c] == sp[a + b + c + 3];
    forall j | 2 <= j < 2 + a
      ensures s[j] != ']' && s[j] != '\n'
    {
      assert s[j] == sp[j - 2];
    }
    forall j | 4 + a <= j < 4 + a + b
      ensures !IsQuote(s[j]) && s[j] != '\n'
    {
      assert s[j] == sp[j - 2];
    }
    forall j | 5 + a + b <= j < 5 + a + b + c
      ensures s[j] != '"' && s[j] != '\n'
    {
      assert s[j] == sp[j - 2];
    }
  }

  /** The target `(.+?)\)` of the plain form: the `b` characters up to
      the first `)`. */
  lemma ParenOf(s: string, p: nat, b: nat)
    requires 1 <= b && p + b < |s| && s[p + b] == ')'
    requires forall j :: p <= j < p + b ==> s[j] != ')' && s[j] != '\n'
    ensures GroupFrom(ParenEnd, s, p, 1) == Some((b, (p + b, p + b + 1)))
  {
    ReachCovers(s, p, b);
    forall k | 1 <= k < b
      ensures Rest(ParenEnd, s, p, k).None?
    {
      assert s[p + k] != ')';
    }
    GroupIs(ParenEnd, s, p, b);
  }

  /** Without a quote on the rest of the line, the quoted target cannot
      start. */
  lemma NoQuoteGroup(s: string, p: nat)
    requires p <= |s| && forall j :: p <= j < p + Reach(s, p) ==> !IsQuote(s[j])
    ensures GroupFrom(QuoteEnd, s, p, 1).None?
  {
    forall k | 1 <= k <= Reach(s, p)
      ensures Rest(QuoteEnd, s, p, k).None?
    {
      if k < Reach(s, p) {
        assert !IsQuote(s[p + k]);
      }
    }
  }

  /** The quoted form fails when the text before the first `](` holds no
      `]` and no quote follows it on the line. */
  lemma NoQuotedMatch(s: string, a0: nat)
    requires StartsWith(s, "![") && 2 + a0 <= |s|
    requires forall j :: 2 <= j < 2 + a0 ==> s[j] != ']'
    requires forall j :: 4 + a0 <= j < 2 + Reach(s, 2) ==> !IsQuote(s[j])
    ensures ImageMatch(Quoted, s).None?
  {
    forall a | 1 <= a <= Reach(s, 2)
      ensures Rest(AltEnd(Quoted), s, 2, a).None?
    {
      NoQuotedAt(s, a0, a);
    }
  }

  lemma NoAltCloseAt(s: string, i: nat)
    requires i < |s| && s[i] != ']'
    ensures !OccursAt(s, "](", i)
  {
    if i + 2 <= |s| {
      assert s[i..i + 2][0] == s[i];
    }
  }

  /** One length of the alternative text in `NoQuotedMatch`. */
  lemma NoQuotedAt(s: string, a0: nat, a: nat)
    requires StartsWith(s, "![") && 2 + a0 <= |s| && 1 <= a <= Reach(s, 2)
    requires forall j :: 2 <= j < 2 + a0 ==> s[j] != ']'
    requires forall j :: 4 + a0 <= j < 2 + Reach(s, 2) ==> !IsQuote(s[j])
    ensures AltRest(Quoted, s, 2 + a).None?
  {
    var i := 2 + a;
    if a < a0 {
      NoAltCloseAt(s, i);
    } else if i + 2 <= |s| && OccursAt(s, "](", i) {
      ReachShift(s, 2, i + 2);
      NoQuoteGroup(s, i + 2);
    }
  }

  /** A plain image given by the lengths of its parts: `a` characters of
      alternative text and `b` of target, with no quote after the target
      on the line. */
  lemma PlainImageAt(s: string, sp: string, a: nat, b: nat)
    requires 1 <= a && 1 <= b && a + b + 5 <= |s| && sp == s[2..4 + a + b]
    requires StartsWith(s, "![") && s[2 + a] == ']' && s[3 + a] == '(' && s[4 + a + b] == ')'
    requires forall j :: 2 <= j < 2 + a ==> s[j] != ']' && s[j] != '\n'
    requires forall j :: 4 + a <= j < 4 + a + b ==> s[j] != ')' && s[j] != '\n'
    requires forall j :: 4 + a <= j < 2 + Reach(s, 2) ==> !IsQuote(s[j])
    ensures ParseImage(s).node == Image(sp) && ParseImage(s).len == |sp| + 3
  {
    PlainMatch(s, a, b);
    NoQuotedMatch(s, a);
    PlainWins(s, sp, |sp| + 3);
  }

  /** The plain form matches `![alt](src)` given by the lengths of its
      parts. */
  lemma PlainMatch(s: string, a: nat, b: nat)
    requires 1 <= a && 1 <= b && a + b + 5 <= |s|
    requires StartsWith(s, "![") && s[2 + a] == ']' && s[3 + a] == '(' && s[4 + a + b] == ')'
    requires forall j :: 2 <= j < 2 + a ==> s[j] != ']' && s[j] != '\n'
    requires forall j :: 4 + a <= j < 4 + a + b ==> s[j] != ')' && s[j] != '\n'
    ensures ImageMatch(Plain, s) == Some((s[2..4 + a + b], 5 + a + b))
  {
    ParenOf(s, 4 + a, b);
    AltOf(Plain, s, a, 4 + a + b, 5 + a + b);
  }

  /** A match of the plain form where the quoted form fails is the parse. */
  lemma PlainWins(s: string, sp: string, e: nat)
    requires StartsWith(s, "![") && ImageMatch(Quoted, s).None? && ImageMatch(Plain, s) == Some((sp, e))
    ensures ParseImage(s).node == Image(sp) && ParseImage(s).len == e
  {
  }

  /** The image `![alt](src)`, with no quote in the target nor on the rest
      of the line, reads back as its text. */
  lemma ImagePlainRoundTrip(alt: string, src: string, rest: string)
    requires 1 <= |alt| && ']' !in alt && '\n' !in alt
    requires 1 <= |src| && ')' !in src && '\n' !in src
    requires forall i :: 0 <= i < |src| ==> !IsQuote(src[i])
    requires forall i :: 0 <= i < |TakeLine(rest)| ==> !IsQuote(TakeLine(rest)[i])
    ensures var s := "![" + alt + "](" + src + ")" + rest;
      ParseImage(s).node == Image(alt + "](" + src) && ParseImage(s).len == |alt| + |src| + 5
  {
    var sp := alt + "](" + src;
    var s := "![" + sp + ")" + rest;
    var a, b := |alt|, |src|;
    PlainAround(alt, src, rest);
    PlainImageAt(s, sp, a, b);
  }

  /** The facts the plain pattern needs, at their places in
      `![alt](src)rest`. */
  lemma PlainAround(alt: string, src: string, rest: string)
    requires 1 <= |alt| && ']' !in alt && '\n' !in alt
    requires 1 <= |src| && ')' !in src && '\n' !in src
    requires forall i :: 0 <= i < |src| ==> !IsQuote(src[i])
    requires forall i :: 0 <= i < |TakeLine(rest)| ==> !IsQuote(TakeLine(rest)[i])
    ensures var s := "![" + alt + "](" + src + ")" + rest;
      var a, b := |alt|, |src|;
      "![" + alt + "](" + src + ")" + rest == "![" + (alt + "](" + src) + ")" + rest &&
      StartsWith(s, "![") && s[2..4 + a + b] == alt + "](" + src &&
      s[2 + a] == ']' && s[3 + a] == '(' && s[4 + a + b] == ')' &&
      (forall j :: 2 <= j < 2 + a ==> s[j] != ']' && s[j] != '\n') &&
      (forall j :: 4 + a <= j < 4 + a + b ==> s[j] != ')' && s[j] != '\n') &&
      (forall j :: 4 + a <= j < 2 + Reach(s, 2) ==> !IsQuote(s[j]))
  {
    var s := "![" + alt + "](" + src + ")" + rest;
    var a, b := |alt|, |src|;
    assert s[..2] == "![" && s[2..4 + a + b] == alt + "](" + src;
    assert s[2 + a] == ']' && s[3 + a] == '(' && s[4 + a + b] == ')';
    forall j | 2 <= j < 2 + a
      ensures s[j] != ']' && s[j] != '\n'
    {
      assert s[j] == alt[j - 2];
    }
    forall j | 4 + a <= j < 4 + a + b
      ensures s[j] != ')' && s[j] != '\n'
    {
      assert s[j] == src[j - 4 - a];
    }
    PlainLine(s, alt, src, rest);
  }

  /** No quote on the line of `![alt](src)rest` after `](`. */
  lemma PlainLine(s: string, alt: string, src: string, rest: string)
    requires s == "![" + alt + "](" + src + ")" + rest
    requires '\n' !in alt && '\n' !in src
    requires forall i :: 0 <= i < |src| ==> !IsQuote(src[i])
    requires forall i :: 0 <= i < |TakeLine(rest)| ==> !IsQuote(TakeLine(rest)[i])
    ensures forall j :: 4 + |alt| <= j < 2 + Reach(s, 2) ==> !IsQuote(s[j])
  {
    var a, b := |alt|, |src|;
    var line := TakeLine(rest);
    assert Reach(s, 2) == 3 + a + b + |line| by {
      forall j | 2 <= j < 5 + a + b
        ensures s[j] != '\n'
      {
        if j < 2 + a {
          assert s[j] == alt[j - 2];
        } else if 4 + a <= j < 4 + a + b {
          assert s[j] == src[j - 4 - a];
        }
      }
      ReachCovers(s, 2, 3 + a + b);
      ReachShift(s, 2, 5 + a + b);
      assert s[5 + a + b..] == rest;
      ReachIsLine(s, 5 + a + b);
    }
    forall j | 4 + a <= j < 5 + a + b + |line|
      ensures !IsQuote(s[j])
    {
      if j < 4 + a + b {
        assert s[j] == src[j - 4 - a];
      } else if 5 + a + b <= j {
        assert s[j] == rest[j - 5 - a - b] == line[j - 5 - a - b];
      }
    }
  }

  // ---- rendering images ----

  /** The last `q` at an index in `[2, hi)`. */
  function LastQuote(x: string, q: char, hi: nat): (r: Option<nat>)
    requires hi <= |x|
    ensures r.Some? ==> 2 <= r.value < hi && x[r.value] == q
    ensures r.Some? ==> forall e :: r.value < e < hi ==> x[e] != q
    ensures r.None? ==> forall e :: 2 <= e < hi ==> x[e] != q
    decreases hi
  {
    if hi <= 2 then None
    else if x[hi - 1] == q then Some(hi - 1)
    else LastQuote(x, q, hi - 1)
  }

  /** A match of `/^ (["\']) (.+) \1 \s* /x` replaces the text by its
      second group: after a leading quote, the text up to the last same
      quote on the first line, when there is one past the first character
      after the quote. */
  function Unquoted(x: string): (r: string)
    ensures !(|x| >= 1 && IsQuote(x[0])) ==> r == x
    ensures r == x ||
      (IsQuote(x[0]) && |r| + 2 <= |x| && x[|r| + 1] == x[0] && r == x[1..|r| + 1] && 1 <= |r| && '\n' !in r)
  {
    if |x| >= 1 && IsQuote(x[0]) then
      match LastQuote(x, x[0], 1 + Reach(x, 1))
      case Some(e) =>
        assert forall j :: 0 <= j < e - 1 ==> x[1..e][j] == x[j + 1];
        x[1..e]
      case None => x
    else x
  }

  /** A quote, a one-line text and the same quote lose their quotes, even
      when the text holds that quote too (the group is greedy). */
  lemma UnquotedRoundTrip(q: char, t: string)
    requires IsQuote(q) && 1 <= |t| && '\n' !in t
    ensures Unquoted([q] + t + [q]) == t
  {
    var x := [q] + t + [q];
    forall j | 1 <= j < |x|
      ensures x[j] != '\n'
    {
      if j <= |t| {
        assert x[j] == t[j - 1];
      }
    }
    ReachCovers(x, 1, |t| + 1);
    assert x[1..|t| + 1] == t;
  }

  /** `str_replace(['"', "'"], ['&quot;', '&apos;'], $x)`: no quote is
      left. */
  function EscapeQuotes(x: string): (r: string)
    ensures '"' !in r && '\'' !in r
  {
    var y := ReplaceAll(x, "\"", "&quot;");
    ReplaceRemoves(x, '"', "&quot;");
    ReplaceRemoves(y, '\'', "&apos;");
    ReplaceKeepsOut(y, "'", "&apos;", '"');
    ReplaceAll(y, "'", "&apos;")
  }

  /** A text without quotes is left as it is. */
  lemma EscapeAbsent(x: string)
    requires '"' !in x && '\'' !in x
    ensures EscapeQuotes(x) == x
  {
    ReplaceCharAbsent(x, '"', "&quot;");
    ReplaceCharAbsent(x, '\'', "&apos;");
  }

  /** What `renderImage` takes from an image's text: the source, the
      alternative text and the caption, with the quotes around each taken
      off and the quotes in the alternative text and the caption escaped. */
  datatype ImageView = ImageView(src: string, alt: string, caption: string)

  /** The first two pieces of an image's text cut at `](`. */
  datatype Parts = Parts(alt: string, src: string)

  /** `list($alt, $src) = explode('](', $spec)`: the pieces before the
      first `](` and between it and the next one. */
  function ImageParts(spec: string): (r: Parts)
    requires Contains(spec, "](")
    ensures var i := |r.alt|;
      var n := i + 2 + |r.src|;
      n <= |spec| && OccursAt(spec, "](", i) && r.alt == spec[..i] && r.src == spec[i + 2..n] &&
      (forall j :: j < i ==> !OccursAt(spec, "](", j)) &&
      (forall j :: i + 2 <= j < n ==> !OccursAt(spec, "](", j)) &&
      (n == |spec| || OccursAt(spec, "](", n))
  {
    var i := IndexOf(spec, "](", 0).value;
    var j := match IndexOf(spec, "](", i + 2) case Some(j) => j case None => |spec|;
    Parts(spec[..i], spec[i + 2..j])
  }

  /** `renderImage` up to the HTML: the pieces of the image's text. */
  function ViewOf(spec: string): (r: ImageView)
    requires Contains(spec, "](")
    ensures '"' !in r.alt && '\'' !in r.alt && '"' !in r.caption && '\'' !in r.caption
    ensures SplitAtSpace(Unquoted(ImageParts(spec).src)).None? ==> r.caption == ""
  {
    var parts := ImageParts(spec);
    var src' := Unquoted(parts.src);
    var alt := EscapeQuotes(Unquoted(parts.alt));
    match SplitAtSpace(src')
    case Some((a, c)) => ImageView(Unquoted(a), alt, EscapeQuotes(Unquoted(c)))
    case None => ImageView(src', alt, "")
  }

  /** The HTML `renderImage` writes for a view: an `img` element, inside a
      `figure` with the caption when the caption is true for PHP. A source
      without a `/` is a file of the page, whose address `fileUrl` gives. */
  function ImageHtml(v: ImageView, fileUrl: string -> string): (html: string)
  {
    var src := if Contains(v.src, "/") then v.src else fileUrl(v.src);
    var img := "<img src='" + src + "' alt='" + v.alt + "'>";
    if Truthy(v.caption) then "<figure>" + img + "<figcaption>" + v.caption + "</figcaption></figure>"
    else img
  }

  /** The target `src "cap"` of a captioned image. */
  function CaptionedTarget(src: string, cap: string): string
  {
    src + " " + ("\"" + cap + "\"")
  }

  /** The text `alt](src "cap"` of a captioned image. */
  function CaptionedSpec(alt: string, src: string, cap: string): string
  {
    alt + "](" + CaptionedTarget(src, cap)
  }

  /** The text of `![alt](src "cap")` gives back its source, alternative
      text and caption. */
  lemma ViewOfCaptioned(alt: string, src: string, cap: string)
    requires 1 <= |alt| && ']' !in alt && '"' !in alt && '\'' !in alt
    requires 1 <= |src| && ']' !in src && forall i :: 0 <= i < |src| ==> !IsQuote(src[i]) && !IsSpace(src[i])
    requires 1 <= |cap| && ']' !in cap && '"' !in cap && '\'' !in cap && '\n' !in cap
    ensures Contains(CaptionedSpec(alt, src, cap), "](")
    ensures ViewOf(CaptionedSpec(alt, src, cap)) == ImageView(src, alt, cap)
  {
    var tail := CaptionedTarget(src, cap);
    CaptionedParts(alt, src, cap);
    CaptionedPieces(alt, src, cap);
    ViewFromPieces(CaptionedSpec(alt, src, cap), alt, tail, src, "\"" + cap + "\"", cap);
  }

  /** The pieces of `alt](src "cap"`, which holds `](` only once. */
  lemma CaptionedParts(alt: string, src: string, cap: string)
    requires ']' !in alt && ']' !in src && ']' !in cap
    ensures Contains(CaptionedSpec(alt, src, cap), "](")
    ensures ImageParts(CaptionedSpec(alt, src, cap)) == Parts(alt, CaptionedTarget(src, cap))
  {
    var tail := CaptionedTarget(src, cap);
    forall i | 0 <= i < |tail|
      ensures tail[i] != ']'
    {
      if i < |src| {
        assert tail[i] == src[i];
      } else if |src| + 1 < i < |tail| - 1 {
        assert tail[i] == cap[i - |src| - 2];
      }
    }
    NoCloseIn(alt, tail);
    ImagePartsOf(alt, tail);
  }

  /** Taking off the quotes leaves the pieces of `alt](src "cap"` as they
      are, and the target splits at its space. */
  lemma CaptionedPieces(alt: string, src: string, cap: string)
    requires 1 <= |alt| && '"' !in alt && '\'' !in alt
    requires 1 <= |src| && forall i :: 0 <= i < |src| ==> !IsQuote(src[i]) && !IsSpace(src[i])
    requires 1 <= |cap| && '"' !in cap && '\'' !in cap && '\n' !in cap
    ensures var tail := CaptionedTarget(src, cap);
      Unquoted(tail) == tail && SplitAtSpace(tail) == Some((src, "\"" + cap + "\"")) &&
      Unquoted(src) == src && Unquoted("\"" + cap + "\"") == cap &&
      EscapeQuotes(Unquoted(alt)) == alt && EscapeQuotes(cap) == cap
  {
    var tail := CaptionedTarget(src, cap);
    assert tail[0] == src[0];
    assert !IsQuote(alt[0]) by {
      assert alt[0] in alt;
    }
    SplitAtSpaceOf(src, " ", "\"" + cap + "\"");
    UnquotedRoundTrip('"', cap);
    assert ['"'] + cap + ['"'] == "\"" + cap + "\"";
    EscapeAbsent(alt);
    EscapeAbsent(cap);
  }

  /** `renderImage`'s view from the pieces it finds. */
  lemma ViewFromPieces(spec: string, alt: string, tail: string, src: string, q: string, cap: string)
    requires Contains(spec, "](") && ImageParts(spec) == Parts(alt, tail)
    requires Unquoted(tail) == tail && SplitAtSpace(tail) == Some((src, q))
    requires Unquoted(src) == src && Unquoted(q) == cap
    requires EscapeQuotes(Unquoted(alt)) == alt && EscapeQuotes(cap) == cap
    ensures ViewOf(spec) == ImageView(src, alt, cap)
  {
  }

  /** Neither `alt` nor `tail` holds `]`, so `](` occurs only between
      them. */
  lemma NoCloseIn(alt: string, tail: string)
    requires ']' !in alt && forall i :: 0 <= i < |tail| ==> tail[i] != ']'
    ensures forall j :: j != |alt| ==> !OccursAt(alt + "](" + tail, "](", j)
  {
    var spec := alt + "](" + tail;
    forall j | j != |alt|
      ensures !OccursAt(spec, "](", j)
    {
      if 0 <= j && j + 2 <= |spec| {
        assert spec[j..j + 2][0] == spec[j];
        if j < |alt| {
          assert spec[j] == alt[j];
        } else if j == |alt| + 1 {
          assert spec[j] == '(';
        } else {
          assert spec[j] == tail[j - |alt| - 2];
        }
      }
    }
  }

  /** The pieces of `alt](tail` when `](` occurs only between them. */
  lemma ImagePartsOf(alt: string, tail: string)
    requires forall j :: j != |alt| ==> !OccursAt(alt + "](" + tail, "](", j)
    ensures Contains(alt + "](" + tail, "](")
    ensures ImageParts(alt + "](" + tail) == Parts(alt, tail)
  {
    var spec := alt + "](" + tail;
    assert OccursAt(spec, "](", |alt|) by {
      assert spec[|alt|..|alt| + 2] == "](";
    }
    ContainsIff(spec, "](");
    var r := ImageParts(spec);
    assert |r.alt| == |alt|;
    assert |r.alt| + 2 + |r.src| == |spec|;
    assert spec[..|alt|] == alt;
    assert spec[|alt| + 2..] == tail;
  }
}
