/** The shield codec: text that the Markdown compiler must not touch is
    wrapped as base 64 inside one of three pseudo-tags, and unwrapped after
    compilation. A block or inline shield is restored literally; an md
    shield is restored by compiling its decoded text. */
module Shield {
  import opened Wrappers
  import opened PhpStrings
  import opened Base64

  const BlockShield: string := "div shielded"
  const InlineShield: string := "span shielded"
  const MdShield: string := "span md"

  datatype ShieldKind = Block | Inline | Md

  /** The kind named by the first character of the options: `m` for md,
      `i` for inline, anything else (an empty option included) for block. */
  function KindOf(options: string): ShieldKind
  {
    if options != [] && options[0] == 'm' then Md
    else if options != [] && options[0] == 'i' then Inline
    else Block
  }

  /** The opening pseudo-tag `<name>` of a kind. */
  function OpenOf(k: ShieldKind): string
  {
    match k
    case Block => "<div shielded>"
    case Inline => "<span shielded>"
    case Md => "<span md>"
  }

  /** The closing pseudo-tag `</name>` of a kind. */
  function CloseOf(k: ShieldKind): string
  {
    match k
    case Block => "</div shielded>"
    case Inline => "</span shielded>"
    case Md => "</span md>"
  }

  /** Every tag starts with `<`. */
  predicate Tags(tags: seq<string>)
  {
    forall k :: 0 <= k < |tags| ==> tags[k] != [] && tags[k][0] == '<'
  }

  /** The tags of the literal pattern, alternatives in the source's order. */
  function LiteralOpens(): (r: seq<string>)
    ensures Tags(r) && r == [OpenOf(Inline), OpenOf(Block)]
  {
    ["<span shielded>", "<div shielded>"]
  }

  function LiteralCloses(): (r: seq<string>)
    ensures Tags(r) && r == [CloseOf(Inline), CloseOf(Block)]
  {
    ["</span shielded>", "</div shielded>"]
  }

  function MdOpens(): (r: seq<string>)
    ensures Tags(r) && r == [OpenOf(Md)]
  {
    ["<span md>"]
  }

  function MdCloses(): (r: seq<string>)
    ensures Tags(r) && r == [CloseOf(Md)]
  {
    ["</span md>"]
  }

  /** `shieldStr`: the base 64 text without its `=` padding, between the
      opening and closing pseudo-tags of the kind. */
  function ShieldStr(s: string, options: string): string
    requires IsByteString(s)
  {
    var k := KindOf(options);
    OpenOf(k) + RTrimBy(Encode(s), IsPad) + CloseOf(k)
  }

  // ---- matching `<(names)>(.*?)</(names)>` -------------------------------

  /** The index of the first of `tags` that occurs in `t` at `i`. */
  function TagAt(t: string, i: nat, tags: seq<string>): (r: Option<nat>)
    ensures r.Some? ==> r.value < |tags| && OccursAt(t, tags[r.value], i)
    ensures r.Some? ==> forall k :: 0 <= k < r.value ==> !OccursAt(t, tags[k], i)
    ensures r.None? <==> forall k :: 0 <= k < |tags| ==> !OccursAt(t, tags[k], i)
  {
    if tags == [] then None
    else if OccursAt(t, tags[0], i) then Some(0)
    else
      var r := TagAt(t, i, tags[1..]);
      assert forall k :: 1 <= k < |tags| ==> tags[k] == tags[1..][k - 1];
      if r.Some? then Some(r.value + 1) else None
  }

  /** The lazy `(.*?)` followed by a closing tag: the first position at or
      after `j` where one of `closes` starts, not crossing a line feed, with
      the length of that tag. */
  function CloseFrom(t: string, j: nat, closes: seq<string>): (r: Option<(nat, nat)>)
    requires j <= |t|
    requires Tags(closes)
    ensures r.Some? ==> j <= r.value.0 && r.value.0 + r.value.1 <= |t| && r.value.1 > 0
    decreases |t| - j
  // A closing tag starts with `<`, so other characters are passed over
  // without trying one.
  {
    if j < |t| && t[j] != '<' && t[j] != '\n' then CloseFrom(t, j + 1, closes)
    else match TagAt(t, j, closes)
      case Some(k) => Some((j, |closes[k]|))
      case None =>
        if j == |t| || t[j] == '\n' then None
        else CloseFrom(t, j + 1, closes)
  }

  /** One match: the whole matched text and the captured payload. */
  datatype Hit = Hit(whole: string, payload: string)

  /** A match that starts at the beginning of `t`, with its length. */
  function MatchAt(t: string, opens: seq<string>, closes: seq<string>): (r: Option<(Hit, nat)>)
    requires Tags(opens) && Tags(closes)
    ensures r.Some? ==> 0 < r.value.1 <= |t| && r.value.0.whole == t[..r.value.1]
  {
    match TagAt(t, 0, opens)
    case None => None
    case Some(k) =>
      var n := |opens[k]|;
      match CloseFrom(t, n, closes)
      case None => None
      case Some((e, m)) => Some((Hit(t[..e + m], t[n..e]), e + m))
  }

  /** `preg_match_all`: matches found left to right, each search resuming
      where the previous match ended. (Every tag starts with `<`, so no
      match is tried elsewhere.) */
  function Hits(t: string, opens: seq<string>, closes: seq<string>): (r: seq<Hit>)
    requires Tags(opens) && Tags(closes)
    ensures forall h :: h in r ==> h.whole != []
    decreases |t|
  {
    if t == [] then []
    else if t[0] != '<' then Hits(t[1..], opens, closes)
    else match MatchAt(t, opens, closes)
      case Some((h, n)) => [h] + Hits(t[n..], opens, closes)
      case None => Hits(t[1..], opens, closes)
  }

  /** The `foreach` of `str_replace` calls: each whole match, in order, is
      replaced everywhere in the current text by its translated payload. */
  function ReplaceHits(t: string, hits: seq<Hit>, f: string -> string): string
    requires forall h :: h in hits ==> h.whole != []
    decreases |hits|
  {
    if hits == [] then t
    else ReplaceHits(ReplaceAll(t, hits[0].whole, f(hits[0].payload)), hits[1..], f)
  }

  // ---- normalising escaped pseudo-tags ----------------------------------

  /** The names of the normalising pattern, alternatives in order. */
  const AllNames: seq<string> := ["span shielded", "div shielded", "span md"]

  /** The length of `&lt;` or `<` (whichever fits first) at `i`, or 0. */
  function LtAt(t: string, i: nat): (r: nat)
    ensures r == 0 || r == 1 || r == 4
    ensures r != 0 ==> i + r <= |t|
    ensures r == 1 ==> t[i] == '<'
    ensures r == 4 ==> t[i] == '&'
  {
    if OccursAt(t, "&lt;", i) then 4 else if OccursAt(t, "<", i) then 1 else 0
  }

  /** The length of `&gt;` or `>` (whichever fits first) at `i`, or 0. */
  function GtAt(t: string, i: nat): (r: nat)
    ensures r == 0 || r == 1 || r == 4
    ensures r != 0 ==> i + r <= |t|
    ensures r == 1 ==> t[i] == '>'
    ensures r == 4 ==> t[i] == '&'
  {
    if OccursAt(t, "&gt;", i) then 4 else if OccursAt(t, ">", i) then 1 else 0
  }

  /** A match of `(&lt;|<)(/?)(names)(&gt;|>)` at the start of `t`, in
      pieces: the length of the opening bracket, the slash (or nothing),
      the name, and the length of the closing bracket. */
  function EscapedParts(t: string): (r: Option<(nat, string, string, nat)>)
    ensures r.Some? ==> var (o, sl, name, c) := r.value;
      var e := o + |sl| + |name|;
      (o == 1 || o == 4) && (c == 1 || c == 4) && e + c <= |t| &&
      (o == 1 ==> t[0] == '<') && (o == 4 ==> t[0] == '&') &&
      (sl == "" || sl == "/") && t[o..o + |sl|] == sl && OccursAt(t, name, o + |sl|) &&
      (c == 1 ==> t[e] == '>') && (c == 4 ==> t[e] == '&')
  {
    var o := LtAt(t, 0);
    if o == 0 then None
    else
      var sl := if OccursAt(t, "/", o) then "/" else "";
      var j := o + |sl|;
      match TagAt(t, j, AllNames)
      case None => None
      case Some(k) =>
        var e := j + |AllNames[k]|;
        var c := GtAt(t, e);
        if c == 0 then None else Some((o, sl, AllNames[k], c))
  }

  /** The same match: its length and its replacement `<$2$3>`. */
  function EscapedTagAt(t: string): (r: Option<(nat, string)>)
    ensures r.Some? ==> 0 < r.value.0 <= |t| && (t[0] == '<' || t[0] == '&')
  {
    match EscapedParts(t)
    case None => None
    case Some((o, sl, name, c)) => Some((o + |sl| + |name| + c, "<" + sl + name + ">"))
  }

  /** The `preg_replace` that turns HTML-escaped pseudo-tags back into tags.
      (A match can only start at `<` or `&`, so other characters are copied
      without trying one.) */
  function NormaliseTags(t: string): string
    decreases |t|
  {
    if t == [] then []
    else if t[0] != '<' && t[0] != '&' then [t[0]] + NormaliseTags(t[1..])
    else match EscapedTagAt(t)
      case Some((n, rep)) => rep + NormaliseTags(t[n..])
      case None => [t[0]] + NormaliseTags(t[1..])
  }

  /** `unshieldStr`: `compile` stands for the Markdown compiler that md
      shields are passed through. */
  function UnshieldStr(s: string, unshieldLiteral: bool, compile: string -> string): string
  {
    if '<' !in s then s
    else
      var lit :=
        if unshieldLiteral then
          var t := NormaliseTags(s);
          ReplaceHits(t, Hits(t, LiteralOpens(), LiteralCloses()), Decode)
        else s;
      ReplaceHits(lit, Hits(lit, MdOpens(), MdCloses()), x => compile(Decode(x)))
  }

  // ---- properties --------------------------------------------------------

  /** A pattern cannot occur where one of its characters is missing. */
  lemma NotAt(t: string, p: string, i: nat, d: nat)
    requires d < |p| && (i + d >= |t| || t[i + d] != p[d])
    ensures !OccursAt(t, p, i)
  {
  }

  /** No tag starts where there is no `<`. */
  lemma TagAtNoLt(t: string, i: nat, tags: seq<string>)
    requires Tags(tags) && (i >= |t| || t[i] != '<')
    ensures TagAt(t, i, tags).None?
  {
    forall k | 0 <= k < |tags| ensures !OccursAt(t, tags[k], i) {
      NotAt(t, tags[k], i, 0);
    }
  }

  /** No match starts where there is no `<`. */
  lemma MatchAtNoLt(t: string, opens: seq<string>, closes: seq<string>)
    requires Tags(opens) && Tags(closes) && t != [] && t[0] != '<'
    ensures MatchAt(t, opens, closes).None?
    ensures Hits(t, opens, closes) == Hits(t[1..], opens, closes)
  {
    TagAtNoLt(t, 0, opens);
  }

  /** Text without `<` contributes no match before what follows it. */
  lemma {:induction false} HitsSkipPlain(a: string, b: string, opens: seq<string>, closes: seq<string>)
    requires Tags(opens) && Tags(closes) && '<' !in a
    ensures Hits(a + b, opens, closes) == Hits(b, opens, closes)
    decreases |a|
  {
    if a != [] {
      assert a[0] in a;
      MatchAtNoLt(a + b, opens, closes);
      assert (a + b)[1..] == a[1..] + b;
      assert forall x :: x in a[1..] ==> x in a;
      HitsSkipPlain(a[1..], b, opens, closes);
    } else {
      assert a + b == b;
    }
  }

  /** With no opening tag anywhere, there is nothing to match. */
  lemma {:induction false} HitsEmpty(t: string, opens: seq<string>, closes: seq<string>)
    requires Tags(opens) && Tags(closes)
    requires forall i, k :: 0 <= k < |opens| ==> !OccursAt(t, opens[k], i)
    ensures Hits(t, opens, closes) == []
    decreases |t|
  {
    if t != [] {
      assert TagAt(t, 0, opens).None?;
      forall i, k | 0 <= k < |opens| ensures !OccursAt(t[1..], opens[k], i) {
        if OccursAt(t[1..], opens[k], i) {
          assert t[1..][i..i + |opens[k]|] == t[i + 1..i + 1 + |opens[k]|];
          assert OccursAt(t, opens[k], i + 1);
        }
      }
      HitsEmpty(t[1..], opens, closes);
    }
  }

  /** A closing search skips characters that are neither `<` nor a line feed. */
  lemma {:induction false} CloseSkip(t: string, j: nat, k: nat, closes: seq<string>)
    requires j <= k <= |t| && Tags(closes)
    requires forall i :: j <= i < k ==> t[i] != '<' && t[i] != '\n'
    ensures CloseFrom(t, j, closes) == CloseFrom(t, k, closes)
    decreases k - j
  {
    if j < k {
      TagAtNoLt(t, j, closes);
      CloseSkip(t, j + 1, k, closes);
    }
  }

  /** `TagAt` finds the first alternative that fits. */
  lemma FirstTag(t: string, i: nat, tags: seq<string>, k: nat)
    requires k < |tags| && OccursAt(t, tags[k], i)
    requires forall j :: 0 <= j < k ==> !OccursAt(t, tags[j], i)
    ensures TagAt(t, i, tags) == Some(k)
  {
  }

  /** The closing search passes over plain text and stops at the first
      closing tag after it. */
  lemma CloseAfter(t: string, a: nat, j: nat, closes: seq<string>, kc: nat)
    requires a <= j <= |t| && Tags(closes) && kc < |closes| && TagAt(t, j, closes) == Some(kc)
    requires forall i :: a <= i < j ==> t[i] != '<' && t[i] != '\n'
    ensures CloseFrom(t, a, closes) == Some((j, |closes[kc]|))
  {
    CloseSkip(t, a, j, closes);
    CloseHere(t, j, closes, kc);
  }

  lemma PlainRun(t: string, a: nat, p: string)
    requires a + |p| <= |t| && t[a..a + |p|] == p && '<' !in p && '\n' !in p
    ensures forall i :: a <= i < a + |p| ==> t[i] != '<' && t[i] != '\n'
  {
    forall i | a <= i < a + |p| ensures t[i] != '<' && t[i] != '\n' {
      assert t[i] == p[i - a];
    }
  }

  /** The closing search stops where a closing tag fits. */
  lemma CloseHere(t: string, j: nat, closes: seq<string>, k: nat)
    requires Tags(closes) && j <= |t| && k < |closes| && TagAt(t, j, closes) == Some(k)
    ensures CloseFrom(t, j, closes) == Some((j, |closes[k]|))
  {
    assert t[j..j + |closes[k]|][0] == t[j];
  }

  /** `o + p + c` is matched as a whole, with `p` captured, when `o` and `c`
      are the first alternatives that fit and `p` holds neither `<` nor a
      line feed. */
  lemma WrappedMatch(o: string, p: string, c: string, opens: seq<string>, closes: seq<string>, ko: nat, kc: nat)
    requires Tags(opens) && Tags(closes)
    requires ko < |opens| && opens[ko] == o && kc < |closes| && closes[kc] == c
    requires forall k :: 0 <= k < ko ==> !OccursAt(o + p + c, opens[k], 0)
    requires forall k :: 0 <= k < kc ==> !OccursAt(o + p + c, closes[k], |o| + |p|)
    requires '<' !in p && '\n' !in p
    ensures MatchAt(o + p + c, opens, closes) == Some((Hit(o + p + c, p), |o + p + c|))
  {
    var t := o + p + c;
    var j: nat, m: nat := |o| + |p|, |c|;
    assert TagAt(t, 0, opens) == Some(ko) by {
      assert t[..|o|] == o;
      FirstTag(t, 0, opens, ko);
    }
    assert t[|o|..j] == p;
    assert CloseFrom(t, |o|, closes) == Some((j, m)) by {
      PlainRun(t, |o|, p);
      assert t[j..j + |c|] == c;
      FirstTag(t, j, closes, kc);
      CloseAfter(t, |o|, j, closes, kc);
    }
    MatchFrom(t, opens, closes, ko, j, |c|);
    assert t[..|t|] == t;
  }

  /** A match is an opening tag followed by the closing search's result. */
  lemma MatchFrom(t: string, opens: seq<string>, closes: seq<string>, ko: nat, e: nat, m: nat)
    requires Tags(opens) && Tags(closes) && ko < |opens|
    requires TagAt(t, 0, opens) == Some(ko) && |opens[ko]| <= |t|
    requires CloseFrom(t, |opens[ko]|, closes) == Some((e, m))
    ensures MatchAt(t, opens, closes) == Some((Hit(t[..e + m], t[|opens[ko]|..e]), e + m))
  {
  }

  lemma WrappedHit(o: string, p: string, c: string, opens: seq<string>, closes: seq<string>, ko: nat, kc: nat)
    requires Tags(opens) && Tags(closes)
    requires ko < |opens| && opens[ko] == o && kc < |closes| && closes[kc] == c
    requires forall k :: 0 <= k < ko ==> !OccursAt(o + p + c, opens[k], 0)
    requires forall k :: 0 <= k < kc ==> !OccursAt(o + p + c, closes[k], |o| + |p|)
    requires '<' !in p && '\n' !in p
    ensures Hits(o + p + c, opens, closes) == [Hit(o + p + c, p)]
  {
    var t := o + p + c;
    WrappedMatch(o, p, c, opens, closes, ko, kc);
    assert t[0] == o[0] == '<';
    assert t[|t|..] == [];
  }

  /** Without `&`, a tag match is replaced by itself. */
  lemma EscapedPlain(t: string)
    requires '&' !in t && EscapedTagAt(t).Some?
    ensures EscapedTagAt(t).value.1 == t[..EscapedTagAt(t).value.0]
  {
    var (o, sl, name, c) := EscapedParts(t).value;
    assert t[0] in t;
    assert t[o + |sl| + |name|] in t;
    PlainTag(t, sl, name);
  }

  lemma PlainTag(t: string, sl: string, name: string)
    requires |sl| + |name| + 2 <= |t| && t[0] == '<' && t[1..1 + |sl|] == sl
    requires OccursAt(t, name, 1 + |sl|) && t[1 + |sl| + |name|] == '>'
    ensures t[..|sl| + |name| + 2] == "<" + sl + name + ">"
  {
    var j, e := 1 + |sl|, 1 + |sl| + |name|;
    assert t[..e + 1] == t[..1] + t[1..j] + t[j..e] + t[e..e + 1];
  }

  /** A match at the start is replaced and the search goes on after it. */
  lemma NormaliseHead(t: string, n: nat, rep: string)
    requires EscapedTagAt(t) == Some((n, rep))
    ensures NormaliseTags(t) == rep + NormaliseTags(t[n..])
  {
  }

  /** `NormaliseTags` leaves a string alone when it holds no `&`. */
  lemma {:induction false} NormaliseNoEntity(t: string)
    requires '&' !in t
    ensures NormaliseTags(t) == t
    decreases |t|
  {
    if t != [] {
      var n := NormaliseFirst(t);
      var u := t[n..];
      NoAmpSuffix(t, n);
      NormaliseNoEntity(u);
      SplitAt(t, n);
    }
  }

  /** Without `&`, the first step of `NormaliseTags` copies what it reads. */
  lemma NormaliseFirst(t: string) returns (n: nat)
    requires '&' !in t && t != []
    ensures 0 < n <= |t| && NormaliseTags(t) == t[..n] + NormaliseTags(t[n..])
  {
    if EscapedTagAt(t).Some? {
      n := EscapedTagAt(t).value.0;
      EscapedPlain(t);
      NormaliseHead(t, n, EscapedTagAt(t).value.1);
    } else {
      n := 1;
      assert [t[0]] == t[..1];
    }
  }

  lemma SplitAt(t: string, n: nat)
    requires n <= |t|
    ensures t[..n] + t[n..] == t
  {
  }

  lemma NoAmpSuffix(t: string, n: nat)
    requires '&' !in t && n <= |t|
    ensures '&' !in t[n..]
  {
    assert forall x :: x in t[n..] ==> x in t;
  }

  /** Encoded text holds neither `<`, `&` nor a line feed. */
  lemma EncodedIsPlain(s: string)
    requires IsByteString(s)
    ensures var p := RTrimBy(Encode(s), IsPad);
      '<' !in p && '&' !in p && '\n' !in p
  {
    StripPadding(s);
  }

  /** The pseudo-tags hold no `&`, and the literal and md lists are tag lists. */
  lemma TagFacts(k: ShieldKind)
    ensures '&' !in OpenOf(k) && '&' !in CloseOf(k)
    ensures Tags(LiteralOpens()) && Tags(LiteralCloses()) && Tags(MdOpens()) && Tags(MdCloses())
  {
  }

  /** Unshielding a text that holds a `<`, step by step. */
  lemma UnshieldSteps(t: string, unshieldLiteral: bool, compile: string -> string)
    requires '<' in t
    ensures var lit := if unshieldLiteral then
        ReplaceHits(NormaliseTags(t), Hits(NormaliseTags(t), LiteralOpens(), LiteralCloses()), Decode)
      else t;
      UnshieldStr(t, unshieldLiteral, compile) == ReplaceHits(lit, Hits(lit, MdOpens(), MdCloses()), x => compile(Decode(x)))
  {
  }

  /** Replacing the single match that is the whole text. */
  lemma ReplaceSingle(t: string, p: string, f: string -> string)
    requires t != []
    ensures ReplaceHits(t, [Hit(t, p)], f) == f(p)
  {
    ReplaceWhole(t, f(p));
  }

  /** The only literal match in a block or inline shield is the whole shield. */
  lemma LiteralHit(s: string, options: string)
    requires IsByteString(s) && KindOf(options) != Md
    ensures var t := ShieldStr(s, options);
      Hits(t, LiteralOpens(), LiteralCloses()) == [Hit(t, RTrimBy(Encode(s), IsPad))]
  {
    var p := RTrimBy(Encode(s), IsPad);
    EncodedIsPlain(s);
    if KindOf(options) == Inline {
      InlineHit(p);
    } else {
      BlockHit(p);
    }
  }

  lemma InlineHit(p: string)
    requires '<' !in p && '\n' !in p
    ensures var t := OpenOf(Inline) + p + CloseOf(Inline);
      Hits(t, LiteralOpens(), LiteralCloses()) == [Hit(t, p)]
  {
    WrappedHit(OpenOf(Inline), p, CloseOf(Inline), LiteralOpens(), LiteralCloses(), 0, 0);
  }

  lemma BlockHit(p: string)
    requires '<' !in p && '\n' !in p
    ensures var t := OpenOf(Block) + p + CloseOf(Block);
      Hits(t, LiteralOpens(), LiteralCloses()) == [Hit(t, p)]
  {
    BlockNotInline(p);
    WrappedHit(OpenOf(Block), p, CloseOf(Block), LiteralOpens(), LiteralCloses(), 1, 1);
  }

  /** The tags of a block shield are not those of an inline shield. */
  lemma BlockNotInline(p: string)
    ensures var t := "<div shielded>" + p + "</div shielded>";
      !OccursAt(t, "<span shielded>", 0) && !OccursAt(t, "</span shielded>", 14 + |p|)
  {
    var t := "<div shielded>" + p + "</div shielded>";
    assert t[1] == 'd';
    NotAt(t, "<span shielded>", 0, 1);
    assert t[14 + |p| + 2] == 'd';
    NotAt(t, "</span shielded>", 14 + |p|, 2);
  }

  /** A shield starts with `<` and holds no `&`. */
  lemma ShieldText(s: string, options: string)
    requires IsByteString(s)
    ensures var t := ShieldStr(s, options); t != [] && t[0] == '<' && '&' !in t
  {
    TagFacts(KindOf(options));
    EncodedIsPlain(s);
  }

  /** The block and inline round trip: unshielding a shield restores the
      text, provided the text itself holds no md shield. */
  lemma LiteralRoundTrip(s: string, options: string, compile: string -> string)
    requires IsByteString(s) && KindOf(options) != Md
    requires forall i :: !OccursAt(s, "<span md>", i)
    ensures UnshieldStr(ShieldStr(s, options), true, compile) == s
  {
    var t := ShieldStr(s, options);
    var p := RTrimBy(Encode(s), IsPad);
    ShieldText(s, options);
    UnshieldSteps(t, true, compile);
    NormaliseNoEntity(t);
    LiteralHit(s, options);
    ReplaceSingle(t, p, Decode);
    RoundTrip(s);
    HitsEmpty(s, MdOpens(), MdCloses());
  }

  /** No match starts where no opening tag fits. */
  lemma HitsNoOpen(t: string, opens: seq<string>, closes: seq<string>)
    requires Tags(opens) && Tags(closes) && t != [] && TagAt(t, 0, opens).None?
    ensures Hits(t, opens, closes) == Hits(t[1..], opens, closes)
  {
  }

  /** `o + p + c` holds no match when neither the tag `o` nor the tag `c`
      is an opening alternative and `p` holds no `<`. */
  lemma NoTagsBut(o: string, p: string, c: string, opens: seq<string>, closes: seq<string>)
    requires Tags(opens) && Tags(closes)
    requires o != [] && c != [] && '<' !in o[1..] && '<' !in p && '<' !in c[1..]
    requires TagAt(o + p + c, 0, opens).None? && TagAt(c, 0, opens).None?
    ensures Hits(o + p + c, opens, closes) == []
  {
    SkipToLast(o, p, c, opens, closes);
    NoTagIn(c, opens, closes);
  }

  lemma SkipToLast(o: string, p: string, c: string, opens: seq<string>, closes: seq<string>)
    requires Tags(opens) && Tags(closes)
    requires o != [] && '<' !in o[1..] && '<' !in p
    requires TagAt(o + p + c, 0, opens).None?
    ensures Hits(o + p + c, opens, closes) == Hits(c, opens, closes)
  {
    var t := o + p + c;
    HitsNoOpen(t, opens, closes);
    var x := o[1..] + p;
    assert '<' !in x;
    assert t[1..] == x + c;
    HitsSkipPlain(x, c, opens, closes);
  }

  lemma NoTagIn(c: string, opens: seq<string>, closes: seq<string>)
    requires Tags(opens) && Tags(closes)
    requires c != [] && '<' !in c[1..] && TagAt(c, 0, opens).None?
    ensures Hits(c, opens, closes) == []
  {
    HitsNoOpen(c, opens, closes);
    assert c[1..] == c[1..] + [];
    HitsSkipPlain(c[1..], [], opens, closes);
  }

  /** No md match in a block or inline shield. */
  lemma NoMdInLiteral(s: string, options: string)
    requires IsByteString(s) && KindOf(options) != Md
    ensures Hits(ShieldStr(s, options), MdOpens(), MdCloses()) == []
  {
    var k := KindOf(options);
    var o, p, c := OpenOf(k), RTrimBy(Encode(s), IsPad), CloseOf(k);
    EncodedIsPlain(s);
    TagShape(k);
    MdTagNotLiteral(o + p + c, k);
    MdNotClose(k);
    NoTagsBut(o, p, c, MdOpens(), MdCloses());
  }

  /** A pseudo-tag has a `<` only at its start. */
  lemma TagShape(k: ShieldKind)
    ensures OpenOf(k) != [] && '<' !in OpenOf(k)[1..]
    ensures CloseOf(k) != [] && '<' !in CloseOf(k)[1..]
  {
    OpenShape(k);
    CloseShape(k);
  }

  lemma OpenShape(k: ShieldKind)
    ensures OpenOf(k) != [] && '<' !in OpenOf(k)[1..]
  {
    match k
    case Block => assert OpenOf(k)[1..] == "div shielded>";
    case Inline => assert OpenOf(k)[1..] == "span shielded>";
    case Md => assert OpenOf(k)[1..] == "span md>";
  }

  lemma CloseShape(k: ShieldKind)
    ensures CloseOf(k) != [] && '<' !in CloseOf(k)[1..]
  {
    match k
    case Block => assert CloseOf(k)[1..] == "/div shielded>";
    case Inline => assert CloseOf(k)[1..] == "/span shielded>";
    case Md => assert CloseOf(k)[1..] == "/span md>";
  }

  lemma MdNotClose(k: ShieldKind)
    requires k != Md
    ensures TagAt(CloseOf(k), 0, MdOpens()).None?
  {
    NotAt(CloseOf(k), "<span md>", 0, 1);
  }

  lemma LiteralNotClose()
    ensures TagAt(CloseOf(Md), 0, LiteralOpens()).None?
  {
    NotAt(CloseOf(Md), "<span shielded>", 0, 1);
    NotAt(CloseOf(Md), "<div shielded>", 0, 1);
  }

  lemma MdTagNotLiteral(t: string, k: ShieldKind)
    requires k != Md && StartsWith(t, OpenOf(k))
    ensures TagAt(t, 0, MdOpens()).None?
  {
    if k == Block {
      assert t[1] == 'd';
      NotAt(t, "<span md>", 0, 1);
    } else {
      assert t[6] == 's';
      NotAt(t, "<span md>", 0, 6);
    }
  }

  /** With literal unshielding off, a block or inline shield stays as it is. */
  lemma LiteralKeptWhenOff(s: string, options: string, compile: string -> string)
    requires IsByteString(s) && KindOf(options) != Md
    ensures UnshieldStr(ShieldStr(s, options), false, compile) == ShieldStr(s, options)
  {
    var t := ShieldStr(s, options);
    ShieldText(s, options);
    UnshieldSteps(t, false, compile);
    NoMdInLiteral(s, options);
  }

  /** No literal match in an md shield. */
  lemma NoLiteralInMd(s: string)
    requires IsByteString(s)
    ensures Hits(ShieldStr(s, "md"), LiteralOpens(), LiteralCloses()) == []
  {
    var o, p, c := OpenOf(Md), RTrimBy(Encode(s), IsPad), CloseOf(Md);
    EncodedIsPlain(s);
    TagShape(Md);
    LiteralTagNotMd(o + p + c);
    LiteralNotClose();
    NoTagsBut(o, p, c, LiteralOpens(), LiteralCloses());
  }

  lemma LiteralTagNotMd(t: string)
    requires StartsWith(t, OpenOf(Md))
    ensures TagAt(t, 0, LiteralOpens()).None?
  {
    assert t[1] == 's' && t[6] == 'm';
    NotAt(t, "<span shielded>", 0, 6);
    NotAt(t, "<div shielded>", 0, 1);
  }

  /** An md shield is always compiled, whether or not literal shields are
      restored. */
  lemma MdAlwaysCompiled(s: string, unshieldLiteral: bool, compile: string -> string)
    requires IsByteString(s)
    ensures UnshieldStr(ShieldStr(s, "md"), unshieldLiteral, compile) == compile(s)
  {
    var o, p, c := OpenOf(Md), RTrimBy(Encode(s), IsPad), CloseOf(Md);
    var t := ShieldStr(s, "md");
    ShieldText(s, "md");
    UnshieldSteps(t, unshieldLiteral, compile);
    if unshieldLiteral {
      NormaliseNoEntity(t);
      NoLiteralInMd(s);
    }
    EncodedIsPlain(s);
    WrappedHit(o, p, c, MdOpens(), MdCloses(), 0, 0);
    ReplaceSingle(t, p, x => compile(Decode(x)));
    RoundTrip(s);
  }

  /** A block shield whose opening pseudo-tag was HTML-escaped on the way
      (as `&lt;div shielded&gt;`) is still restored. */
  lemma EscapedRoundTrip(s: string, compile: string -> string)
    requires IsByteString(s)
    requires forall i :: !OccursAt(s, "<span md>", i)
    ensures var p := RTrimBy(Encode(s), IsPad);
      UnshieldStr("&lt;div shielded&gt;" + p + "</div shielded>", true, compile) == s
  {
    var p := RTrimBy(Encode(s), IsPad);
    EncodedIsPlain(s);
    BlockShieldText(s);
    EscapedSame(p, compile);
    LiteralRoundTrip(s, "block", compile);
  }

  lemma BlockShieldText(s: string)
    requires IsByteString(s)
    ensures ShieldStr(s, "block") == "<div shielded>" + RTrimBy(Encode(s), IsPad) + "</div shielded>"
  {
    assert KindOf("block") == Block;
  }

  /** Escaping the opening pseudo-tag makes no difference to unshielding. */
  lemma EscapedSame(p: string, compile: string -> string)
    requires '<' !in p && '&' !in p
    ensures UnshieldStr("&lt;div shielded&gt;" + p + "</div shielded>", true, compile)
      == UnshieldStr("<div shielded>" + p + "</div shielded>", true, compile)
  {
    var e := "&lt;div shielded&gt;" + p + "</div shielded>";
    var t := "<div shielded>" + p + "</div shielded>";
    EscapedNormalised(p);
    assert e[20 + |p|] == '<';
    assert '<' in e by {
      assert e[20 + |p|] in e;
    }
    assert t[0] in t;
    TagFacts(Block);
    NormaliseNoEntity(t);
    SameNormalised(e, t, compile);
  }

  /** Unshielding with literal shields on only sees the normalised text. */
  lemma SameNormalised(e: string, t: string, compile: string -> string)
    requires '<' in e && '<' in t && NormaliseTags(e) == NormaliseTags(t)
    ensures UnshieldStr(e, true, compile) == UnshieldStr(t, true, compile)
  {
  }

  /** A block shield whose pseudo-tags were both HTML-escaped holds no `<`,
      so it is returned as it is: the escaped closing tag is normalised
      only in text that also holds a real tag. */
  lemma EscapedKept(s: string, compile: string -> string)
    requires IsByteString(s)
    ensures var e := "&lt;div shielded&gt;" + RTrimBy(Encode(s), IsPad) + "&lt;/div shielded&gt;";
      UnshieldStr(e, true, compile) == e
  {
    var p := RTrimBy(Encode(s), IsPad);
    EncodedIsPlain(s);
    var a, c := "&lt;div shielded&gt;", "&lt;/div shielded&gt;";
    assert '<' !in a && '<' !in c;
    NoLtConcat(a, p, c);
    NoLtUnchanged(a + p + c, true, compile);
  }

  lemma NoLtConcat(a: string, p: string, c: string)
    requires '<' !in a && '<' !in p && '<' !in c
    ensures '<' !in a + p + c
  {
  }

  /** Text without `<` is returned as it is. */
  lemma NoLtUnchanged(t: string, unshieldLiteral: bool, compile: string -> string)
    requires '<' !in t
    ensures UnshieldStr(t, unshieldLiteral, compile) == t
  {
  }

  /** An escaped opening pseudo-tag before plain text is turned back into a tag. */
  lemma EscapedNormalised(p: string)
    requires '<' !in p && '&' !in p
    ensures NormaliseTags("&lt;div shielded&gt;" + p + "</div shielded>")
      == "<div shielded>" + p + "</div shielded>"
  {
    var rest := p + "</div shielded>";
    var e := "&lt;div shielded&gt;" + p + "</div shielded>";
    assert e == "&lt;div shielded&gt;" + rest;
    assert EscapedTagAt(e) == Some((20, "<div shielded>")) by {
      EscapedOpen(rest);
    }
    assert e[20..] == rest;
    NormaliseHead(e, 20, "<div shielded>");
    assert NormaliseTags(rest) == rest by {
      TagFacts(Block);
      NormaliseNoEntity(rest);
    }
  }

  lemma EscapedOpen(rest: string)
    ensures EscapedTagAt("&lt;div shielded&gt;" + rest) == Some((20, "<div shielded>"))
  {
    var t := "&lt;div shielded&gt;" + rest;
    assert t[..20] == "&lt;div shielded&gt;";
    EscapedOpenLt(t);
    EscapedOpenName(t);
    EscapedOpenGt(t);
    assert EscapedParts(t) == Some((4, "", AllNames[1], 4));
    assert "<" + "" + AllNames[1] + ">" == "<div shielded>";
  }

  lemma EscapedOpenLt(t: string)
    requires StartsWith(t, "&lt;div shielded&gt;")
    ensures LtAt(t, 0) == 4 && !OccursAt(t, "/", 4)
  {
    assert t[..4] == "&lt;";
    NotAt(t, "/", 4, 0);
  }

  lemma EscapedOpenName(t: string)
    requires StartsWith(t, "&lt;div shielded&gt;")
    ensures TagAt(t, 4, AllNames) == Some(1) && |AllNames[1]| == 12
  {
    assert AllNames[0] == "span shielded" && AllNames[1] == "div shielded";
    NotAt(t, AllNames[0], 4, 0);
    assert t[..20] == "&lt;div shielded&gt;";
    assert t[4..16] == t[..20][4..16] == AllNames[1];
    FirstTag(t, 4, AllNames, 1);
  }

  lemma EscapedOpenGt(t: string)
    requires StartsWith(t, "&lt;div shielded&gt;")
    ensures GtAt(t, 16) == 4
  {
    assert t[16..20] == "&gt;";
  }
}
