/** The backtracking that PCRE performs for the inline patterns of
    `MarkdownPlus`: each pattern is a chain of lazy groups `(.+?)` or
    `(.{1,n}?)`, each followed by a fixed piece, and the match is the one
    whose groups are as short as possible, the first group first. A lazy
    group consumes characters of one line only (PCRE's `.` stops at a line
    feed). */
module LazyMatch {
  import opened Wrappers
  import opened PhpStrings

  /** How many characters PCRE's `.` can match from `i` on: the rest of
      the line. */
  function Reach(s: string, i: nat): (n: nat)
    requires i <= |s|
    ensures i + n <= |s|
    ensures forall j :: i <= j < i + n ==> s[j] != '\n'
    ensures i + n == |s| || s[i + n] == '\n'
    decreases |s| - i
  {
    if i == |s| || s[i] == '\n' then 0 else 1 + Reach(s, i + 1)
  }

  /** A stretch without line feeds lies within the line's reach. */
  lemma ReachCovers(s: string, i: nat, n: nat)
    requires i + n <= |s| && forall j :: i <= j < i + n ==> s[j] != '\n'
    ensures n <= Reach(s, i)
  {
  }

  /** From any point of the line on, the line ends at the same place. */
  lemma {:induction false} ReachShift(s: string, i: nat, j: nat)
    requires i <= |s| && i <= j <= i + Reach(s, i)
    ensures j + Reach(s, j) == i + Reach(s, i)
    decreases j - i
  {
    if i < j {
      ReachShift(s, i + 1, j);
    }
  }

  /** The reach is the length of the first line of what follows. */
  lemma ReachIsLine(s: string, i: nat)
    requires i <= |s|
    ensures Reach(s, i) == |TakeLine(s[i..])|
  {
    var t := TakeLine(s[i..]);
    forall j | i <= j < i + |t|
      ensures s[j] != '\n'
    {
      assert s[j] == t[j - i];
    }
    ReachCovers(s, i, |t|);
  }

  /** The two image patterns: `![alt](text "caption")` with a quoted part,
      and `![alt](target)`. */
  datatype Form = Quoted | Plain

  /** What the pattern demands after a lazy group. */
  datatype Step =
      /** `(.{1,hi}?)m`: the closing marker `m`, the group at most `hi` long. */
    | Closer(m: string, hi: nat)
      /** `](` and then the image target of the form. */
    | AltEnd(form: Form)
      /** A quote, which opens the caption group. */
    | QuoteEnd
      /** The quote `q` again, white space and `)`. */
    | CaptionEnd(q: char)
      /** `)`. */
    | ParenEnd

  function Rank(st: Step): nat
  {
    match st
    case AltEnd(_) => 2
    case QuoteEnd => 1
    case _ => 0
  }

  /** `\s* \)` from `e`: the end of the match. */
  function CloseParen(s: string, e: nat): (r: Option<nat>)
    requires e <= |s|
    ensures r.Some? ==>
      e < r.value <= |s| && s[r.value - 1] == ')' &&
      forall j :: e <= j < r.value - 1 ==> IsSpace(s[j])
  {
    var w := Span(s, e, IsSpace);
    if e + w < |s| && s[e + w] == ')' then Some(e + w + 1) else None
  }

  /** The shape of what the rest of an image pattern yields: the capture
      ends at `t.0`, and the match ends at `t.1` after white space and `)`. */
  predicate ClosedAt(s: string, from: nat, t: (nat, nat))
  {
    from <= t.0 < t.1 <= |s| && s[t.1 - 1] == ')' &&
    forall j :: t.0 <= j < t.1 - 1 ==> IsSpace(s[j])
  }

  /** The rest of the pattern after a group of `k` characters from `open`:
      where the capture of the target ends and where the match ends. */
  function Rest(st: Step, s: string, open: nat, k: nat): (r: Option<(nat, nat)>)
    ensures r.Some? ==> open + k <= r.value.0 <= r.value.1 <= |s|
    ensures r.Some? && st.Closer? ==> r.value == (open + k, open + k + |st.m|)
    ensures r.Some? && st.AltEnd? ==> OccursAt(s, "](", open + k) && ClosedAt(s, open + k + 3, r.value)
    ensures r.Some? && !st.Closer? ==> ClosedAt(s, open + k, r.value)
    decreases Rank(st), 0, 1
  {
    var i := open + k;
    match st
    case Closer(m, hi) =>
      if k <= hi && OccursAt(s, m, i) then Some((i, i + |m|)) else None
    case AltEnd(form) => AltRest(form, s, i)
    case QuoteEnd => QuoteRest(s, i)
    case CaptionEnd(q) => CaptionRest(q, s, i)
    case ParenEnd =>
      if i < |s| && s[i] == ')' then Some((i, i + 1)) else None
  }

  /** `](` at `i` and then the target of the form. */
  function AltRest(form: Form, s: string, i: nat): (r: Option<(nat, nat)>)
    ensures r.Some? ==> OccursAt(s, "](", i) && ClosedAt(s, i + 3, r.value)
    decreases 2, 0, 0
  {
    if i + 2 <= |s| && OccursAt(s, "](", i) then
      var g := GroupFrom(if form == Quoted then QuoteEnd else ParenEnd, s, i + 2, 1);
      if g.Some? then Some(g.value.1) else None
    else None
  }

  /** A quote at `i` and then the caption closed by the same quote. */
  function QuoteRest(s: string, i: nat): (r: Option<(nat, nat)>)
    ensures r.Some? ==> ClosedAt(s, i, r.value)
    decreases 1, 0, 0
  {
    if i < |s| && IsQuote(s[i]) then
      var g := GroupFrom(CaptionEnd(s[i]), s, i + 1, 1);
      if g.Some? then Some(g.value.1) else None
    else None
  }

  /** The quote `q` at `i`, white space and `)`. */
  function CaptionRest(q: char, s: string, i: nat): (r: Option<(nat, nat)>)
    ensures r.Some? ==> ClosedAt(s, i, r.value)
  {
    if i < |s| && s[i] == q then
      var e := CloseParen(s, i + 1);
      if e.Some? then Some((i + 1, e.value)) else None
    else None
  }

  /** The lazy group from `open`, tried at lengths `n` and up: the least
      length on the line after which the rest of the pattern matches, with
      what the rest yields. */
  function GroupFrom(st: Step, s: string, open: nat, n: nat): (r: Option<(nat, (nat, nat))>)
    requires open <= |s| && 1 <= n
    ensures r.Some? ==> n <= r.value.0 <= Reach(s, open) && Rest(st, s, open, r.value.0) == Some(r.value.1)
    ensures r.Some? ==> forall k :: n <= k < r.value.0 ==> Rest(st, s, open, k).None?
    ensures r.None? ==> forall k :: n <= k <= Reach(s, open) ==> Rest(st, s, open, k).None?
    decreases Rank(st), 1, Reach(s, open) + 1 - n
  {
    if n > Reach(s, open) then None
    else
      var x := Rest(st, s, open, n);
      if x.Some? then Some((n, x.value)) else GroupFrom(st, s, open, n + 1)
  }

  /** The group is `v` long when the rest matches after `v` characters of
      one line and after no fewer. */
  lemma GroupIs(st: Step, s: string, open: nat, v: nat)
    requires open <= |s| && 1 <= v <= Reach(s, open) && Rest(st, s, open, v).Some?
    requires forall k :: 1 <= k < v ==> Rest(st, s, open, k).None?
    ensures GroupFrom(st, s, open, 1) == Some((v, Rest(st, s, open, v).value))
  {
  }

  /** `preg_match('/(.*?)\s+(.*)/', $x, $m)`: the text before the first
      white space and the first line of what follows the run of white
      space. The lazy first group stops at the first white space, so it
      never reaches a line feed. */
  function SplitAtSpace(x: string): (r: Option<(string, string)>)
    ensures r.Some? <==> exists i :: 0 <= i < |x| && IsSpace(x[i])
    ensures r.Some? ==>
      var a := r.value.0;
      |a| < |x| && a == x[..|a|] && IsSpace(x[|a|]) && (forall i :: 0 <= i < |a| ==> !IsSpace(a[i])) &&
      r.value.1 == TakeLine(LTrimBy(x[|a|..], IsSpace))
  {
    var k := Span(x, 0, NotSpace);
    if k < |x| then Some((x[..k], TakeLine(LTrimBy(x[k..], IsSpace))))
    else None
  }

  /** A word, white space and a one-line text split into the word and the
      text. */
  lemma SplitAtSpaceOf(a: string, w: string, b: string)
    requires forall i :: 0 <= i < |a| ==> !IsSpace(a[i])
    requires 1 <= |w| && forall i :: 0 <= i < |w| ==> IsSpace(w[i])
    requires (b == [] || !IsSpace(b[0])) && '\n' !in b
    ensures SplitAtSpace(a + w + b) == Some((a, b))
  {
    var x := a + w + b;
    assert x[|a|] == w[0];
    forall i | 0 <= i < |a|
      ensures NotSpace(x[i])
    {
      assert x[i] == a[i];
    }
    SpanIs(x, 0, |a|, NotSpace);
    assert x[..|a|] == a;
    assert x[|a|..] == w + b;
    LTrimPrefix(w, b, IsSpace);
    TakeLineWhole(b);
  }
}
