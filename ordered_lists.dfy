/** The bang ordered list: a run of lines each starting with a number and a
    dot, where a line written `N!.` sets the number the list starts at. */
module OrderedLists {
  import opened Wrappers
  import opened PhpStrings
  import opened Host

  /** The head of an item line: the length of its digit run and whether a
      `!` stands between the digits and the dot. */
  datatype Marker = Marker(digits: nat, bang: bool)

  /** `^\d+!?\.`: the marker at the head of a line, if there is one. */
  function MarkerOf(line: string): (r: Option<Marker>)
    ensures r.Some? ==> 1 <= r.value.digits && MarkerLen(r.value) <= |line|
  {
    var d := Span(line, 0, IsDigit);
    if d == 0 || d >= |line| then None
    else if line[d] == '.' then Some(Marker(d, false))
    else if line[d] == '!' && d + 1 < |line| && line[d + 1] == '.' then Some(Marker(d, true))
    else None
  }

  /** The digits, the `!` if any, and the dot. */
  function MarkerLen(m: Marker): nat
  {
    m.digits + (if m.bang then 2 else 1)
  }

  /** `identifyOrderedList`: `/^\d+ !? \. /x`, whose spaces the x flag
      ignores, so no space is needed after the dot. */
  predicate IdentifyOrderedList(line: string)
  {
    MarkerOf(line).Some?
  }

  /** Digits, an optional `!`, then a dot, counted from the head of the line. */
  predicate ItemHead(line: string, d: nat, bang: bool)
  {
    1 <= d && (forall k :: 0 <= k < d ==> k < |line| && IsDigit(line[k])) &&
    if bang then d + 1 < |line| && line[d] == '!' && line[d + 1] == '.'
    else d < |line| && line[d] == '.'
  }

  /** A line is an item exactly when it opens with a run of digits, then an
      optional `!`, then a dot; the marker found is that run. */
  lemma IdentifyIff(line: string)
    ensures IdentifyOrderedList(line) <==> exists d: nat, bang: bool :: ItemHead(line, d, bang)
    ensures IdentifyOrderedList(line) ==> ItemHead(line, MarkerOf(line).value.digits, MarkerOf(line).value.bang)
  {
    if exists d: nat, bang: bool :: ItemHead(line, d, bang) {
      var d: nat, bang: bool :| ItemHead(line, d, bang);
      assert !IsDigit(line[d]);
      SpanIs(line, 0, d, IsDigit);
      assert MarkerOf(line) == Some(Marker(d, bang));
    }
    if IdentifyOrderedList(line) {
      var m := MarkerOf(line).value;
      assert ItemHead(line, m.digits, m.bang);
    }
  }

  /** `preg_match('/^(\d+)!?\.\s*(.*)/')`'s second group: the line after its
      marker and the white space that follows it. */
  function ItemText(line: string, m: Marker): string
    requires MarkerLen(m) <= |line|
  {
    line[MarkerLen(m) + Span(line, MarkerLen(m), IsSpace)..]
  }

  /** A consumed list: its items and, as text, the number of the last `N!.`
      line, if any. */
  datatype OList = OList(items: seq<string>, start: Option<string>)

  /** The list and the index of the first line after it. */
  datatype OConsumed = OConsumed(list: OList, next: nat)

  /** The loop of `consumeOrderedList` from line `i`: every item line adds
      its text, and a `N!.` line sets the start. */
  function ConsumeFrom(lines: seq<string>, i: nat, items: seq<string>, start: Option<string>): OConsumed
    requires i <= |lines|
    decreases |lines| - i
  {
    if i == |lines| then OConsumed(OList(items, start), i)
    else match MarkerOf(lines[i])
      case None => OConsumed(OList(items, start), i)
      case Some(m) =>
        ConsumeFrom(lines, i + 1, items + [ItemText(lines[i], m)],
                    if m.bang then Some(lines[i][..m.digits]) else start)
  }

  function ConsumeOl(lines: seq<string>, current: nat): OConsumed
    requires current <= |lines|
  {
    ConsumeFrom(lines, current, [], None)
  }

  /** The line is an item written `N!.`. */
  predicate Bang(line: string)
  {
    MarkerOf(line).Some? && MarkerOf(line).value.bang
  }

  /** The line of the run from `i` to `j` whose `N!.` comes last, if any. */
  function LastBang(lines: seq<string>, i: nat, j: nat): (r: Option<nat>)
    requires i <= j <= |lines|
    ensures r.Some? ==> i <= r.value < j && Bang(lines[r.value])
    ensures r.Some? ==> forall k :: r.value < k < j ==> !Bang(lines[k])
    ensures r.None? ==> forall k :: i <= k < j ==> !Bang(lines[k])
    decreases j - i
  {
    if i == j then None
    else if Bang(lines[j - 1]) then Some(j - 1)
    else LastBang(lines, i, j - 1)
  }

  /** The digits of an item line's marker. */
  function DigitsOf(line: string): string
    requires IdentifyOrderedList(line)
  {
    line[..MarkerOf(line).value.digits]
  }

  /** The run consumed from `i` ends at the first line that is not an item,
      or at the end. */
  lemma {:induction false} RunStops(lines: seq<string>, i: nat, items: seq<string>, start: Option<string>)
    requires i <= |lines|
    ensures var c := ConsumeFrom(lines, i, items, start);
      i <= c.next <= |lines| &&
      (c.next == |lines| || !IdentifyOrderedList(lines[c.next])) &&
      (forall k :: i <= k < c.next ==> IdentifyOrderedList(lines[k]))
    decreases |lines| - i
  {
    if i < |lines| && MarkerOf(lines[i]).Some? {
      var m := MarkerOf(lines[i]).value;
      RunStops(lines, i + 1, items + [ItemText(lines[i], m)], if m.bang then Some(lines[i][..m.digits]) else start);
    }
  }

  /** Each line of the run adds one item, its text after the marker. */
  lemma {:induction false} RunItems(lines: seq<string>, i: nat, items: seq<string>, start: Option<string>)
    requires i <= |lines|
    ensures var c := ConsumeFrom(lines, i, items, start);
      i <= c.next <= |lines| &&
      |c.list.items| == |items| + (c.next - i) &&
      c.list.items[..|items|] == items &&
      (forall k :: i <= k < c.next ==>
        IdentifyOrderedList(lines[k]) &&
        c.list.items[|items| + (k - i)] == ItemText(lines[k], MarkerOf(lines[k]).value))
    decreases |lines| - i
  {
    if i < |lines| && MarkerOf(lines[i]).Some? {
      var m := MarkerOf(lines[i]).value;
      var items' := items + [ItemText(lines[i], m)];
      var start' := if m.bang then Some(lines[i][..m.digits]) else start;
      RunItems(lines, i + 1, items', start');
      var c := ConsumeFrom(lines, i + 1, items', start');
      assert ConsumeFrom(lines, i, items, start) == c;
      var r := c.list.items;
      assert r[..|items'|] == items';
      assert r[..|items|] == r[..|items'|][..|items|];
      forall k | i <= k < c.next
        ensures IdentifyOrderedList(lines[k]) && r[|items| + (k - i)] == ItemText(lines[k], MarkerOf(lines[k]).value)
      {
        if k == i {
          assert r[|items|] == r[..|items'|][|items|];
        } else {
          assert |items| + (k - i) == |items'| + (k - (i + 1));
        }
      }
    }
  }

  /** The start is the number of the run's last `N!.` line, or the one
      given when the run has none. */
  lemma {:induction false} RunStart(lines: seq<string>, i: nat, items: seq<string>, start: Option<string>)
    requires i <= |lines|
    ensures var c := ConsumeFrom(lines, i, items, start);
      c.next <= |lines| && i <= c.next &&
      c.list.start == (match LastBang(lines, i, c.next)
                       case None => start
                       case Some(b) => Some(lines[b][..MarkerOf(lines[b]).value.digits]))
    decreases |lines| - i
  {
    if i < |lines| && MarkerOf(lines[i]).Some? {
      var m := MarkerOf(lines[i]).value;
      var items' := items + [ItemText(lines[i], m)];
      var start' := if m.bang then Some(lines[i][..m.digits]) else start;
      RunStart(lines, i + 1, items', start');
      var c := ConsumeFrom(lines, i + 1, items', start');
      LastBangSplit(lines, i, c.next);
    }
  }

  /** The last bang of a run is the last one after its first line, or the
      first line's own. */
  lemma LastBangSplit(lines: seq<string>, i: nat, j: nat)
    requires i < j <= |lines|
    ensures LastBang(lines, i, j) ==
      (match LastBang(lines, i + 1, j)
       case Some(b) => Some(b)
       case None => if Bang(lines[i]) then Some(i) else None)
  {
    var r := LastBang(lines, i, j);
    var s := LastBang(lines, i + 1, j);
    if s.Some? {
      assert r.Some? ==> r.value == s.value;
    } else if Bang(lines[i]) {
      assert r == Some(i);
    }
  }

  /** `consumeOrderedList` from an identified line: the run holds at least
      that line and ends at the first line that is not an item; every item
      is a line's text after its marker. */
  lemma ConsumeOlItems(lines: seq<string>, current: nat)
    requires current < |lines| && IdentifyOrderedList(lines[current])
    ensures var c := ConsumeOl(lines, current);
      current < c.next <= |lines| &&
      (c.next == |lines| || !IdentifyOrderedList(lines[c.next])) &&
      |c.list.items| == c.next - current &&
      (forall k :: current <= k < c.next ==>
        IdentifyOrderedList(lines[k]) &&
        c.list.items[k - current] == ItemText(lines[k], MarkerOf(lines[k]).value))
  {
    RunStops(lines, current, [], None);
    RunItems(lines, current, [], None);
  }

  /** The list gets a start exactly when its run has a `N!.` line, and the
      start is the number of the last such line. */
  lemma ConsumeOlStart(lines: seq<string>, current: nat)
    requires current <= |lines|
    ensures var c := ConsumeOl(lines, current);
      c.next <= |lines| && current <= c.next &&
      (c.list.start.Some? <==> exists k :: current <= k < c.next && Bang(lines[k])) &&
      (forall b ::
        (current <= b < c.next && Bang(lines[b]) && (forall k :: b < k < c.next ==> !Bang(lines[k]))) ==>
        c.list.start == Some(DigitsOf(lines[b])))
  {
    RunStart(lines, current, [], None);
    var c := ConsumeOl(lines, current);
    var lb := LastBang(lines, current, c.next);
    forall b | current <= b < c.next && Bang(lines[b]) && (forall k :: b < k < c.next ==> !Bang(lines[k]))
      ensures lb == Some(b)
    {
      assert lb.Some?;
      assert !(lb.value < b) && !(b < lb.value);
    }
  }

  /** `consumeOrderedList`: reads item lines from `current` until a line is
      not an item, then returns the list and the index the loop stopped at. */
  method ConsumeOrderedList(lines: seq<string>, current: nat) returns (list: OList, next: nat)
    requires current <= |lines|
    ensures OConsumed(list, next) == ConsumeOl(lines, current)
  {
    var items: seq<string> := [];
    var start: Option<string> := None;
    var i := current;
    while i < |lines|
      invariant current <= i <= |lines|
      invariant ConsumeFrom(lines, i, items, start) == ConsumeOl(lines, current)
      decreases |lines| - i
    {
      var line := lines[i];
      var m := MarkerOf(line);
      if m.None? {
        break;
      }
      if m.value.bang {
        start := Some(line[..m.value.digits]);
      }
      items := items + [ItemText(line, m.value)];
      i := i + 1;
    }
    list := OList(items, start);
    next := i;
  }

  /** The index the parent parser should resume after: the list's last line. */
  function LastConsumed(c: OConsumed): int
  {
    c.next - 1
  }

  /** `consumeOrderedList` returns the index it stopped at, the first line
      after the list; the parent parser resumes one line later, so a line
      that follows the list directly is read by no block: here `text`. */
  lemma ResumeSkipsLine()
    ensures var lines := ["1!. a", "text"];
      ConsumeOl(lines, 0).next == 1 && !IdentifyOrderedList(lines[1]) &&
      ConsumeOl(lines, 0).list.items == ["a"]
  {
    var lines := ["1!. a", "text"];
    assert Span(lines[0], 0, IsDigit) == 1 by { SpanIs(lines[0], 0, 1, IsDigit); }
    assert Span(lines[0], 3, IsSpace) == 1 by { SpanIs(lines[0], 3, 1, IsSpace); }
    assert Span(lines[1], 0, IsDigit) == 0;
    assert ItemText(lines[0], Marker(1, true)) == "a";
  }

  /** The corrected return value is the last line of the list, so resuming
      one line later reads the first line after it. */
  lemma LastConsumedIsLastItem(lines: seq<string>, current: nat)
    requires current < |lines| && IdentifyOrderedList(lines[current])
    ensures var c := ConsumeOl(lines, current);
      current <= LastConsumed(c) < |lines| && IdentifyOrderedList(lines[LastConsumed(c)]) &&
      (LastConsumed(c) + 1 == |lines| || !IdentifyOrderedList(lines[LastConsumed(c) + 1]))
  {
    ConsumeOlItems(lines, current);
  }

  /** `renderOrderedList`'s start attribute. */
  function StartAttr(start: Option<string>): string
  {
    match start
    case None => ""
    case Some(n) => " start='" + n + "'"
  }

  /** One item: compiled without its `<p>` wrapper and trimmed. */
  function ItemHtml(item: string, e: Engine): string
  {
    "<li>" + Trim(e.compile(item, true)) + "</li>\n"
  }

  /** The first `n` items. */
  function ItemsHtml(items: seq<string>, n: nat, e: Engine): string
    requires n <= |items|
  {
    if n == 0 then "" else ItemsHtml(items, n - 1, e) + ItemHtml(items[n - 1], e)
  }

  /** Appending the next item extends the items written. */
  lemma ItemsStep(items: seq<string>, n: nat, e: Engine, out: string, li: string)
    requires n < |items|
    requires out == ItemsHtml(items, n, e) && li == ItemHtml(items[n], e)
    ensures out + li == ItemsHtml(items, n + 1, e)
  {
  }

  /** The opening tag, with the start when one was set. */
  function OlHead(start: Option<string>): string
  {
    match start
    case None => "<ol>\n"
    case Some(n) => "<ol start='" + n + "'>\n"
  }

  /** The tag `"<ol$start>\n"` as the source pieces it together. */
  lemma OlHeadPieces(start: Option<string>)
    ensures "<ol" + StartAttr(start) + ">\n" == OlHead(start)
  {
    if start.Some? {
      var n := start.value;
      calc {
        "<ol" + StartAttr(start) + ">\n";
        "<ol" + (" start='" + n + "'") + ">\n";
        { assert "<ol" + (" start='" + n + "'") == "<ol" + " start='" + n + "'"; }
        "<ol" + " start='" + n + "'" + ">\n";
        { assert "<ol" + " start='" == "<ol start='"; }
        "<ol start='" + n + "'" + ">\n";
        { assert ("<ol start='" + n) + "'" + ">\n" == ("<ol start='" + n) + ("'" + ">\n"); }
        "<ol start='" + n + ("'" + ">\n");
        { assert "'" + ">\n" == "'>\n"; }
        "<ol start='" + n + "'>\n";
      }
    }
  }

  function OlHtml(list: OList, e: Engine): string
  {
    OlHead(list.start) + ItemsHtml(list.items, |list.items|, e) + "</ol>\n"
  }

  /** The body of `renderOrderedList`'s loop for one item. */
  method RenderItem(item: string, e: Engine) returns (li: string)
    ensures li == ItemHtml(item, e)
  {
    var line := e.compile(item, true);
    line := Trim(line);
    li := "<li>" + line + "</li>\n";
  }

  /** The loop of `renderOrderedList`: the items in order. */
  method RenderItems(items: seq<string>, e: Engine) returns (out: string)
    ensures out == ItemsHtml(items, |items|, e)
  {
    out := "";
    for n := 0 to |items|
      invariant out == ItemsHtml(items, n, e)
    {
      var li := RenderItem(items[n], e);
      ItemsStep(items, n, e, out, li);
      out := out + li;
    }
  }

  /** `renderOrderedList`: one `<li>` per item, in order, inside an `<ol>`
      that carries the start when one was set. */
  method RenderOrderedList(list: OList, e: Engine) returns (html: string)
    ensures html == OlHtml(list, e)
  {
    var start := "";
    if list.start.Some? {
      start := " start='" + list.start.value + "'";
    }
    var out := RenderItems(list.items, e);
    OlHeadPieces(list.start);
    html := "<ol" + start + ">\n" + out + "</ol>\n";
  }

  /** The rendered list opens with `<ol start='N'>` when a start was set,
      and with a bare `<ol>` otherwise. */
  lemma OlOpening(list: OList, e: Engine)
    ensures list.start.None? ==> StartsWith(OlHtml(list, e), "<ol>\n")
    ensures list.start.Some? ==> StartsWith(OlHtml(list, e), "<ol start='" + list.start.value + "'>\n")
  {
    StartsWithConcat3(OlHead(list.start), ItemsHtml(list.items, |list.items|, e), "</ol>\n");
  }

  /** The rendered list opens with `<ol start='N'>`, `N` the number of the
      run's last `N!.` line, or with a bare `<ol>` when the run has none. */
  lemma RenderedStart(lines: seq<string>, current: nat, e: Engine)
    requires current <= |lines|
    ensures var c := ConsumeOl(lines, current);
      c.next <= |lines| &&
      ((forall k :: current <= k < c.next ==> !Bang(lines[k])) ==> StartsWith(OlHtml(c.list, e), "<ol>\n")) &&
      (forall b ::
        (current <= b < c.next && Bang(lines[b]) && (forall k :: b < k < c.next ==> !Bang(lines[k]))) ==>
        StartsWith(OlHtml(c.list, e), "<ol start='" + DigitsOf(lines[b]) + "'>\n"))
  {
    ConsumeOlStart(lines, current);
    OlOpening(ConsumeOl(lines, current).list, e);
  }
}
