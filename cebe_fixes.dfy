/** `fixCebeBugs`: line by line, a list that follows a text line without an
    empty line between them gets one, so that the parent parser sees the
    list; and a line that is a single HTML tag is shielded as literal. */
module CebeFixes {
  import opened Wrappers
  import opened PhpStrings
  import OrderedLists

  /** `^[^\-\s].*`: the line opens with neither a dash nor white space. */
  predicate TextStart(l: string)
  {
    |l| > 0 && l[0] != '-' && !IsSpace(l[0])
  }

  /** `str_starts_with($line, '- ')`: an item of an unordered list. */
  predicate DashItem(l: string)
  {
    StartsWith(l, "- ")
  }

  /** `^\d+!?\.`: an item of an ordered list. */
  predicate NumberItem(l: string)
  {
    OrderedLists.IdentifyOrderedList(l)
  }

  /** A line that opens with `<` and closes with `>`. */
  predicate Wrappable(l: string)
  {
    |l| > 0 && l[0] == '<' && l[|l| - 1] == '>'
  }

  /** The line shielded as `<literal>` when it is a single tag. */
  function Wrap(l: string): string
  {
    if Wrappable(l) then "<literal>" + l + "</literal>" else l
  }

  /** Line `i` gets a line feed appended: the next line is a list item, and
      line `i` is a truthy text line (for `- `) or a truthy line that is not
      itself a numbered item (for `N.`). */
  predicate BreakAfter(lines: seq<string>, i: nat)
    requires i < |lines|
  {
    i + 1 < |lines| && Truthy(lines[i]) &&
    ((DashItem(lines[i + 1]) && TextStart(lines[i])) ||
     (NumberItem(lines[i + 1]) && !NumberItem(lines[i])))
  }

  /** What line `i` becomes. */
  function FixedLine(lines: seq<string>, i: nat): string
    requires i < |lines|
  {
    Wrap(lines[i]) + (if BreakAfter(lines, i) then "\n" else "")
  }

  function FixedLines(lines: seq<string>): (r: seq<string>)
    ensures |r| == |lines| && forall i :: 0 <= i < |lines| ==> r[i] == FixedLine(lines, i)
  {
    seq(|lines|, i requires 0 <= i < |lines| => FixedLine(lines, i))
  }

  /** `fixCebeBugs` as a function of the text. */
  function FixCebe(str: string): string
  {
    Join(FixedLines(Split(str, '\n')), "\n")
  }

  /** Shielding a line changes none of the tests made on the line before a
      list item. */
  lemma WrapKeepsTests(l: string)
    ensures Truthy(Wrap(l)) == Truthy(l)
    ensures TextStart(Wrap(l)) == TextStart(l)
    ensures NumberItem(Wrap(l)) == NumberItem(l)
  {
    if Wrappable(l) {
      var w := Wrap(l);
      assert w[0] == '<';
      assert !IsDigit(l[0]) && !IsDigit(w[0]);
      assert Span(l, 0, IsDigit) == 0;
      assert Span(w, 0, IsDigit) == 0;
    }
  }

  /** A dash item is never a numbered item. */
  lemma DashNotNumber(l: string)
    requires DashItem(l)
    ensures !NumberItem(l)
  {
    assert l[0] == '-';
    assert Span(l, 0, IsDigit) == 0;
  }

  /** The state of the loop before line `i` is read: the lines before
      `i - 1` are final, line `i - 1` is shielded but may still get its line
      feed, and the lines from `i` are as read. */
  ghost predicate FixState(orig: seq<string>, lines: seq<string>, i: nat)
  {
    i <= |orig| && |lines| == |orig| &&
    (forall k :: 0 <= k < i - 1 ==> lines[k] == FixedLine(orig, k)) &&
    (0 < i ==> lines[i - 1] == Wrap(orig[i - 1])) &&
    (forall k :: i <= k < |orig| ==> lines[k] == orig[k])
  }

  /** One turn of the loop: line `i` decides the line feed of the line
      before it, and is shielded itself if it is a single tag. */
  method FixTurn(orig: seq<string>, lines: seq<string>, i: nat) returns (lines2: seq<string>)
    requires i < |orig| && FixState(orig, lines, i)
    ensures FixState(orig, lines2, i + 1)
  {
    lines2 := lines;
    var line := orig[i];
    var brk := false;
    if !Truthy(line) {
    } else if StartsWith(line, "- ") {
      brk := 0 < i && Truthy(lines[i - 1]) && TextStart(lines[i - 1]);
    } else if OrderedLists.IdentifyOrderedList(line) {
      brk := 0 < i && Truthy(lines[i - 1]) && !OrderedLists.IdentifyOrderedList(lines[i - 1]);
    } else if line[0] == '<' && line[|line| - 1] == '>' {
      lines2 := lines2[i := "<literal>" + line + "</literal>"];
    }
    if brk {
      lines2 := lines2[i - 1 := lines[i - 1] + "\n"];
    }
    if 0 < i {
      BreakChoice(orig, i);
    }
    WrapChoice(line);
    FixStep(orig, lines, i, lines2);
  }

  /** Whether line `i - 1` gets its line feed, decided in the order the
      loop tests line `i`. */
  lemma BreakChoice(orig: seq<string>, i: nat)
    requires 0 < i < |orig|
    ensures var line, prev := orig[i], Wrap(orig[i - 1]);
      BreakAfter(orig, i - 1) ==
        (Truthy(line) &&
         if DashItem(line) then Truthy(prev) && TextStart(prev)
         else NumberItem(line) && Truthy(prev) && !NumberItem(prev))
  {
    WrapKeepsTests(orig[i - 1]);
    if DashItem(orig[i]) {
      DashNotNumber(orig[i]);
    }
  }

  /** Only a truthy line that is neither a dash item nor a numbered item
      can be a single tag. */
  lemma WrapChoice(line: string)
    ensures Wrappable(line) ==> Truthy(line) && !DashItem(line) && !NumberItem(line)
  {
    if Wrappable(line) {
      WrapKeepsTests(line);
      assert line[0] == '<';
    }
  }

  /** The loop state moves on when line `i - 1` is final and line `i` is
      shielded, nothing else changing. */
  lemma FixStep(orig: seq<string>, lines: seq<string>, i: nat, lines2: seq<string>)
    requires i < |orig| && FixState(orig, lines, i) && |lines2| == |lines|
    requires 0 < i ==> lines2[i - 1] == FixedLine(orig, i - 1)
    requires lines2[i] == Wrap(orig[i])
    requires forall k :: 0 <= k < |lines| && k != i && k + 1 != i ==> lines2[k] == lines[k]
    ensures FixState(orig, lines2, i + 1)
  {
  }

  /** `fixCebeBugs`: splits the text into lines, walks them in order, and
      joins them again. */
  method FixCebeBugs(str: string) returns (r: string)
    ensures r == FixCebe(str)
  {
    var orig := Split(str, '\n');
    var lines := orig;
    for i := 0 to |orig|
      invariant FixState(orig, lines, i)
    {
      lines := FixTurn(orig, lines, i);
    }
    assert !BreakAfter(orig, |orig| - 1);
    assert forall k :: 0 <= k < |orig| ==> lines[k] == FixedLines(orig)[k];
    assert lines == FixedLines(orig);
    r := Join(lines, "\n");
  }

  /** A shielded line is unshielded by stripping one `<literal>` pair. */
  function Unwrap(l: string): string
  {
    if |l| >= 19 && StartsWith(l, "<literal>") && EndsWith(l, "</literal>") then l[9..|l| - 10] else l
  }

  /** A fixed line back to the line read: the line feed, then the shield,
      removed. */
  function Unfix(f: string): string
  {
    Unwrap(if |f| > 0 && f[|f| - 1] == '\n' then f[..|f| - 1] else f)
  }

  /** A line that already looks shielded is itself a single tag. */
  lemma ShieldedLooking(l: string)
    requires |l| >= 19 && StartsWith(l, "<literal>") && EndsWith(l, "</literal>")
    ensures Wrappable(l)
  {
    assert l[0] == l[..9][0];
    assert l[|l| - 1] == l[|l| - 10..][9];
  }

  /** Nothing of a line is lost: undoing the fix gives the line back. */
  lemma UnfixFixed(lines: seq<string>, i: nat)
    requires i < |lines| && '\n' !in lines[i]
    ensures Unfix(FixedLine(lines, i)) == lines[i]
  {
    var l := lines[i];
    var w := Wrap(l);
    assert |w| == 0 || w[|w| - 1] != '\n' by {
      if Wrappable(l) {
        assert w[|w| - 1] == '>';
      } else if |l| > 0 {
        assert l[|l| - 1] in l;
      }
    }
    if |l| >= 19 && StartsWith(l, "<literal>") && EndsWith(l, "</literal>") {
      ShieldedLooking(l);
    }
    var f := FixedLine(lines, i);
    if BreakAfter(lines, i) {
      assert f[..|f| - 1] == w;
    }
    if Wrappable(l) {
      assert w[9..|w| - 10] == l;
      assert w[..9] == "<literal>";
      assert w[|w| - 10..] == "</literal>";
    }
  }

  /** Joining places two neighbouring pieces next to each other with the
      separator between. */
  lemma {:induction false} JoinAround(xs: seq<string>, sep: string, i: nat) returns (a: string, b: string)
    requires i + 1 < |xs|
    ensures Join(xs, sep) == a + xs[i] + sep + xs[i + 1] + b
    decreases i
  {
    if i == 0 {
      var tail := Join(xs[1..], sep);
      if |xs| == 2 {
        a, b := "", "";
        assert tail == xs[1];
      } else {
        a, b := "", sep + Join(xs[2..], sep);
        assert xs[1..][1..] == xs[2..];
        assert tail == xs[1] + sep + Join(xs[2..], sep);
      }
    } else {
      var a', b' := JoinAround(xs[1..], sep, i - 1);
      a, b := xs[0] + sep + a', b';
    }
  }

  /** The point of the fix: a list item that follows a text line directly
      ends up after an empty line. */
  lemma ListGetsBlankLine(lines: seq<string>, i: nat) returns (before: string, after: string)
    requires i < |lines| && BreakAfter(lines, i)
    ensures Join(FixedLines(lines), "\n") == before + "\n\n" + FixedLine(lines, i + 1) + after
  {
    var xs := FixedLines(lines);
    var a, b := JoinAround(xs, "\n", i);
    var w := Wrap(lines[i]);
    assert xs[i] == w + "\n";
    assert a + xs[i] + "\n" + xs[i + 1] + b == (a + w) + "\n\n" + FixedLine(lines, i + 1) + b;
    before, after := a + w, b;
  }

  /** A text without list items and single-tag lines is left as it is. */
  lemma PlainTextUnchanged(str: string)
    requires forall i :: 0 <= i < |Split(str, '\n')| ==>
      var l := Split(str, '\n')[i]; !DashItem(l) && !NumberItem(l) && !Wrappable(l)
    ensures FixCebe(str) == str
  {
    var lines := Split(str, '\n');
    forall k | 0 <= k < |lines|
      ensures FixedLines(lines)[k] == lines[k]
    {
      assert !BreakAfter(lines, k);
      assert Wrap(lines[k]) == lines[k];
    }
    assert FixedLines(lines) == lines;
    JoinSplit(str, '\n');
  }
}
