/** The text utilities of `MdPlusHelper`: cutting a text at its
    `__END__` line, splitting and trimming lists, and removing empty lines
    and `#` comment lines. */
module TextUtil {
  import opened Wrappers
  import opened PhpStrings

  /** The line that ends the useful part of a file. */
  const EndMarker: string := "\n__END__\n"

  /** Where `zapFileEND` cuts: just after the line feed that precedes the
      first `__END__` line, at 0 when the text opens with that line, and
      nowhere when there is none. */
  function ZapCut(s: string): (r: Option<nat>)
    ensures r.Some? ==> r.value <= |s|
  {
    match IndexOf(s, EndMarker, 0)
    case Some(p) => Some(p + 1)
    case None => if StartsWith(s, "__END__\n") then Some(0) else None
  }

  /** `zapFileEND($s, $reverse)`: the text before the `__END__` line, or
      with `reverse` the text from that line on. */
  function ZapFileEnd(s: string, reverse: bool): string
  {
    match ZapCut(s)
    case None => if reverse then "" else s
    case Some(c) => if reverse then s[c..] else s[..c]
  }

  /** The two halves put together give the text back. */
  lemma ZapHalves(s: string)
    ensures ZapFileEnd(s, false) + ZapFileEnd(s, true) == s
  {
    match ZapCut(s)
    case None =>
    case Some(c) =>
      assert s[..c] + s[c..] == s;
  }

  /** The part kept contains no `__END__` line, and when a cut was made it
      ends with the line feed before that line (or is empty). */
  lemma ZapKept(s: string)
    ensures forall i :: !OccursAt(ZapFileEnd(s, false), EndMarker, i)
    ensures ZapCut(s).Some? && ZapFileEnd(s, false) != [] ==>
      ZapFileEnd(s, false)[|ZapFileEnd(s, false)| - 1] == '\n'
  {
    var r := ZapFileEnd(s, false);
    match IndexOf(s, EndMarker, 0)
    case Some(p) =>
      assert ZapCut(s) == Some(p + 1);
      assert r == s[..p + 1];
      forall i | OccursAt(r, EndMarker, i)
        ensures false
      {
        assert s[i..i + |EndMarker|] == r[i..i + |EndMarker|];
        assert OccursAt(s, EndMarker, i);
      }
      assert s[p] == s[p..p + |EndMarker|][0];
    case None =>
  }

  /** A text opening with the `__END__` line and holding no other is
      zapped entirely. */
  lemma ZapAtStart(s: string)
    requires StartsWith(s, "__END__\n")
    requires forall i :: !OccursAt(s, EndMarker, i)
    ensures ZapFileEnd(s, false) == "" && ZapFileEnd(s, true) == s
  {
  }

  /** A string with no leading and no trailing `trim` character. */
  predicate Trimmed(s: string)
  {
    s == [] || (!IsTrimChar(s[0]) && !IsTrimChar(s[|s| - 1]))
  }

  lemma TrimIsTrimmed(s: string)
    ensures Trimmed(Trim(s))
  {
    var l := LTrim(s);
    var r := RTrim(l);
    if r != [] {
      assert r[0] == l[0];
    }
  }

  /** The position of the first character of `s` that is in `set`. */
  function FindAny(s: string, chars: string): (r: Option<nat>)
    ensures r.Some? ==> r.value < |s| && s[r.value] in chars
    ensures r.Some? ==> forall k :: 0 <= k < r.value ==> s[k] !in chars
    ensures r.None? ==> forall k :: 0 <= k < |s| ==> s[k] !in chars
  {
    if s == [] then None
    else if s[0] in chars then Some(0)
    else match FindAny(s[1..], chars)
      case None => None
      case Some(i) => Some(i + 1)
  }

  /** `preg_split("/[$chars]/", $s)`: the pieces between the characters of
      `chars`. */
  function SplitAny(s: string, chars: string): (r: seq<string>)
    ensures |r| >= 1
    ensures forall k, j :: 0 <= k < |r| && 0 <= j < |r[k]| ==> r[k][j] !in chars
    decreases |s|
  {
    match FindAny(s, chars)
    case None => [s]
    case Some(i) => [s[..i]] + SplitAny(s[i + 1..], chars)
  }

  /** Every piece trimmed. */
  function TrimAll(pieces: seq<string>): (r: seq<string>)
    ensures |r| == |pieces|
    ensures forall k :: 0 <= k < |r| ==> r[k] == Trim(pieces[k]) && Trimmed(r[k])
  {
    assert forall k :: 0 <= k < |pieces| ==> Trimmed(Trim(pieces[k])) by {
      forall k | 0 <= k < |pieces| {
        TrimIsTrimmed(pieces[k]);
      }
    }
    seq(|pieces|, k requires 0 <= k < |pieces| => Trim(pieces[k]))
  }

  /** `array_filter` keeping the elements that are not `''`. */
  function NonEmpty(xs: seq<string>): (r: seq<string>)
    ensures forall e :: e in r <==> e in xs && e != ""
    ensures multiset(r) == multiset(xs)["" := 0]
    ensures |r| <= |xs|
  {
    if xs == [] then []
    else
      assert xs == [xs[0]] + xs[1..];
      if xs[0] == "" then NonEmpty(xs[1..])
      else [xs[0]] + NonEmpty(xs[1..])
  }

  /** The filter keeps the order of what it keeps: filtering two pieces
      one after the other is filtering their concatenation. */
  lemma {:induction false} NonEmptyConcat(a: seq<string>, b: seq<string>)
    ensures NonEmpty(a + b) == NonEmpty(a) + NonEmpty(b)
    ensures NonEmpty([""]) == [] && forall x :: x != "" ==> NonEmpty([x]) == [x]
  {
    if a != [] {
      assert (a + b)[1..] == a[1..] + b;
      NonEmptyConcat(a[1..], b);
    } else {
      assert a + b == b;
    }
  }

  /** A separator `explodeTrim` treats as a regular expression. */
  predicate IsPatternSeparator(sep: string)
  {
    |sep| > 1 && sep[0] == '/'
  }

  /** The pieces of `explode` (one-character separator) or of
      `preg_split` on the separator's characters (longer separator). */
  function Pieces(s: string, sep: string): (r: seq<string>)
    requires sep != []
    ensures r == SplitAny(s, sep)
  {
    SplitSingleIf(s, sep);
    if |sep| == 1 then Split(s, sep[0]) else SplitAny(s, sep)
  }

  /** `explodeTrim($sep, $str, $excludeEmptyElems)`: the trimmed string
      split at the separator, every piece trimmed, and the empty pieces
      dropped on request. */
  function ExplodeTrim(sep: string, str: string, excludeEmpty: bool): (r: seq<string>)
    requires sep != [] && !IsPatternSeparator(sep)
    ensures Trim(str) == "" ==> r == []
    ensures forall k :: 0 <= k < |r| ==> Trimmed(r[k])
  {
    var s := Trim(str);
    TrimIsTrimmed(str);
    if s == "" then []
    else if FindAny(s, sep).None? then [s]
    else
      var out := TrimAll(Pieces(s, sep));
      if excludeEmpty then
        var kept := NonEmpty(out);
        assert forall k :: 0 <= k < |kept| ==> kept[k] in out;
        kept
      else out
  }

  /** A separator that does not occur gives the trimmed string alone;
      otherwise there is one trimmed element per piece. */
  lemma ExplodeTrimPieces(sep: string, str: string)
    requires sep != [] && !IsPatternSeparator(sep)
    ensures var s := Trim(str);
      s != "" && FindAny(s, sep).None? ==> ExplodeTrim(sep, str, false) == [s]
    ensures var s := Trim(str);
      s != "" ==> (|ExplodeTrim(sep, str, false)| == |SplitAny(s, sep)| &&
        forall k :: 0 <= k < |SplitAny(s, sep)| ==>
          ExplodeTrim(sep, str, false)[k] == Trim(SplitAny(s, sep)[k]))
  {
    var s := Trim(str);
    TrimIsTrimmed(str);
    if s != "" && FindAny(s, sep).None? {
      assert SplitAny(s, sep) == [s];
      assert Trim(s) == s by {
        LTrimTrimmed(s);
        RTrimTrimmed(s);
      }
    }
  }

  lemma LTrimTrimmed(s: string)
    requires Trimmed(s)
    ensures LTrim(s) == s
  {
  }

  lemma RTrimTrimmed(s: string)
    requires Trimmed(s)
    ensures RTrim(s) == s
  {
  }

  /** With the empty pieces excluded, exactly the non-empty pieces remain. */
  lemma ExcludeEmpty(sep: string, str: string)
    requires sep != [] && !IsPatternSeparator(sep)
    ensures ExplodeTrim(sep, str, true) == NonEmpty(ExplodeTrim(sep, str, false))
    ensures forall e :: e in ExplodeTrim(sep, str, true) <==> e in ExplodeTrim(sep, str, false) && e != ""
  {
    TrimIsTrimmed(str);
    var s := Trim(str);
    if s != "" && FindAny(s, sep).None? {
      NonEmptyConcat([], [s]);
    }
  }

  lemma SplitSingleIf(s: string, sep: string)
    requires sep != []
    ensures |sep| == 1 ==> Split(s, sep[0]) == SplitAny(s, sep)
  {
    if |sep| == 1 {
      SplitSingle(s, sep);
    }
  }

  /** `explode` on one character splits where a one-character class does. */
  lemma {:induction false} SplitSingle(s: string, sep: string)
    requires |sep| == 1
    ensures Split(s, sep[0]) == SplitAny(s, sep)
    decreases |s|
  {
    var c := sep[0];
    assert FindAny(s, sep) == FindChar(s, c) by {
      FindAnySingle(s, sep);
    }
    match FindChar(s, c)
    case None =>
      assert SplitAny(s, sep) == [s];
    case Some(i) =>
      var rest := s[i + 1..];
      SplitSingle(rest, sep);
      var t := Split(rest, c);
      assert SplitAny(s, sep) == [s[..i]] + t;
      assert Split(s, c) == [s[..i]] + t;
  }

  lemma {:induction false} FindAnySingle(s: string, sep: string)
    requires |sep| == 1
    ensures FindAny(s, sep) == FindChar(s, sep[0])
  {
    if s != [] {
      FindAnySingle(s[1..], sep);
    }
  }

  /** The last line feed among `s[lo..hi]`. */
  function LastLineFeed(s: string, lo: nat, hi: nat): (r: Option<nat>)
    requires lo <= hi <= |s|
    ensures r.Some? ==> lo <= r.value < hi && s[r.value] == '\n'
    ensures r.Some? ==> forall k :: r.value < k < hi ==> s[k] != '\n'
    ensures r.None? ==> forall k :: lo <= k < hi ==> s[k] != '\n'
    decreases hi - lo
  {
    if hi == lo then None
    else if s[hi - 1] == '\n' then Some(hi - 1)
    else LastLineFeed(s, lo, hi - 1)
  }

  /** Where a match of `/\n\s*\n+/` at the head of `s` ends: a line feed,
      the whitespace after it, given back as far as its last line feed. */
  function BlankRunEnd(s: string): (r: Option<nat>)
    ensures r.Some? ==> 2 <= r.value <= |s| && forall k :: 0 <= k < r.value ==> IsSpace(s[k])
  {
    if s != [] && s[0] == '\n' then
      match LastLineFeed(s, 1, 1 + Span(s, 1, IsSpace))
      case Some(j) => Some(j + 1)
      case None => None
    else None
  }

  /** `removeEmptyLines($str, $leaveOne)`: every run of lines holding only
      whitespace, with the line break before it, becomes one empty line
      (`leaveOne`) or a single line break. */
  function RemoveEmptyLines(s: string, leaveOne: bool): string
    decreases |s|
  {
    if s == [] then []
    else match BlankRunEnd(s)
      case Some(e) => (if leaveOne then "\n\n" else "\n") + RemoveEmptyLines(s[e..], leaveOne)
      case None => [s[0]] + RemoveEmptyLines(s[1..], leaveOne)
  }

  /** The characters of `s` that are not whitespace. */
  function NonSpace(s: string): string
  {
    if s == [] then []
    else if IsSpace(s[0]) then NonSpace(s[1..])
    else [s[0]] + NonSpace(s[1..])
  }

  lemma {:induction false} NonSpaceConcat(a: string, b: string)
    ensures NonSpace(a + b) == NonSpace(a) + NonSpace(b)
  {
    if a != [] {
      assert (a + b)[0] == a[0] && (a + b)[1..] == a[1..] + b;
      NonSpaceConcat(a[1..], b);
    } else {
      assert a + b == b;
    }
  }

  lemma {:induction false} NonSpaceOfSpaces(a: string)
    requires forall k :: 0 <= k < |a| ==> IsSpace(a[k])
    ensures NonSpace(a) == []
  {
    if a != [] {
      NonSpaceOfSpaces(a[1..]);
    }
  }

  /** Only whitespace is removed: the other characters stay, in order. */
  lemma {:induction false} RemoveEmptyLinesKeepsText(s: string, leaveOne: bool)
    ensures NonSpace(RemoveEmptyLines(s, leaveOne)) == NonSpace(s)
    decreases |s|
  {
    if s != [] {
      match BlankRunEnd(s)
      case Some(e) =>
        var rep: string := if leaveOne then "\n\n" else "\n";
        RemoveEmptyLinesKeepsText(s[e..], leaveOne);
        NonSpaceConcat(rep, RemoveEmptyLines(s[e..], leaveOne));
        NonSpaceOfSpaces(rep);
        assert s == s[..e] + s[e..];
        NonSpaceConcat(s[..e], s[e..]);
        NonSpaceOfSpaces(s[..e]);
      case None =>
        RemoveEmptyLinesKeepsText(s[1..], leaveOne);
        assert s == [s[0]] + s[1..];
        NonSpaceConcat([s[0]], s[1..]);
        NonSpaceConcat([s[0]], RemoveEmptyLines(s[1..], leaveOne));
    }
  }

  /** Line feeds at `i` and `j` with only whitespace between them: an
      empty line. */
  predicate BlankLine(r: string, i: int, j: int)
  {
    0 <= i < j < |r| && r[i] == '\n' && r[j] == '\n' && forall k :: i < k < j ==> IsSpace(r[k])
  }

  ghost predicate NoBlankLine(r: string)
  {
    forall i, j :: !BlankLine(r, i, j)
  }

  /** Characters without a line feed pass through unchanged. */
  lemma {:induction false} PassLine(w: string, u: string, leaveOne: bool)
    requires '\n' !in w
    ensures RemoveEmptyLines(w + u, leaveOne) == w + RemoveEmptyLines(u, leaveOne)
    decreases |w|
  {
    if w != [] {
      assert (w + u)[1..] == w[1..] + u;
      PassLine(w[1..], u, leaveOne);
    } else {
      assert w + u == u;
    }
  }

  lemma ShiftNoBlank(c: char, x: string)
    requires c != '\n' && NoBlankLine(x)
    ensures NoBlankLine([c] + x)
  {
    var r := [c] + x;
    forall i, j | 0 <= i < j < |r|
      ensures !BlankLine(r, i, j)
    {
      if i > 0 {
        assert !BlankLine(x, i - 1, j - 1);
        assert r[i] == x[i - 1] && r[j] == x[j - 1];
        assert forall k :: i - 1 < k < j - 1 ==> x[k] == r[k + 1];
      }
    }
  }

  lemma HeadNoBlank(w: string, x: string)
    requires '\n' !in w && NoBlankLine(x)
    requires x == [] || !IsSpace(x[0])
    ensures NoBlankLine("\n" + w + x)
  {
    var r := "\n" + w + x;
    var d := 1 + |w|;
    forall i, j | 0 <= i < j < |r|
      ensures !BlankLine(r, i, j)
    {
      if i >= d {
        assert !BlankLine(x, i - d, j - d);
        assert r[i] == x[i - d] && r[j] == x[j - d];
        assert forall k :: i - d < k < j - d ==> x[k] == r[k + d];
      } else if i > 0 {
        assert r[i] == w[i - 1];
      } else if j < d {
        assert r[j] == w[j - 1];
      } else {
        assert r[d] == x[0];
      }
    }
  }

  /** Whitespace without a line feed from `a` to `h`, then the rest. */
  lemma RunParts(s: string, a: nat, h: nat)
    requires a <= h <= |s|
    requires forall k :: a <= k < h ==> s[k] != '\n'
    requires h == |s| || !IsSpace(s[h])
    ensures var u := s[h..]; u == [] || !IsSpace(u[0])
    ensures '\n' !in s[a..h] && s[a..] == s[a..h] + s[h..]
  {
  }

  /** What follows the line feed that ends a match, or the line feed
      where no match starts, leaves no empty line. */
  lemma AfterRun(w: string, u: string)
    requires '\n' !in w && (u == [] || !IsSpace(u[0]))
    requires NoBlankLine(RemoveEmptyLines(u, false))
    ensures NoBlankLine("\n" + RemoveEmptyLines(w + u, false))
  {
    PassLine(w, u, false);
    HeadLetter(u);
    HeadNoBlank(w, RemoveEmptyLines(u, false));
    assert "\n" + RemoveEmptyLines(w + u, false) == "\n" + w + RemoveEmptyLines(u, false);
  }

  lemma HeadLetter(u: string)
    requires u == [] || !IsSpace(u[0])
    ensures var r := RemoveEmptyLines(u, false); r == [] || !IsSpace(r[0])
  {
  }

  /** Without `leaveOne` no empty line is left. */
  lemma {:induction false} NoEmptyLineLeft(s: string)
    ensures NoBlankLine(RemoveEmptyLines(s, false))
    decreases |s|
  {
    if s != [] {
      var h := 1 + Span(s, 1, IsSpace);
      match BlankRunEnd(s)
      case Some(e) =>
        RunParts(s, e, h);
        NoEmptyLineLeft(s[h..]);
        AfterRun(s[e..h], s[h..]);
      case None =>
        if s[0] != '\n' {
          NoEmptyLineLeft(s[1..]);
          ShiftNoBlank(s[0], RemoveEmptyLines(s[1..], false));
        } else {
          RunParts(s, 1, h);
          NoEmptyLineLeft(s[h..]);
          AfterRun(s[1..h], s[h..]);
        }
    }
  }

  /** A line that opens with `#`. */
  predicate IsCommentLine(l: string)
  {
    |l| > 0 && l[0] == '#'
  }

  /** The lines that are not comment lines, in order. */
  function WithoutComments(ls: seq<string>): (r: seq<string>)
    ensures forall k :: 0 <= k < |r| ==> !IsCommentLine(r[k])
    ensures forall l :: l in ls && !IsCommentLine(l) ==> l in r
    ensures forall l :: l in r ==> l in ls
  {
    if ls == [] then []
    else if IsCommentLine(ls[0]) then WithoutComments(ls[1..])
    else [ls[0]] + WithoutComments(ls[1..])
  }

  /** The lines from the first one PHP counts as true on. */
  function DropLeadingBlank(ls: seq<string>): (r: seq<string>)
    ensures |r| <= |ls| && r == ls[|ls| - |r|..]
    ensures r == [] || Truthy(r[0])
    ensures forall k :: 0 <= k < |ls| - |r| ==> !Truthy(ls[k])
  {
    if ls == [] || Truthy(ls[0]) then ls else DropLeadingBlank(ls[1..])
  }

  /** What `removeHashTypeComments` keeps of a text's lines: the comment
      lines go, and so do the empty (or `0`) lines before the first line
      of data. */
  function KeptLines(s: string): seq<string>
  {
    DropLeadingBlank(WithoutComments(Split(s, '\n')))
  }

  /** The lines still to be kept of `ls`, before (`lead`) or after the
      first line of data. */
  function KeptRest(ls: seq<string>, lead: bool): seq<string>
  {
    if lead then DropLeadingBlank(WithoutComments(ls)) else WithoutComments(ls)
  }

  lemma KeptRestStep(ls: seq<string>, i: nat, lead: bool)
    requires i < |ls|
    ensures var l := ls[i];
      KeptRest(ls[i..], lead) ==
        if IsCommentLine(l) || (lead && !Truthy(l)) then KeptRest(ls[i + 1..], lead)
        else [l] + KeptRest(ls[i + 1..], false)
  {
    assert ls[i..] == [ls[i]] + ls[i + 1..];
  }

  /** `removeHashTypeComments($str)`, walking the lines and dropping
      comment lines and leading blank ones. */
  method RemoveHashTypeComments(s: string) returns (r: string)
    ensures r == Join(KeptLines(s), "\n")
  {
    var lines := Split(s, '\n');
    if !Truthy(s) {
      FalsyKeepsNothing(s);
      return "";
    }
    ghost var all := KeptRest(lines, true);
    var kept: seq<string> := [];
    var lead := true;
    var i := 0;
    assert lines[0..] == lines;
    while i < |lines|
      invariant 0 <= i <= |lines|
      invariant lead <==> kept == []
      invariant all == kept + KeptRest(lines[i..], lead)
    {
      var l := lines[i];
      KeptRestStep(lines, i, lead);
      if IsCommentLine(l) {
        assert all == kept + KeptRest(lines[i + 1..], lead);
      } else if lead && !Truthy(l) {
        assert all == kept + KeptRest(lines[i + 1..], lead);
      } else {
        AppendAssoc(kept, l, KeptRest(lines[i + 1..], false));
        kept := kept + [l];
        lead := false;
        assert all == kept + KeptRest(lines[i + 1..], lead);
      }
      assert all == kept + KeptRest(lines[i + 1..], lead);
      i := i + 1;
    }
    assert KeptRest(lines[i..], lead) == [] by {
      assert lines[i..] == [];
    }
    assert all == kept;
    r := Join(kept, "\n");
  }

  lemma AppendAssoc(a: seq<string>, l: string, b: seq<string>)
    ensures a + ([l] + b) == (a + [l]) + b
  {
  }

  lemma FalsyKeepsNothing(s: string)
    requires !Truthy(s)
    ensures KeptLines(s) == []
  {
    assert Split(s, '\n') == [s];
    assert WithoutComments([s]) == [s];
  }

  /** Dropping comment lines from two runs of lines one after the other
      drops them from each run: the lines kept stay in their order. */
  lemma {:induction false} WithoutCommentsConcat(a: seq<string>, b: seq<string>)
    ensures WithoutComments(a + b) == WithoutComments(a) + WithoutComments(b)
    decreases |a|
  {
    if a == [] {
      assert a + b == b;
    } else {
      var h := if IsCommentLine(a[0]) then [] else [a[0]];
      ConcatTail(a, b);
      WithoutCommentsConcat(a[1..], b);
      WithoutCommentsHead(a + b);
      WithoutCommentsHead(a);
      Associates(h, WithoutComments(a[1..]), WithoutComments(b));
    }
  }

  lemma ConcatTail(a: seq<string>, b: seq<string>)
    requires a != []
    ensures (a + b)[0] == a[0] && (a + b)[1..] == a[1..] + b
  {
  }

  lemma Associates(x: seq<string>, y: seq<string>, z: seq<string>)
    ensures x + (y + z) == (x + y) + z
  {
  }

  /** One line off the front. */
  lemma WithoutCommentsHead(ls: seq<string>)
    requires ls != []
    ensures WithoutComments(ls) == (if IsCommentLine(ls[0]) then [] else [ls[0]]) + WithoutComments(ls[1..])
  {
  }

  /** No comment line is kept, the first kept line is data, the lines
      dropped besides the comment lines are the empty (or `0`) ones before
      it, and every line after it that is not a comment is kept. */
  lemma KeptLinesShape(s: string)
    ensures forall k :: 0 <= k < |KeptLines(s)| ==> !IsCommentLine(KeptLines(s)[k])
    ensures KeptLines(s) == [] || Truthy(KeptLines(s)[0])
    ensures var w := WithoutComments(Split(s, '\n')); var n := |w| - |KeptLines(s)|;
      0 <= n && KeptLines(s) == w[n..] && forall k :: 0 <= k < n ==> !Truthy(w[k])
    ensures forall l :: l in Split(s, '\n') && !IsCommentLine(l) && Truthy(l) ==> l in KeptLines(s)
  {
    var w := WithoutComments(Split(s, '\n'));
    var r := KeptLines(s);
    forall k | 0 <= k < |r|
      ensures !IsCommentLine(r[k])
    {
      assert r[k] == w[|w| - |r| + k];
    }
    forall l | l in Split(s, '\n') && !IsCommentLine(l) && Truthy(l)
      ensures l in r
    {
      var k :| 0 <= k < |w| && w[k] == l;
      if k >= |w| - |r| {
        assert r[k - (|w| - |r|)] == l;
      }
    }
  }

  predicate IsSlash(c: char) { c == '/' }

  /** `fixPath($path)`: a path PHP counts as true gets exactly one trailing
      slash; `''` and `'0'` are returned as they are. */
  function FixPath(path: string): (r: string)
    ensures !Truthy(path) ==> r == path
    ensures Truthy(path) ==> |r| >= 1 && r[|r| - 1] == '/' && (|r| == 1 || r[|r| - 2] != '/')
    ensures Truthy(path) ==> (StartsWith(path, r[..|r| - 1]) &&
      forall k :: |r| - 1 <= k < |path| ==> path[k] == '/')
  {
    if Truthy(path) then RTrimBy(path, IsSlash) + "/" else path
  }

  /** Fixing a fixed path changes nothing. */
  lemma FixPathIdempotent(path: string)
    ensures FixPath(FixPath(path)) == FixPath(path)
  {
    if Truthy(path) {
      var t := RTrimBy(path, IsSlash);
      var r := t + "/";
      assert r[..|r| - 1] == t;
      assert RTrimBy(r, IsSlash) == RTrimBy(t, IsSlash);
    }
  }
}
