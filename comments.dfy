/** `removeCStyleComments` of `MdPlusHelper`: block comments that open
    after whitespace (or at the start of the text) are cut out first, then
    line comments that do not follow a `:` (as in `http://`) or a
    backslash. */
module Comments {
  import opened Wrappers
  import opened PhpStrings

  /** The state after one turn of either loop: finished, continue with
      this text from this position, or return this text at once. */
  datatype Pass = Done | Next(str: string, p: nat) | Stop(str: string)

  /** A character after which a block comment may open. */
  predicate IsCommentLead(c: char)
  {
    c == ' ' || c == '\n' || c == '\t'
  }

  /** The character before position `q`, a line feed at the start. */
  function Before(str: string, q: nat): char
    requires q <= |str|
  {
    if q > 0 then str[q - 1] else '\n'
  }

  /** One turn of the block-comment loop, as written: an opener that is
      never closed makes `strpos` return `false`, and `substr($str, false + 2)` keeps
      the text from its third character on. */
  function BlockStepAsWritten(str: string, p: nat): Pass
    requires p <= |str|
  {
    match IndexOf(str, "/*", p)
    case None => Done
    case Some(q) =>
      var ch := Before(str, q);
      if q > 0 && ch == '\\' then Next(str, q + 2)
      else if !IsCommentLead(ch) then Next(str, q + 2)
      else match IndexOf(str, "*/", q)
        case Some(q2) => Next(str[..q] + str[q2 + 2..], q)
        case None => Next(str[..q] + str[2..], q)
  }

  /** One turn of the block-comment loop with an unclosed comment
      running to the end of the text, as a line comment does. */
  function BlockStep(str: string, p: nat): (r: Pass)
    requires p <= |str|
    ensures r.Next? ==> r.p <= |r.str| && (|r.str| < |str| || (|r.str| == |str| && r.p > p))
    ensures !r.Stop?
  {
    match IndexOf(str, "/*", p)
    case None => Done
    case Some(q) =>
      var ch := Before(str, q);
      if q > 0 && ch == '\\' then Next(str, q + 2)
      else if !IsCommentLead(ch) then Next(str, q + 2)
      else match IndexOf(str, "*/", q)
        case Some(q2) => Next(str[..q] + str[q2 + 2..], q)
        case None => Next(str[..q], q)
  }

  /** The block-comment loop from position `p`. */
  function BlockPass(str: string, p: nat): string
    requires p <= |str|
    decreases |str|, |str| - p
  {
    match BlockStep(str, p)
    case Next(s, q) => BlockPass(s, q)
    case _ => str
  }

  /** One turn of the line-comment loop. */
  function LineStep(str: string, p: nat): (r: Pass)
    requires p <= |str|
    ensures r.Next? ==> r.p <= |r.str| && (|r.str| < |str| || (|r.str| == |str| && r.p > p))
  {
    match IndexOf(str, "//", p)
    case None => Done
    case Some(q) =>
      var ch := Before(str, q);
      if q > 0 && ch == ':' then Next(str, q + 2)
      else if q > 0 && ch == '\\' then Next(str, q + 2)
      else match IndexOf(str, "\n", q)
        case None => Stop(str[..q])
        case Some(q2) =>
          assert str[q] == str[q..q + 2][0] && str[q + 1] == str[q..q + 2][1];
          var e := if q == 0 || ch == '\n' then q2 + 1 else q2;
          Next(str[..q] + str[e..], q)
  }

  /** The line-comment loop from position `p`. */
  function LinePass(str: string, p: nat): string
    requires p <= |str|
    decreases |str|, |str| - p
  {
    match LineStep(str, p)
    case Done => str
    case Next(s, q) => LinePass(s, q)
    case Stop(s) => s
  }

  /** What `removeCStyleComments` returns. */
  function Uncommented(s: string): string
  {
    LinePass(BlockPass(s, 0), 0)
  }

  /** `removeCStyleComments($str)`. */
  method RemoveCStyleComments(s: string) returns (r: string)
    ensures r == Uncommented(s)
  {
    var str := CutBlockComments(s);
    r := CutLineComments(str);
  }

  /** The first loop of `removeCStyleComments`. */
  method CutBlockComments(s: string) returns (str: string)
    ensures str == BlockPass(s, 0)
  {
    str := s;
    var p: nat := 0;
    while true
      invariant p <= |str|
      invariant BlockPass(str, p) == BlockPass(s, 0)
      decreases |str|, |str| - p
    {
      var found := IndexOf(str, "/*", p);
      if found.None? {
        break;
      }
      var q := found.value;
      var ch := Before(str, q);
      if q > 0 && ch == '\\' {
        assert BlockStep(str, p) == Next(str, q + 2);
        p := q + 2;
        continue;
      }
      if !IsCommentLead(ch) {
        assert BlockStep(str, p) == Next(str, q + 2);
        p := q + 2;
        continue;
      }
      var close := IndexOf(str, "*/", q);
      if close.Some? {
        assert BlockStep(str, p) == Next(str[..q] + str[close.value + 2..], q);
        str := str[..q] + str[close.value + 2..];
      } else {
        assert BlockStep(str, p) == Next(str[..q], q);
        str := str[..q];
      }
      p := q;
    }
  }

  /** The second loop of `removeCStyleComments`. */
  method CutLineComments(s: string) returns (r: string)
    ensures r == LinePass(s, 0)
  {
    var str := s;
    var p: nat := 0;
    while true
      invariant p <= |str|
      invariant LinePass(str, p) == LinePass(s, 0)
      decreases |str|, |str| - p
    {
      var step := LineTurn(str, p);
      match step
      case Done =>
        return str;
      case Stop(t) =>
        return t;
      case Next(t, q) =>
        str, p := t, q;
    }
  }

  /** One turn of the second loop: the next `//` from `p` is skipped after
      a colon or a backslash; otherwise the rest of its line is cut, with
      the line feed too when the comment fills the line, and the whole
      rest of the text when no line feed follows. */
  method LineTurn(str: string, p: nat) returns (step: Pass)
    requires p <= |str|
    ensures step == LineStep(str, p)
  {
    var found := IndexOf(str, "//", p);
    if found.None? {
      return Done;
    }
    var q := found.value;
    var ch := Before(str, q);
    if q > 0 && ch == ':' {
      return Next(str, q + 2);
    }
    if q > 0 && ch == '\\' {
      return Next(str, q + 2);
    }
    var eol := IndexOf(str, "\n", q);
    if eol.None? {
      return Stop(str[..q]);
    }
    var e := eol.value;
    if q == 0 || ch == '\n' {
      e := e + 1;
    }
    LineCut(str, p, q, e);
    step := Next(str[..q] + str[e..], q);
  }

  /** The cut branch of one turn, stated on its own. */
  lemma LineCut(str: string, p: nat, q: nat, e: nat)
    requires p <= |str| && IndexOf(str, "//", p) == Some(q)
    requires q == 0 || (str[q - 1] != ':' && str[q - 1] != '\\')
    requires IndexOf(str, "\n", q).Some?
    requires e == if q == 0 || Before(str, q) == '\n' then IndexOf(str, "\n", q).value + 1
                  else IndexOf(str, "\n", q).value
    ensures e <= |str| && LineStep(str, p) == Next(str[..q] + str[e..], q)
  {
  }

  /** A block comment would be cut out here: its opener stands at the start
      or after whitespace. */
  predicate OpensBlock(s: string, i: int)
  {
    OccursAt(s, "/*", i) && (i == 0 || IsCommentLead(s[i - 1]))
  }

  /** A `//` the line pass leaves: after a colon, a backslash, or the
      first slash of a `///`. */
  predicate KeptSlashes(s: string, i: int)
  {
    0 < i < |s| && (s[i - 1] == ':' || s[i - 1] == '\\' || s[i - 1] == '/')
  }

  /** Cutting after position `q` leaves the openers before `q` as they were. */
  lemma CutKeepsBlock(str: string, p: nat, q: nat, tail: string)
    requires p <= q && OccursAt(str, "/*", q)
    requires forall i :: p <= i < q ==> !OccursAt(str, "/*", i)
    requires forall i :: 0 <= i < p ==> !OpensBlock(str, i)
    requires q == 0 || IsCommentLead(str[q - 1])
    ensures forall i :: 0 <= i < q ==> !OpensBlock(str[..q] + tail, i)
  {
    var t := str[..q] + tail;
    forall i | 0 <= i < q
      ensures !OpensBlock(t, i)
    {
      if i + 1 < q {
        assert t[i..i + 2] == str[i..i + 2];
        assert i > 0 ==> t[i - 1] == str[i - 1];
        assert OpensBlock(t, i) ==> OpensBlock(str, i);
      } else if i + 2 <= |t| {
        assert i == q - 1 && t[i] == str[q - 1] && str[q - 1] != '/';
        assert t[i..i + 2][0] == t[i];
      }
    }
  }

  /** Skipping an excused opener keeps the invariant. */
  lemma SkipKeepsBlock(str: string, p: nat, q: nat)
    requires p <= q && OccursAt(str, "/*", q)
    requires forall i :: p <= i < q ==> !OccursAt(str, "/*", i)
    requires forall i :: 0 <= i < p ==> !OpensBlock(str, i)
    requires q > 0 && !IsCommentLead(str[q - 1])
    ensures forall i :: 0 <= i < q + 2 ==> !OpensBlock(str, i)
  {
    assert str[q + 1] == str[q..q + 2][1];
  }

  /** After the block pass no comment opener that it would act on is left. */
  lemma {:induction false} NoBlockOpenerLeft(str: string, p: nat)
    requires p <= |str|
    requires forall i :: 0 <= i < p ==> !OpensBlock(str, i)
    ensures forall i :: !OpensBlock(BlockPass(str, p), i)
    decreases |str|, |str| - p
  {
    match IndexOf(str, "/*", p)
    case None =>
    case Some(q) =>
      var ch := Before(str, q);
      if (q > 0 && ch == '\\') || !IsCommentLead(ch) {
        assert BlockStep(str, p) == Next(str, q + 2);
        SkipKeepsBlock(str, p, q);
        NoBlockOpenerLeft(str, q + 2);
      } else {
        match IndexOf(str, "*/", q)
        case Some(q2) =>
          assert BlockStep(str, p) == Next(str[..q] + str[q2 + 2..], q);
          CutKeepsBlock(str, p, q, str[q2 + 2..]);
          NoBlockOpenerLeft(str[..q] + str[q2 + 2..], q);
        case None =>
          assert BlockStep(str, p) == Next(str[..q], q);
          CutKeepsBlock(str, p, q, []);
          assert str[..q] + [] == str[..q];
          NoBlockOpenerLeft(str[..q], q);
      }
  }

  /** Cutting after position `q` leaves the line comments before it as they were. */
  lemma CutKeepsLine(str: string, p: nat, q: nat, tail: string)
    requires p <= q && OccursAt(str, "//", q)
    requires forall i :: p <= i < q ==> !OccursAt(str, "//", i)
    requires forall i :: 0 <= i < p && OccursAt(str, "//", i) ==> KeptSlashes(str, i)
    requires q == 0 || str[q - 1] != '/' || tail == [] || tail[0] != '/'
    ensures forall i :: 0 <= i < q && OccursAt(str[..q] + tail, "//", i) ==> KeptSlashes(str[..q] + tail, i)
  {
    var t := str[..q] + tail;
    forall i | 0 <= i < q
      ensures OccursAt(t, "//", i) ==> KeptSlashes(t, i)
    {
      if i + 1 < q {
        assert t[i..i + 2] == str[i..i + 2];
        assert i > 0 ==> t[i - 1] == str[i - 1];
        assert OccursAt(t, "//", i) ==> OccursAt(str, "//", i);
      } else if i + 2 <= |t| {
        assert t[i..i + 2][0] == str[q - 1] && t[i..i + 2][1] == tail[0];
      }
    }
  }

  lemma SkipKeepsLine(str: string, p: nat, q: nat)
    requires p <= q && OccursAt(str, "//", q)
    requires forall i :: p <= i < q ==> !OccursAt(str, "//", i)
    requires forall i :: 0 <= i < p && OccursAt(str, "//", i) ==> KeptSlashes(str, i)
    requires q > 0 && (str[q - 1] == ':' || str[q - 1] == '\\')
    ensures forall i :: 0 <= i < q + 2 && OccursAt(str, "//", i) ==> KeptSlashes(str, i)
  {
    assert str[q] == str[q..q + 2][0];
  }

  /** The text joined to the kept part of a cut line does not start a new
      `//` with its last character. */
  lemma CutTail(str: string, q: nat, q2: nat, e: nat)
    requires q <= q2 < |str| && str[q2..q2 + 1] == "\n"
    requires e == if q == 0 || Before(str, q) == '\n' then q2 + 1 else q2
    ensures q == 0 || str[q - 1] != '/' || str[e..] == [] || str[e..][0] != '/'
  {
    assert str[q2] == str[q2..q2 + 1][0];
    assert e < |str| ==> str[e..][0] == str[e];
  }

  /** Every `//` before `p` is one the line pass leaves. */
  predicate LineCleanBefore(s: string, p: int)
  {
    forall i :: 0 <= i < p && OccursAt(s, "//", i) ==> KeptSlashes(s, i)
  }

  /** One turn of the line pass keeps `LineCleanBefore` at its position,
      and a pass that ends leaves a clean text. */
  lemma LineStepClean(str: string, p: nat)
    requires p <= |str| && LineCleanBefore(str, p)
    ensures LineStep(str, p).Next? ==> LineCleanBefore(LineStep(str, p).str, LineStep(str, p).p)
    ensures LineStep(str, p).Done? ==> LineCleanBefore(str, |str|)
    ensures LineStep(str, p).Stop? ==> LineCleanBefore(LineStep(str, p).str, |LineStep(str, p).str|)
  {
    match IndexOf(str, "//", p)
    case None =>
    case Some(q) =>
      var ch := Before(str, q);
      if q > 0 && (ch == ':' || ch == '\\') {
        assert LineStep(str, p) == Next(str, q + 2);
        SkipKeepsLine(str, p, q);
      } else {
        match IndexOf(str, "\n", q)
        case None =>
          assert LineStep(str, p) == Stop(str[..q]);
          CutKeepsLine(str, p, q, []);
          assert str[..q] + [] == str[..q];
        case Some(q2) =>
          var e := if q == 0 || ch == '\n' then q2 + 1 else q2;
          LineCut(str, p, q, e);
          CutTail(str, q, q2, e);
          CutKeepsLine(str, p, q, str[e..]);
      }
  }

  /** After the line pass every `//` left follows a colon, a backslash or
      another slash. */
  lemma {:induction false} NoLineCommentLeft(str: string, p: nat)
    requires p <= |str| && LineCleanBefore(str, p)
    ensures LineCleanBefore(LinePass(str, p), |LinePass(str, p)|)
    decreases |str|, |str| - p
  {
    LineStepClean(str, p);
    match LineStep(str, p)
    case Done =>
    case Stop(_) =>
    case Next(t, q) => NoLineCommentLeft(t, q);
  }

  /** What is left after `removeCStyleComments` holds no comment it would
      remove. */
  lemma UncommentedClean(s: string)
    ensures LineCleanBefore(Uncommented(s), |Uncommented(s)|)
  {
    NoLineCommentLeft(BlockPass(s, 0), 0);
  }

  lemma BlockPassClean(s: string)
    ensures forall i :: !OpensBlock(BlockPass(s, 0), i)
  {
    NoBlockOpenerLeft(s, 0);
  }

  /** As written, an unclosed comment opening at position 2 after
      whitespace leaves the text and the position unchanged: the loop
      never ends. The corrected pass cuts the text there. */
  lemma UnclosedStalls(s: string)
    requires |s| >= 4 && IsCommentLead(s[1]) && s[2..4] == "/*"
    requires !OccursAt(s, "/*", 0) && !OccursAt(s, "/*", 1)
    requires forall i :: !OccursAt(s, "*/", i)
    ensures BlockStepAsWritten(s, 0) == Next(s, 2)
    ensures BlockStepAsWritten(s, 2) == Next(s, 2)
    ensures BlockPass(s, 0) == s[..2]
  {
    assert OccursAt(s, "/*", 2);
    assert IndexOf(s, "/*", 0) == Some(2);
    assert IndexOf(s, "/*", 2) == Some(2);
    assert IndexOf(s, "*/", 2).None?;
    assert Before(s, 2) == s[1];
    assert s[..2] + s[2..] == s;
    assert BlockStep(s, 0) == Next(s[..2], 2);
    assert IndexOf(s[..2], "/*", 2).None? by {
      assert !OccursAt(s[..2], "/*", 2);
    }
    assert BlockPass(s[..2], 2) == s[..2];
  }

  /** As written, an unclosed comment at the very start loses only its
      two-character opener, and the rest of the text stays. The corrected
      pass cuts it to the end of the text. */
  lemma UnclosedAtStart()
    ensures BlockStepAsWritten("/* abc", 0) == Next(" abc", 0)
    ensures BlockStepAsWritten(" abc", 0) == Done
    ensures BlockEnds("/* abc", 0) && BlockPassAsWritten("/* abc", 0) == " abc"
    ensures BlockPass("/* abc", 0) == ""
  {
    var s := "/* abc";
    assert s[0..2] == "/*";
    assert IndexOf(s, "/*", 0) == Some(0);
    forall i ensures !OccursAt(s, "*/", i) {
      if 0 <= i && i + 2 <= |s| {
        assert s[i..i + 2][0] == s[i] && s[i..i + 2][1] == s[i + 1];
      }
    }
    assert IndexOf(s, "*/", 0).None?;
    assert s[..0] + s[2..] == " abc";
    var t := " abc";
    forall i ensures !OccursAt(t, "/*", i) {
      if 0 <= i && i + 2 <= |t| {
        assert t[i..i + 2][0] == t[i];
      }
    }
    assert IndexOf(t, "/*", 0).None?;
    assert BlockStep(s, 0) == Next(s[..0], 0);
    assert IndexOf(s[..0], "/*", 0).None? by {
      assert !OccursAt(s[..0], "/*", 0);
    }
  }

  /** A turn that leaves a shorter text, or the same text with the
      search moved on. */
  predicate Progresses(str: string, p: nat, s: string, q: nat)
  {
    |s| < |str| || (|s| == |str| && q > p)
  }

  /** The block-comment loop as written ends from position `p`: no turn
      meets an unclosed comment that would keep or grow the text without
      moving on. */
  predicate BlockEnds(str: string, p: nat)
    requires p <= |str|
    decreases |str|, |str| - p
  {
    match BlockStepAsWritten(str, p)
    case Next(s, q) => q <= |s| && Progresses(str, p, s, q) && BlockEnds(s, q)
    case _ => true
  }

  /** The block-comment loop as written, for a text on which it ends. */
  function BlockPassAsWritten(str: string, p: nat): string
    requires p <= |str| && BlockEnds(str, p)
    decreases |str|, |str| - p
  {
    match BlockStepAsWritten(str, p)
    case Next(s, q) => BlockPassAsWritten(s, q)
    case _ => str
  }

  /** The turn from `p` finds no comment, skips the one it finds, or
      finds that comment closed. */
  predicate MeetsClosed(str: string, p: nat)
    requires p <= |str|
  {
    match IndexOf(str, "/*", p)
    case None => true
    case Some(q) =>
      var ch := Before(str, q);
      (q > 0 && ch == '\\') || !IsCommentLead(ch) || IndexOf(str, "*/", q).Some?
  }

  /** No turn of the block-comment loop meets an unclosed comment. */
  predicate AllClosed(str: string, p: nat)
    requires p <= |str|
    decreases |str|, |str| - p
  {
    MeetsClosed(str, p) &&
    match BlockStep(str, p)
    case Next(s, q) => AllClosed(s, q)
    case _ => true
  }

  /** Where every comment met is closed, the loop as written ends and
      agrees with the corrected one. */
  lemma {:induction false} AllClosedAgrees(str: string, p: nat)
    requires p <= |str| && AllClosed(str, p)
    ensures BlockEnds(str, p) && BlockPassAsWritten(str, p) == BlockPass(str, p)
    decreases |str|, |str| - p
  {
    StepsAgree(str, p);
    match BlockStep(str, p)
    case Next(s, q) => AllClosedAgrees(s, q);
    case _ =>
  }

  /** A turn that meets a closed comment, or none, is the same as written
      and corrected. */
  lemma StepsAgree(str: string, p: nat)
    requires p <= |str| && MeetsClosed(str, p)
    ensures BlockStepAsWritten(str, p) == BlockStep(str, p)
  {
  }

  /** An unclosed comment at position 2 after whitespace: the loop as
      written does not end. */
  lemma UnclosedNeverEnds(s: string)
    requires |s| >= 4 && IsCommentLead(s[1]) && s[2..4] == "/*"
    requires !OccursAt(s, "/*", 0) && !OccursAt(s, "/*", 1)
    requires forall i :: !OccursAt(s, "*/", i)
    ensures !BlockEnds(s, 0)
  {
    UnclosedStalls(s);
  }

  /** As written, an unclosed comment found past position 2 makes the
      text longer: the head up to the opener is followed by everything
      from position 2 on, so the loop never counts as ending. */
  lemma UnclosedGrows(str: string, p: nat, q: nat)
    requires p <= |str| && IndexOf(str, "/*", p) == Some(q) && q > 2
    requires IsCommentLead(Before(str, q)) && IndexOf(str, "*/", q).None?
    ensures BlockStepAsWritten(str, p).Next?
    ensures |BlockStepAsWritten(str, p).str| == |str| + q - 2 > |str|
    ensures !BlockEnds(str, p)
  {
    assert Before(str, q) != '\\';
  }

  /** The four characters a, space, slash, star form such a text. */
  lemma UnclosedExample()
    ensures BlockStepAsWritten("a /*", 2) == Next("a /*", 2)
  {
    var s := "a /*";
    assert s[2..4] == "/*";
    assert s[0..2][0] == 'a' && s[1..3][0] == ' ';
    forall i ensures !OccursAt(s, "*/", i) {
      if 0 <= i && i + 2 <= |s| {
        assert s[i + 1] != '/' || s[i] != '*';
      }
    }
    assert !OccursAt(s, "/*", 0) && !OccursAt(s, "/*", 1);
    UnclosedStalls(s);
  }
}
