/** The two tag lists the DivBlock code consults: the inline elements and
    the singleton elements, each kept as a comma-separated string and
    searched with `str_contains`. */
module TagLists {
  import opened PhpStrings

  /** A list kept the way `INLINE_ELEMENTS` is: the names joined by commas,
      with a comma after the last one. */
  function CommaList(words: seq<string>): string
  {
    Join(words, ",") + ","
  }

  predicate NoComma(s: string)
  {
    ',' !in s
  }

  lemma JoinCons(words: seq<string>)
    requires |words| >= 2
    ensures Join(words, ",") == words[0] + ("," + Join(words[1..], ","))
  {
  }

  /** A comma-free word sits at the start of the comma list of `words`
      exactly when it is the first word. */
  lemma {:induction false} WordAtStart(words: seq<string>, t: string)
    requires words != [] && forall k :: 0 <= k < |words| ==> NoComma(words[k])
    requires NoComma(t)
    ensures OccursAt(CommaList(words), t + ",", 0) <==> t == words[0]
  {
    var s := CommaList(words);
    var w := words[0];
    if |words| == 1 {
      assert s == w + ",";
    } else {
      JoinCons(words);
      assert s == w + ("," + CommaList(words[1..]));
    }
    assert s[..|w| + 1] == w + ",";
    if t == w {
      assert s[..|t| + 1] == t + ",";
    }
    if OccursAt(s, t + ",", 0) {
      SameCut(t, w, s);
    }
  }

  /** A comma-free word followed by a comma at the start of `s` ends at
      the first comma of `s`. */
  lemma FirstComma(x: string, s: string)
    requires NoComma(x) && OccursAt(s, x + ",", 0)
    ensures |x| < |s| && s[|x|] == ','
    ensures forall j :: 0 <= j < |x| ==> s[j] != ','
  {
    assert s[..|x| + 1] == x + ",";
    forall j | 0 <= j < |x|
      ensures s[j] != ','
    {
      assert s[j] == x[j];
      assert x[j] in x;
    }
  }

  /** Two comma-free words that both start `s` followed by a comma are the
      same word. */
  lemma SameCut(a: string, b: string, s: string)
    requires NoComma(a) && NoComma(b)
    requires OccursAt(s, a + ",", 0) && OccursAt(s, b + ",", 0)
    ensures a == b
  {
    FirstComma(a, s);
    FirstComma(b, s);
    assert |a| == |b|;
    assert a == s[..|a|] == b;
  }

  /** An occurrence of `p` in `rest` is one in `w,rest`, shifted. */
  lemma ShiftOccurs(w: string, rest: string, p: string, i: int)
    requires i > |w|
    ensures OccursAt(w + ("," + rest), p, i) <==> OccursAt(rest, p, i - |w| - 1)
  {
    var s := w + ("," + rest);
    if i + |p| <= |s| {
      assert s[i..i + |p|] == rest[i - |w| - 1..i - |w| - 1 + |p|];
    }
  }

  /** `,t,` at the comma after `w` is `t,` at the start of `rest`. */
  lemma AtComma(w: string, rest: string, t: string)
    ensures OccursAt(w + ("," + rest), "," + t + ",", |w|) <==> OccursAt(rest, t + ",", 0)
  {
    var s := w + ("," + rest);
    var p := "," + t + ",";
    assert p == "," + (t + ",");
    if |w| + |p| <= |s| {
      assert s[|w|..|w| + |p|] == "," + rest[..|t| + 1];
      assert s[|w| + 1..|w| + |p|] == rest[..|t| + 1];
    }
  }

  /** A pattern starting with a comma does not start inside a comma-free
      word. */
  lemma NotInWord(w: string, rest: string, p: string, i: int)
    requires NoComma(w) && p != [] && p[0] == ',' && i < |w|
    ensures !OccursAt(w + rest, p, i)
  {
  }

  /** Searching the comma list of `words` for `,t,` finds it exactly when
      `t` is one of the words after the first: the first word has no comma
      before it. */
  lemma {:induction false} CommaListHas(words: seq<string>, t: string)
    requires words != [] && forall k :: 0 <= k < |words| ==> NoComma(words[k])
    requires NoComma(t)
    ensures Contains(CommaList(words), "," + t + ",") <==> t in words[1..]
    decreases |words|
  {
    var s := CommaList(words);
    var p := "," + t + ",";
    var w := words[0];
    ContainsIff(s, p);
    if |words| == 1 {
      assert s == w + ",";
      forall i | OccursAt(s, p, i)
        ensures false
      {
        if i < |w| {
          NotInWord(w, ",", p, i);
        }
      }
    } else {
      var rest := CommaList(words[1..]);
      JoinCons(words);
      assert s == w + ("," + rest);
      assert words[1..][1..] == words[2..];
      CommaListHas(words[1..], t);
      WordAtStart(words[1..], t);
      ContainsIff(rest, p);
      AtComma(w, rest, t);
      if t in words[1..] {
        if t == words[1] {
          assert OccursAt(s, p, |w|);
        } else {
          assert t in words[1..][1..];
          var j :| OccursAt(rest, p, j);
          ShiftOccurs(w, rest, p, |w| + 1 + j);
        }
      } else {
        forall i | OccursAt(s, p, i)
          ensures false
        {
          if i < |w| {
            NotInWord(w, "," + rest, p, i);
          } else if i > |w| {
            ShiftOccurs(w, rest, p, i);
          }
        }
      }
    }
  }

  /** The comma list with a comma in front of it too, so that every name,
      the first included, sits between two commas. */
  lemma {:induction false} FencedList(words: seq<string>, t: string)
    requires words != [] && forall k :: 0 <= k < |words| ==> NoComma(words[k])
    requires NoComma(t)
    ensures Contains("," + CommaList(words), "," + t + ",") <==> t in words
  {
    var ws := [""] + words;
    JoinCons(ws);
    assert ws[1..] == words;
    assert "," + CommaList(words) == CommaList(ws);
    CommaListHas(ws, t);
  }

  // ---- inline elements -----------------------------------------------------

  /** The entries of `INLINE_ELEMENTS` as written, in three runs: the
      string literal continues over two source lines with `'.` and `'`
      around the line break inside it, so one entry of the middle run reads
      `'.` line feed `'output`. */
  const InlineHead: seq<string> := ["a", "abbr", "acronym", "b", "bdo", "big", "br", "button",
    "cite", "code", "dfn", "em"]
  const InlineMiddleAsWritten: seq<string> := ["i", "img", "input", "kbd", "label", "map", "object",
    "'.\n'output", "q", "samp", "script"]
  const InlineTail: seq<string> := ["select", "small", "span", "strong", "sub", "sup", "textarea",
    "time", "tt", "var", "skip"]

  const InlineWordsAsWritten: seq<string> := InlineHead + InlineMiddleAsWritten + InlineTail

  /** `INLINE_ELEMENTS`. */
  function InlineElementsAsWritten(): string
  {
    CommaList(InlineWordsAsWritten)
  }

  /** `str_contains(INLINE_ELEMENTS, ",$tag,")` as written. */
  predicate InlineTagAsWritten(tag: string)
  {
    Contains(InlineElementsAsWritten(), "," + tag + ",")
  }

  /** The middle run as intended. */
  const InlineMiddle: seq<string> := ["i", "img", "input", "kbd", "label", "map", "object",
    "output", "q", "samp", "script"]

  /** The inline elements the list names, `skip` being the pseudo tag that
      hides a block. */
  const InlineNames: seq<string> := InlineHead + InlineMiddle + InlineTail

  /** The search as intended: the list with a comma in front, without the
      stray quote and line break. */
  predicate IsInlineTag(tag: string)
  {
    Contains("," + CommaList(InlineNames), "," + tag + ",")
  }

  predicate AllNoComma(ws: seq<string>)
  {
    forall k :: 0 <= k < |ws| ==> NoComma(ws[k])
  }

  lemma AllNoCommaJoin(a: seq<string>, b: seq<string>, c: seq<string>)
    requires AllNoComma(a) && AllNoComma(b) && AllNoComma(c)
    ensures AllNoComma(a + b + c)
  {
    var w := a + b + c;
    forall k | 0 <= k < |w|
      ensures NoComma(w[k])
    {
      if k < |a| {
        assert w[k] == a[k];
      } else if k < |a| + |b| {
        assert w[k] == b[k - |a|];
      } else {
        assert w[k] == c[k - |a| - |b|];
      }
    }
  }

  predicate Lacks(ws: seq<string>, t: string)
  {
    t !in ws
  }

  lemma LacksJoin(a: seq<string>, b: seq<string>, c: seq<string>, t: string)
    requires Lacks(a, t) && Lacks(b, t) && Lacks(c, t)
    ensures Lacks(a + b + c, t)
  {
  }

  lemma HeadFacts()
    ensures AllNoComma(InlineHead) && InlineHead[0] == "a"
    ensures Lacks(InlineHead[1..], "a") && Lacks(InlineHead[1..], "output")
  {
  }

  lemma MiddleFacts()
    ensures AllNoComma(InlineMiddleAsWritten) && AllNoComma(InlineMiddle)
    ensures Lacks(InlineMiddleAsWritten, "a") && Lacks(InlineMiddleAsWritten, "output")
    ensures InlineMiddle[7] == "output"
  {
  }

  lemma TailFacts()
    ensures AllNoComma(InlineTail) && Lacks(InlineTail, "a") && Lacks(InlineTail, "output")
  {
  }

  /** No inline element name holds a comma. */
  lemma InlineNoComma()
    ensures AllNoComma(InlineWordsAsWritten) && AllNoComma(InlineNames)
  {
    HeadFacts();
    MiddleFacts();
    TailFacts();
    AllNoCommaJoin(InlineHead, InlineMiddleAsWritten, InlineTail);
    AllNoCommaJoin(InlineHead, InlineMiddle, InlineTail);
  }

  /** As written, `a` and `output` are never found: `a` has no comma in
      front of it and `output` is stuck to the stray quote. */
  lemma InlineTagAsWrittenMisses()
    ensures !InlineTagAsWritten("a") && !InlineTagAsWritten("output")
    ensures "a" in InlineNames && "output" in InlineNames
  {
    InlineNoComma();
    HeadFacts();
    MiddleFacts();
    TailFacts();
    var w := InlineWordsAsWritten;
    assert w[1..] == InlineHead[1..] + InlineMiddleAsWritten + InlineTail;
    LacksJoin(InlineHead[1..], InlineMiddleAsWritten, InlineTail, "a");
    LacksJoin(InlineHead[1..], InlineMiddleAsWritten, InlineTail, "output");
    CommaListHas(w, "a");
    CommaListHas(w, "output");
    assert InlineNames[0] == InlineHead[0];
    assert InlineNames[|InlineHead| + 7] == InlineMiddle[7];
  }

  /** The intended search finds a comma-free tag exactly when it is one of
      the inline elements. */
  lemma InlineTagIff(tag: string)
    requires NoComma(tag)
    ensures IsInlineTag(tag) <==> tag in InlineNames
  {
    InlineNoComma();
    FencedList(InlineNames, tag);
  }

  // ---- singleton elements --------------------------------------------------

  /** The elements written without a closing tag. */
  const SingletonNames: seq<string> := ["img", "input", "br", "hr", "meta", "embed", "link", "source",
    "track", "wbr", "col", "area"]

  /** `MDPMD_SINGLETON_TAGS`. */
  function SingletonTags(): string
  {
    Join(SingletonNames, ",")
  }

  /** `str_contains(MDPMD_SINGLETON_TAGS, $tag)` as written: a substring
      test. */
  predicate SingletonAsWritten(tag: string)
  {
    Contains(SingletonTags(), tag)
  }

  /** The test as intended: the tag is one of the names in the list. */
  predicate IsSingleton(tag: string)
  {
    Contains("," + CommaList(SingletonNames), "," + tag + ",")
  }

  /** A list starting with `img` and `input` has a `p` at position 6 of its
      comma list. */
  lemma PAtSix(ws: seq<string>)
    requires |ws| >= 3 && ws[0] == "img" && ws[1] == "input"
    ensures OccursAt(Join(ws, ","), "p", 6)
  {
    JoinCons(ws);
    JoinCons(ws[1..]);
    assert ws[1..][0] == "input" && ws[1..][1..] == ws[2..];
    var s := Join(ws, ",");
    assert s == "img" + ("," + ("input" + ("," + Join(ws[2..], ","))));
    assert s[6] == 'p';
  }

  lemma SingletonFacts()
    ensures |SingletonNames| >= 3 && SingletonNames[0] == "img" && SingletonNames[1] == "input"
    ensures AllNoComma(SingletonNames) && Lacks(SingletonNames, "p")
  {
  }

  /** As written, `p` counts as a singleton, being part of `input`, so its
      closing tag is left out. */
  lemma SingletonAsWrittenMisreads()
    ensures SingletonAsWritten("p") && "p" !in SingletonNames
  {
    SingletonFacts();
    PAtSix(SingletonNames);
    ContainsIff(SingletonTags(), "p");
  }

  /** The intended test holds for a comma-free tag exactly when it is one of
      the singleton elements. */
  lemma SingletonIff(tag: string)
    requires NoComma(tag)
    ensures IsSingleton(tag) <==> tag in SingletonNames
  {
    SingletonFacts();
    FencedList(SingletonNames, tag);
  }

  /** `$_tag`: the closing tag, empty for a singleton element. */
  function ClosingTag(tag: string): string
  {
    if tag in SingletonNames then "" else "</" + tag + ">"
  }

  function ClosingTagAsWritten(tag: string): string
  {
    if SingletonAsWritten(tag) then "" else "</" + tag + ">"
  }

  /** As written, a `p` block loses its closing tag. */
  lemma ClosingTagAsWrittenOfP()
    ensures ClosingTagAsWritten("p") == ""
  {
    SingletonAsWrittenMisreads();
  }

  /** As intended, only the singleton elements go without a closing tag,
      and the comma-fenced substring test chooses the same closing tag. */
  lemma ClosingTagIff(tag: string)
    requires NoComma(tag)
    ensures ClosingTag(tag) == if IsSingleton(tag) then "" else "</" + tag + ">"
  {
    SingletonIff(tag);
  }
}
