/** The bracket matching of `MdPlusHelper`: `findNextPattern`,
    `checkBracesBalance`, `checkNesting` and `strPosMatching`, which find an
    opening pattern and its matching closing pattern while ignoring
    patterns shielded by a backslash, and `removeHtmlComments`, which uses
    them to cut out HTML comments. */
module Matching {
  import opened Wrappers
  import opened PhpStrings

  const UnbalancedMsg := "Error in source: unbalanced number of &#123;&#123; resp }}"
  const OffsetMsg := "strpos(): Argument #3 ($offset) must be contained in argument #1 ($haystack)"

  function NestingMsg(str: string): string
  {
    "Nesting Error in string '" + str + "'"
  }

  /** An occurrence of `pat` at `q` with no backslash before it. */
  predicate Unshielded(s: string, pat: string, q: int)
  {
    OccursAt(s, pat, q) && (q == 0 || s[q - 1] != '\\')
  }

  /** The occurrence of `pat` at `q` is shielded by a backslash. */
  predicate Shielded(s: string, pat: string, q: int)
  {
    OccursAt(s, pat, q) && q > 0 && s[q - 1] == '\\'
  }

  /** What `findNextPattern` finds from `from`: the next occurrence of
      `pat`, where a shielded one is passed over together with its whole
      length. */
  function NextPattern(s: string, pat: string, from: nat): (r: Option<nat>)
    requires pat != [] && from <= |s|
    ensures r.Some? ==> from <= r.value && Unshielded(s, pat, r.value)
    decreases |s| - from
  {
    if from + |pat| > |s| then None
    else if !OccursAt(s, pat, from) then NextPattern(s, pat, from + 1)
    else if from == 0 || s[from - 1] != '\\' then Some(from)
    else NextPattern(s, pat, from + |pat|)
  }

  /** `findNextPattern` passes over text where `pat` does not occur. */
  lemma {:induction false} NextPatternGap(s: string, pat: string, from: nat, q: nat)
    requires pat != [] && from <= q <= |s|
    requires forall j :: from <= j < q ==> !OccursAt(s, pat, j)
    ensures NextPattern(s, pat, from) == NextPattern(s, pat, q)
    decreases q - from
  {
    if from < q {
      NextPatternGap(s, pat, from + 1, q);
    }
  }

  /** Where no occurrence is shielded, `findNextPattern` is `strpos`. */
  lemma {:induction false} NextPatternPlain(s: string, pat: string, from: nat)
    requires pat != [] && from <= |s|
    requires forall j :: from <= j ==> !Shielded(s, pat, j)
    ensures NextPattern(s, pat, from) == IndexOf(s, pat, from)
    decreases |s| - from
  {
    if from + |pat| > |s| {
      assert IndexOf(s, pat, from).None?;
    } else if !OccursAt(s, pat, from) {
      NextPatternPlain(s, pat, from + 1);
      assert IndexOf(s, pat, from) == IndexOf(s, pat, from + 1);
    } else {
      assert !Shielded(s, pat, from);
    }
  }

  /** `findNextPattern` finds nothing where `strpos` finds nothing. */
  lemma NextPatternNone(s: string, pat: string, from: nat)
    requires pat != [] && from <= |s| && IndexOf(s, pat, from).None?
    ensures NextPattern(s, pat, from).None?
  {
    NextPatternGap(s, pat, from, |s|);
  }

  /** One turn of `findNextPattern`'s loop: the occurrence `strpos` finds
      is the result unless it is shielded, in which case the search goes
      on after it. */
  lemma NextPatternFound(s: string, pat: string, from: nat, q: nat)
    requires pat != [] && from <= |s| && IndexOf(s, pat, from) == Some(q)
    ensures q + |pat| <= |s|
    ensures q == 0 || s[q - 1] != '\\' ==> NextPattern(s, pat, from) == Some(q)
    ensures q > 0 && s[q - 1] == '\\' ==> NextPattern(s, pat, from) == NextPattern(s, pat, q + |pat|)
  {
    NextPatternGap(s, pat, from, q);
    assert OccursAt(s, pat, q);
  }

  /** `findNextPattern($str, $pat, $p1)`; an offset beyond the text is the
      error `strpos` raises. */
  method FindNextPattern(str: string, pat: string, p1: nat) returns (r: Result<Option<nat>>)
    requires pat != []
    ensures p1 > |str| ==> r == Err(OffsetMsg)
    ensures p1 <= |str| ==> r == Ok(NextPattern(str, pat, p1))
  {
    if p1 > |str| {
      return Err(OffsetMsg);
    }
    ghost var target := NextPattern(str, pat, p1);
    var p: nat := p1;
    while true
      invariant p <= |str| && NextPattern(str, pat, p) == target
      decreases |str| - p
    {
      var found := IndexOf(str, pat, p);
      if found.None? {
        NextPatternNone(str, pat, p);
        return Ok(None);
      }
      var q := found.value;
      NextPatternFound(str, pat, p, q);
      if q == 0 || str[q - 1] != '\\' {
        return Ok(Some(q));
      }
      p := q + |pat|;
    }
  }

  /** No occurrence is counted exactly when there is none. */
  lemma {:induction false} CountZero(s: string, p: string, i: nat)
    requires p != [] && i <= |s|
    ensures CountFrom(s, p, i) == 0 <==> IndexOf(s, p, i).None?
    decreases |s| - i
  {
    if i + |p| > |s| {
      assert IndexOf(s, p, i).None?;
    } else if !OccursAt(s, p, i) {
      CountZero(s, p, i + 1);
      assert IndexOf(s, p, i) == IndexOf(s, p, i + 1);
    }
  }

  /** The occurrences of `pat` from `p0` on, minus the shielded ones, as
      `checkBracesBalance` counts them. */
  function UnshieldedCount(s: string, pat: string, p0: nat): int
    requires pat != [] && p0 <= |s|
  {
    CountFrom(s, pat, p0) - CountFrom(s, "\\" + pat, p0)
  }

  /** `checkBracesBalance` does not throw. */
  predicate Balanced(s: string, p0: nat, pat1: string, pat2: string)
    requires pat1 != [] && pat2 != [] && p0 <= |s|
  {
    UnshieldedCount(s, pat1, p0) <= UnshieldedCount(s, pat2, p0)
  }

  /** `checkNesting($str, $pat1, $pat2)`: the number of openings, an error
      when there are more openings than closings. */
  function CheckNesting(str: string, pat1: string, pat2: string): (r: Result<nat>)
    requires pat1 != [] && pat2 != []
    ensures r.Ok? <==> CountFrom(str, pat1, 0) <= CountFrom(str, pat2, 0)
    ensures r.Ok? ==> (r.value == 0 <==> !Contains(str, pat1))
  {
    CountZero(str, pat1, 0);
    var n1 := CountFrom(str, pat1, 0);
    if n1 > CountFrom(str, pat2, 0) then Err(NestingMsg(str)) else Ok(n1)
  }

  /** The pair `strPosMatching` returns: the opening and the closing
      position, `false` being `None`. */
  datatype Match = Match(open: Option<nat>, close: Option<nat>)

  const NoMatch := Match(None, None)

  /** The outcome of one turn of the `do … while` loop of `strPosMatching`:
      a result returned, an error raised, or the loop going on from the
      pattern at `p1` at depth `cnt`. */
  datatype Turn = Found(m: Match) | Fail(msg: string) | Go(p1: nat, cnt: nat)

  /** One turn of the loop: `p1` is the pattern last stepped onto, `cnt`
      the nesting depth; both searches start `|pat2|` past `p1`. */
  function ScanTurn(str: string, pat1: string, pat2: string, start: nat, p1: nat, cnt: nat): (t: Turn)
    requires pat1 != [] && pat2 != [] && p1 <= |str|
    ensures t.Go? ==> p1 < t.p1 <= |str|
    ensures t.Found? && t.m.close.Some? ==>
      t.m.open == Some(start) && p1 < t.m.close.value && Unshielded(str, pat2, t.m.close.value)
    ensures t.Found? ==> (t.m.open.Some? <==> t.m.close.Some?)
  {
    var from := p1 + |pat2|;
    if from > |str| then Fail(OffsetMsg)
    else
      var p3 := NextPattern(str, pat1, from);
      var p2 := NextPattern(str, pat2, from);
      if p2.None? then Found(NoMatch)
      else if cnt == 0 then
        if p3.None? || p2.value < p3.value then Found(Match(Some(start), p2))
        else Go(p3.value, 1)
      else if p3.None? || p2.value < p3.value then Go(p2.value, cnt - 1)
      else Go(p3.value, cnt + 1)
  }

  /** The loop run to its end. */
  function Scan(str: string, pat1: string, pat2: string, start: nat, p1: nat, cnt: nat): (r: Result<Match>)
    requires pat1 != [] && pat2 != [] && p1 <= |str|
    ensures r.Ok? ==> (r.value.open.Some? <==> r.value.close.Some?)
    ensures r.Ok? && r.value.close.Some? ==>
      r.value.open == Some(start) && p1 < r.value.close.value && Unshielded(str, pat2, r.value.close.value)
    decreases |str| - p1
  {
    match ScanTurn(str, pat1, pat2, start, p1, cnt)
    case Found(m) => Ok(m)
    case Fail(e) => Err(e)
    case Go(q, c) => Scan(str, pat1, pat2, start, q, c)
  }

  /** What `strPosMatching($str, $p0, $pat1, $pat2)` returns or throws. */
  function Matching(str: string, p0: nat, pat1: string, pat2: string): (r: Result<Match>)
    requires pat1 != [] && pat2 != []
    ensures r.Ok? && r.value.open.Some? ==> OccursAt(str, pat1, r.value.open.value)
    ensures r.Ok? && r.value.close.Some? ==>
      r.value.open.Some? && r.value.open.value < r.value.close.value &&
      OccursAt(str, pat2, r.value.close.value)
    ensures pat1 != pat2 && r.Ok? ==> (r.value.open.Some? <==> r.value.close.Some?)
    ensures pat1 != pat2 && r.Ok? && r.value.open.Some? ==>
      p0 <= |str| && NextPattern(str, pat1, p0) == r.value.open &&
      Unshielded(str, pat1, r.value.open.value) && Unshielded(str, pat2, r.value.close.value)
  {
    if !Truthy(str) || |str| < p0 then Ok(NoMatch)
    else if pat1 == pat2 then
      var p1 := IndexOf(str, pat1, 0);
      var p2 := IndexOf(str, pat1, (if p1.Some? then p1.value else 0) + 1);
      assert p1.None? ==> p2.None?;
      Ok(Match(p1, p2))
    else if !Balanced(str, p0, pat1, pat2) then Err(UnbalancedMsg)
    else if |str| < 4 then Ok(NoMatch)
    else match CheckNesting(str, pat1, pat2)
      case Err(e) => Err(e)
      case Ok(n1) =>
        if n1 == 0 then Ok(NoMatch)
        else match NextPattern(str, pat1, p0)
          case None => Ok(NoMatch)
          case Some(start) => Scan(str, pat1, pat2, start, start, 0)
  }

  /** `strPosMatching($str, $p0, $pat1, $pat2)`. */
  method StrPosMatching(str: string, p0: nat, pat1: string, pat2: string) returns (r: Result<Match>)
    requires pat1 != [] && pat2 != []
    ensures r == Matching(str, p0, pat1, pat2)
  {
    if !Truthy(str) || |str| < p0 {
      return Ok(NoMatch);
    }
    if pat1 == pat2 {
      var p1 := IndexOf(str, pat1, 0);
      var p2 := IndexOf(str, pat1, (if p1.Some? then p1.value else 0) + 1);
      return Ok(Match(p1, p2));
    }
    if !Balanced(str, p0, pat1, pat2) {
      return Err(UnbalancedMsg);
    }
    if |str| < 4 {
      return Ok(NoMatch);
    }
    var nesting := CheckNesting(str, pat1, pat2);
    if nesting.Err? {
      return Err(nesting.msg);
    }
    if nesting.value == 0 {
      return Ok(NoMatch);
    }
    var first := FindNextPattern(str, pat1, p0);
    if first.value.None? {
      return Ok(NoMatch);
    }
    r := ScanFrom(str, pat1, pat2, first.value.value);
  }

  /** The `do … while` loop of `strPosMatching` from the first opening. */
  method ScanFrom(str: string, pat1: string, pat2: string, start: nat) returns (r: Result<Match>)
    requires pat1 != [] && pat2 != [] && start <= |str|
    ensures r == Scan(str, pat1, pat2, start, start, 0)
  {
    var p1 := start;
    var cnt: nat := 0;
    while true
      invariant p1 <= |str|
      invariant Scan(str, pat1, pat2, start, p1, cnt) == Scan(str, pat1, pat2, start, start, 0)
      decreases |str| - p1
    {
      var t := ScanOnce(str, pat1, pat2, start, p1, cnt);
      match t
      case Found(m) =>
        return Ok(m);
      case Fail(e) =>
        return Err(e);
      case Go(q, c) =>
        p1, cnt := q, c;
    }
  }

  /** One turn of the loop: the next opening and the next closing are
      looked for; the closing is the match when the depth is 0 and no
      opening comes first, otherwise the depth goes down at a closing and
      up at an opening. */
  method ScanOnce(str: string, pat1: string, pat2: string, start: nat, p1: nat, cnt: nat) returns (t: Turn)
    requires pat1 != [] && pat2 != [] && p1 <= |str|
    ensures t == ScanTurn(str, pat1, pat2, start, p1, cnt)
  {
    var d := |pat2|;
    var next3 := FindNextPattern(str, pat1, p1 + d);
    if next3.Err? {
      return Fail(next3.msg);
    }
    var next2 := FindNextPattern(str, pat2, p1 + d);
    var p3, p2 := next3.value, next2.value;
    if p2.None? {
      return Found(NoMatch);
    }
    if cnt == 0 {
      if p3.None? {
        return Found(Match(Some(start), p2));
      }
      if p2.value < p3.value {
        return Found(Match(Some(start), p2));
      }
      t := Go(p3.value, 1);
    } else if p3.None? {
      t := Go(p2.value, cnt - 1);
    } else if p2.value < p3.value {
      t := Go(p2.value, cnt - 1);
    } else {
      t := Go(p3.value, cnt + 1);
    }
  }

  /** With equal patterns the start position is ignored: the first two
      occurrences in the whole text are returned. */
  lemma EqualPatternsFromStart(str: string, p0: nat, pat: string)
    requires pat != [] && Truthy(str) && p0 <= |str|
    ensures Matching(str, p0, pat, pat) == Matching(str, 0, pat, pat)
    ensures Matching(str, p0, pat, pat).Ok?
    ensures var m := Matching(str, p0, pat, pat).value;
      m.open == IndexOf(str, pat, 0) &&
      (m.open.Some? ==> m.close == IndexOf(str, pat, m.open.value + 1))
  {
  }

  /** The errors `strPosMatching` raises for distinct patterns: more
      unshielded openings than closings after `p0`, or more openings than
      closings in the whole text. */
  lemma MatchingErrors(str: string, p0: nat, pat1: string, pat2: string)
    requires pat1 != [] && pat2 != [] && pat1 != pat2 && Truthy(str) && p0 <= |str|
    ensures !Balanced(str, p0, pat1, pat2) ==> Matching(str, p0, pat1, pat2) == Err(UnbalancedMsg)
    ensures Balanced(str, p0, pat1, pat2) && |str| >= 4 && CountFrom(str, pat1, 0) > CountFrom(str, pat2, 0) ==>
      Matching(str, p0, pat1, pat2) == Err(NestingMsg(str))
  {
  }

  /** For distinct patterns and balanced text holding an opening, the
      match is what the loop finds from the first unshielded opening. */
  lemma MatchingByScan(str: string, p0: nat, pat1: string, pat2: string, a: nat, m: Match)
    requires pat1 != [] && pat2 != [] && pat1 != pat2 && Truthy(str) && 4 <= |str| && p0 <= |str|
    requires Balanced(str, p0, pat1, pat2) && CountFrom(str, pat1, 0) <= CountFrom(str, pat2, 0)
    requires NextPattern(str, pat1, p0) == Some(a)
    requires Scan(str, pat1, pat2, a, a, 0) == Ok(m)
    ensures Matching(str, p0, pat1, pat2) == Ok(m)
  {
    assert Contains(str, pat1) by {
      assert OccursAt(str, pat1, a);
      ContainsIff(str, pat1);
    }
    assert CheckNesting(str, pat1, pat2) == Ok(CountFrom(str, pat1, 0)) && CountFrom(str, pat1, 0) != 0;
  }

  /** Without nesting, the match is the first unshielded opening from
      `p0` and the first unshielded closing after it, provided no other
      opening comes between them. */
  lemma PlainMatch(str: string, p0: nat, pat1: string, pat2: string, a: nat, b: nat)
    requires pat1 != [] && pat2 != [] && pat1 != pat2 && Truthy(str) && 4 <= |str| && p0 <= |str|
    requires Balanced(str, p0, pat1, pat2) && CountFrom(str, pat1, 0) <= CountFrom(str, pat2, 0)
    requires NextPattern(str, pat1, p0) == Some(a) && a + |pat2| <= |str|
    requires NextPattern(str, pat2, a + |pat2|) == Some(b)
    requires var c := NextPattern(str, pat1, a + |pat2|); c.None? || b < c.value
    ensures Matching(str, p0, pat1, pat2) == Ok(Match(Some(a), Some(b)))
  {
    PlainScan(str, pat1, pat2, a, b);
    MatchingByScan(str, p0, pat1, pat2, a, Match(Some(a), Some(b)));
  }

  /** The loop of `strPosMatching` stops at its first turn when the next
      closing comes before the next opening. */
  lemma PlainScan(str: string, pat1: string, pat2: string, a: nat, b: nat)
    requires pat1 != [] && pat2 != [] && a + |pat2| <= |str|
    requires NextPattern(str, pat2, a + |pat2|) == Some(b)
    requires var c := NextPattern(str, pat1, a + |pat2|); c.None? || b < c.value
    ensures Scan(str, pat1, pat2, a, a, 0) == Ok(Match(Some(a), Some(b)))
  {
    assert ScanTurn(str, pat1, pat2, a, a, 0) == Found(Match(Some(a), Some(b)));
  }

  /** The pattern does not start at `j`: its character `k` differs. */
  lemma NotAt(s: string, pat: string, j: nat, k: nat)
    requires k < |pat| && (j + |pat| <= |s| ==> s[j + k] != pat[k])
    ensures !OccursAt(s, pat, j)
  {
    if j + |pat| <= |s| {
      assert s[j..j + |pat|][k] == s[j + k];
    }
  }

  /** Where the openings and closings of `{{a{{b}}c}}` are found from
      positions 2, 5 and 8. */
  lemma NestedFrom2()
    ensures NextPattern("{{a{{b}}c}}", "{{", 2) == Some(3)
    ensures NextPattern("{{a{{b}}c}}", "}}", 2) == Some(6)
  {
    var s, o, c := "{{a{{b}}c}}", "{{", "}}";
    assert s[3..5] == o && s[6..8] == c;
    NotAt(s, o, 2, 0);
    NotAt(s, c, 2, 0); NotAt(s, c, 3, 0); NotAt(s, c, 4, 0); NotAt(s, c, 5, 0);
    NextPatternGap(s, o, 2, 3);
    NextPatternGap(s, c, 2, 6);
  }

  lemma NestedFrom5()
    ensures NextPattern("{{a{{b}}c}}", "{{", 5).None?
    ensures NextPattern("{{a{{b}}c}}", "}}", 5) == Some(6)
  {
    var s, o, c := "{{a{{b}}c}}", "{{", "}}";
    assert s[6..8] == c;
    NotAt(s, o, 5, 0); NotAt(s, o, 6, 0); NotAt(s, o, 7, 0); NotAt(s, o, 8, 0); NotAt(s, o, 9, 0);
    NextPatternGap(s, o, 5, 10);
    NextPatternGap(s, c, 5, 6);
  }

  lemma NestedFrom8()
    ensures NextPattern("{{a{{b}}c}}", "{{", 8).None?
    ensures NextPattern("{{a{{b}}c}}", "}}", 8) == Some(9)
  {
    var s, o, c := "{{a{{b}}c}}", "{{", "}}";
    assert s[9..11] == c;
    NotAt(s, o, 8, 0); NotAt(s, o, 9, 0);
    NextPatternGap(s, o, 8, 10);
    NotAt(s, c, 8, 0);
    NextPatternGap(s, c, 8, 9);
  }

  /** A nested pair: the match of the first opening is the last closing,
      not the first. */
  lemma NestedExample()
    ensures Scan("{{a{{b}}c}}", "{{", "}}", 0, 0, 0) == Ok(Match(Some(0), Some(9)))
  {
    var s, o, c := "{{a{{b}}c}}", "{{", "}}";
    NestedFrom2();
    NestedFrom5();
    NestedFrom8();
    assert ScanTurn(s, o, c, 0, 0, 0) == Go(3, 1);
    assert ScanTurn(s, o, c, 0, 3, 1) == Go(6, 0);
    assert ScanTurn(s, o, c, 0, 6, 0) == Found(Match(Some(0), Some(9)));
  }

  /** The unshielded occurrences of `pat` starting in `[lo, hi)`. */
  function UnshieldedIn(s: string, pat: string, lo: nat, hi: nat): nat
    decreases hi - lo
  {
    if lo >= hi then 0
    else (if Unshielded(s, pat, lo) then 1 else 0) + UnshieldedIn(s, pat, lo + 1, hi)
  }

  /** The nesting depth just before `x` of a text read from `lo`:
      unshielded openings minus unshielded closings. */
  function Depth(s: string, pat1: string, pat2: string, lo: nat, x: nat): int
  {
    UnshieldedIn(s, pat1, lo, x) - UnshieldedIn(s, pat2, lo, x)
  }

  /** The depth just before `x` counted from past the pattern at `p`. */
  function DepthPast(s: string, pat1: string, pat2: string, p: nat, x: nat): int
  {
    Depth(s, pat1, pat2, p + 1, x)
  }

  /** What the pattern at `q` adds to the depth. */
  function DepthAt(s: string, pat1: string, pat2: string, q: nat): int
  {
    (if Unshielded(s, pat1, q) then 1 else 0) - (if Unshielded(s, pat2, q) then 1 else 0)
  }

  predicate Starts(s: string, pat1: string, pat2: string, j: int)
  {
    OccursAt(s, pat1, j) || OccursAt(s, pat2, j)
  }

  /** In `[lo, hi)` no position starts both patterns and no two pattern
      occurrences overlap, shielded or not. */
  predicate Spaced(s: string, pat1: string, pat2: string, lo: nat, hi: nat)
  {
    (forall j :: lo <= j < hi && OccursAt(s, pat1, j) ==> !OccursAt(s, pat2, j)) &&
    (forall j, k :: lo <= j < k < hi && Starts(s, pat1, pat2, j) && Starts(s, pat1, pat2, k) ==>
       j + |pat1| <= k && j + |pat2| <= k)
  }

  /** Counting passes over positions holding no unshielded occurrence. */
  lemma {:induction false} UnshieldedGap(s: string, pat: string, lo: nat, q: nat, x: nat)
    requires lo <= q
    requires forall j :: lo <= j < q ==> !Unshielded(s, pat, j)
    ensures UnshieldedIn(s, pat, lo, x) == UnshieldedIn(s, pat, q, x)
    decreases q - lo
  {
    if lo < q && lo < x {
      UnshieldedGap(s, pat, lo + 1, q, x);
    }
  }

  /** `findNextPattern` reaches every unshielded occurrence that no
      earlier occurrence overlaps. */
  lemma {:induction false} NextPatternReaches(s: string, pat: string, from: nat, j: nat)
    requires pat != [] && from <= j && Unshielded(s, pat, j)
    requires forall k :: from <= k < j && OccursAt(s, pat, k) ==> k + |pat| <= j
    ensures NextPattern(s, pat, from).Some? && NextPattern(s, pat, from).value <= j
    decreases j - from
  {
    if from < j {
      if !OccursAt(s, pat, from) {
        NextPatternReaches(s, pat, from + 1, j);
      } else if from > 0 && s[from - 1] == '\\' {
        NextPatternReaches(s, pat, from + |pat|, j);
      }
    }
  }

  /** Between the pattern the loop stands on at `p1` and the next one it
      steps onto at `q`, neither pattern occurs unshielded. */
  lemma ScanGap(s: string, pat1: string, pat2: string, p1: nat, q: nat, hi: nat)
    requires pat1 != [] && pat2 != [] && p1 < q < hi && p1 + |pat2| <= |s|
    requires Starts(s, pat1, pat2, p1) && Spaced(s, pat1, pat2, p1, hi)
    requires var p3 := NextPattern(s, pat1, p1 + |pat2|); p3.None? || q <= p3.value
    requires var p2 := NextPattern(s, pat2, p1 + |pat2|); p2.None? || q <= p2.value
    ensures forall j :: p1 < j < q ==> !Unshielded(s, pat1, j) && !Unshielded(s, pat2, j)
  {
    var from := p1 + |pat2|;
    forall j | p1 < j < q
      ensures !Unshielded(s, pat1, j) && !Unshielded(s, pat2, j)
    {
      if Unshielded(s, pat1, j) || Unshielded(s, pat2, j) {
        assert Starts(s, pat1, pat2, j);
        assert from <= j;
        forall k | from <= k < j && (OccursAt(s, pat1, k) || OccursAt(s, pat2, k))
          ensures k + |pat1| <= j && k + |pat2| <= j
        {
          assert Starts(s, pat1, pat2, k);
        }
        if Unshielded(s, pat1, j) {
          NextPatternReaches(s, pat1, from, j);
        } else {
          NextPatternReaches(s, pat2, from, j);
        }
      }
    }
  }

  /** When the loop of `strPosMatching` from the pattern at `p1` and depth
      `cnt` ends at the closing `b`, then, counting from `p1`, the closings
      first outnumber the openings and `cnt` at `b`. */
  lemma {:induction false} ScanDepth(s: string, pat1: string, pat2: string, start: nat, p1: nat, cnt: nat, b: nat)
    requires pat1 != [] && pat2 != [] && p1 <= |s|
    requires Starts(s, pat1, pat2, p1)
    requires Scan(s, pat1, pat2, start, p1, cnt) == Ok(Match(Some(start), Some(b)))
    requires Spaced(s, pat1, pat2, p1, b + 1)
    ensures cnt + DepthPast(s, pat1, pat2, p1, b + 1) == -1
    ensures forall x :: p1 < x <= b ==> cnt + DepthPast(s, pat1, pat2, p1, x) >= 0
    decreases |s| - p1
  {
    assert Unshielded(s, pat2, b) && p1 < b;
    assert Starts(s, pat1, pat2, b);
    assert !OccursAt(s, pat1, b);
    match ScanTurn(s, pat1, pat2, start, p1, cnt)
    case Found(m) =>
      ScanGap(s, pat1, pat2, p1, b, b + 1);
      DepthSkip(s, pat1, pat2, p1, b, b + 1);
    case Go(q, c) =>
      assert Scan(s, pat1, pat2, start, q, c) == Ok(Match(Some(start), Some(b)));
      ScanGap(s, pat1, pat2, p1, q, b + 1);
      ScanDepth(s, pat1, pat2, start, q, c, b);
      assert Unshielded(s, pat1, q) ==> !OccursAt(s, pat2, q);
      DepthSkip(s, pat1, pat2, p1, q, b + 1);
  }

  /** Past a stretch holding no unshielded pattern, the depth moves by one
      at the pattern at `q`: up at an opening, down at a closing. */
  lemma DepthSkip(s: string, pat1: string, pat2: string, p1: nat, q: nat, hi: nat)
    requires p1 < q
    requires forall j :: p1 < j < q ==> !Unshielded(s, pat1, j) && !Unshielded(s, pat2, j)
    ensures forall x :: p1 < x <= hi ==>
      DepthPast(s, pat1, pat2, p1, x) == if x <= q then 0 else DepthAt(s, pat1, pat2, q) + DepthPast(s, pat1, pat2, q, x)
  {
    forall x | p1 < x <= hi
      ensures DepthPast(s, pat1, pat2, p1, x) == Depth(s, pat1, pat2, q, x)
    {
      UnshieldedGap(s, pat1, p1 + 1, q, x);
      UnshieldedGap(s, pat2, p1 + 1, q, x);
    }
  }

  /** For distinct patterns whose occurrences do not overlap up to the
      closing, the pair `strPosMatching` returns is an opening and the
      first closing after it at which the unshielded closings catch up with
      the unshielded openings: the depth counted from the opening stays
      positive up to the closing and is zero just after it. */
  lemma MatchingDepth(str: string, p0: nat, pat1: string, pat2: string, a: nat, b: nat)
    requires pat1 != [] && pat2 != [] && pat1 != pat2
    requires Matching(str, p0, pat1, pat2) == Ok(Match(Some(a), Some(b)))
    requires Spaced(str, pat1, pat2, a, b + 1)
    ensures Depth(str, pat1, pat2, a, b + 1) == 0
    ensures forall x :: a < x <= b ==> Depth(str, pat1, pat2, a, x) > 0
  {
    MatchedByScan(str, p0, pat1, pat2, Match(Some(a), Some(b)));
    assert Unshielded(str, pat1, a) && !OccursAt(str, pat2, a);
    ScanDepth(str, pat1, pat2, a, a, 0, b);
    forall x | a < x <= b + 1
      ensures Depth(str, pat1, pat2, a, x) == 1 + DepthPast(str, pat1, pat2, a, x)
    {
    }
  }

  /** For distinct patterns a pair is what the loop finds from the first
      unshielded opening. */
  lemma MatchedByScan(str: string, p0: nat, pat1: string, pat2: string, m: Match)
    requires pat1 != [] && pat2 != [] && pat1 != pat2
    requires Matching(str, p0, pat1, pat2) == Ok(m) && m.open.Some?
    ensures Scan(str, pat1, pat2, m.open.value, m.open.value, 0) == Ok(m)
  {
  }

  /** Counting passes over text where the pattern does not occur. */
  lemma {:induction false} CountGap(s: string, p: string, i: nat, q: nat)
    requires p != [] && i <= q <= |s|
    requires forall j :: i <= j < q ==> !OccursAt(s, p, j)
    ensures CountFrom(s, p, i) == CountFrom(s, p, q)
    decreases q - i
  {
    if i < q && i + |p| <= |s| {
      CountGap(s, p, i + 1, q);
    }
  }

  /** A text without backslashes holds no shielded pattern. */
  lemma {:induction false} NoShieldCount(s: string, pat: string, i: nat)
    requires pat != [] && i <= |s|
    requires forall k :: i <= k < |s| ==> s[k] != '\\'
    ensures CountFrom(s, "\\" + pat, i) == 0
    decreases |s| - i
  {
    var sp := "\\" + pat;
    if i + |sp| <= |s| {
      NotAt(s, sp, i, 0);
      NoShieldCount(s, pat, i + 1);
    }
  }

  /** What a prefix of length `j` shares, every shorter prefix shares. */
  lemma PrefixOfPrefix(a: string, b: string, i: nat, j: nat)
    requires i <= j <= |a| && j <= |b| && a[..j] == b[..j]
    ensures a[..i] == b[..i]
  {
    assert a[..i] == a[..j][..i];
    assert b[..i] == b[..j][..i];
  }

  /** A search for a comment from `p0`, as `strPosMatching($str, $p0,
      '<!--', '-->')` answers it. */
  type Finder = (string, nat) -> Result<Match>

  /** An answer of such a search: past the text nothing is found, and a
      comment found lies after `p0` with its three-character `-->` inside
      the text. */
  predicate Fits(str: string, p0: nat, r: Result<Match>)
  {
    (|str| < p0 ==> r == Ok(NoMatch)) &&
    (r.Ok? && r.value.open.Some? ==>
       r.value.close.Some? && p0 <= r.value.open.value < r.value.close.value &&
       r.value.close.value + 3 <= |str|)
  }

  ghost predicate Sound(find: Finder)
  {
    forall str, p0 :: Fits(str, p0, find(str, p0))
  }

  /** The search `removeHtmlComments` makes. */
  const CommentFinder: Finder := (str: string, p0: nat) => Matching(str, p0, "<!--", "-->")

  lemma CommentFinderSound()
    ensures Sound(CommentFinder)
  {
    forall str, p0
      ensures Fits(str, p0, CommentFinder(str, p0))
    {
      var r := Matching(str, p0, "<!--", "-->");
      if r.Ok? && r.value.open.Some? {
        assert OccursAt(str, "-->", r.value.close.value);
      }
    }
  }

  /** One turn of the loop of `removeHtmlComments`: an error, nothing
      more to cut, or the text with the comment cut out (what follows its
      `-->` kept) and the position it began at. With two distinct patterns
      `strPosMatching` returns either both positions or neither, so the
      branch for an opening without a closing is never taken. */
  datatype Cut = Failed(msg: string) | Kept | CutAt(rest: string, at: nat)

  function CutStep(find: Finder, str: string, p0: nat): (c: Cut)
    requires Sound(find)
    ensures c.CutAt? ==> |c.rest| < |str|
    ensures c.CutAt? ==> p0 <= c.at <= |c.rest| && c.rest[..c.at] == str[..c.at]
    ensures |str| < p0 ==> c == Kept
  {
    assert Fits(str, p0, find(str, p0));
    match find(str, p0)
    case Err(e) => Failed(e)
    case Ok(m) =>
      if m.open.None? then Kept
      else
        var p1 := m.open.value;
        var rest := str[..p1] + str[m.close.value + 3..];
        assert rest[..p1] == str[..p1];
        CutAt(rest, p1)
  }

  /** The loop of `removeHtmlComments` from `p0` on, the search going on
      `shift` characters after where the last comment began: the text
      before the search start is never changed, the text comes back
      unchanged exactly when the first search finds no comment, and when
      it finds one the text comes back shorter, with what precedes that
      comment untouched. */
  function StripFrom(find: Finder, str: string, p0: nat, shift: nat): (r: Result<string>)
    requires Sound(find)
    ensures r.Ok? ==> |r.value| <= |str|
    ensures r.Ok? ==> (r.value == str <==> CutStep(find, str, p0) == Kept)
    ensures r.Ok? && p0 <= |str| ==> p0 <= |r.value| && r.value[..p0] == str[..p0]
    ensures r.Ok? && CutStep(find, str, p0).CutAt? ==>
      var at := CutStep(find, str, p0).at;
      |r.value| < |str| && at <= |r.value| && r.value[..at] == str[..at]
    decreases |str|
  {
    match CutStep(find, str, p0)
    case Failed(e) => Err(e)
    case Kept => Ok(str)
    case CutAt(rest, p1) =>
      var r := StripFrom(find, rest, p1 + shift, shift);
      if r.Ok? then
        if p1 + shift <= |rest| then
          PrefixOfPrefix(r.value, rest, p1, p1 + shift);
          if p0 <= |str| then
            PrefixOfPrefix(rest, str, p0, p1);
            PrefixOfPrefix(r.value, rest, p0, p1 + shift);
            r
          else r
        else
          assert r.value == rest;
          if p0 <= |str| then
            PrefixOfPrefix(rest, str, p0, p1);
            r
          else r
      else r
  }

  /** The loop goes on from a cut. */
  lemma StripCut(find: Finder, str: string, p0: nat, shift: nat, rest: string, at: nat)
    requires Sound(find) && CutStep(find, str, p0) == CutAt(rest, at)
    ensures StripFrom(find, str, p0, shift) == StripFrom(find, rest, at + shift, shift)
  {
  }

  /** The loop ends where nothing more is cut. */
  lemma StripKept(find: Finder, str: string, p0: nat, shift: nat)
    requires Sound(find) && CutStep(find, str, p0) == Kept
    ensures StripFrom(find, str, p0, shift) == Ok(str)
  {
  }

  /** One turn of the loop of `removeHtmlComments`. */
  method CutTurn(str: string, p0: nat) returns (c: Cut)
    ensures (CommentFinderSound(); c == CutStep(CommentFinder, str, p0))
  {
    CommentFinderSound();
    var m := StrPosMatching(str, p0, "<!--", "-->");
    assert m == CommentFinder(str, p0);
    if m.Err? {
      return Failed(m.msg);
    }
    if m.value.open.None? {
      return Kept;
    }
    var p1 := m.value.open.value;
    c := CutAt(str[..p1] + str[m.value.close.value + 3..], p1);
  }

  /** `removeHtmlComments` as written: the search resumes three
      characters after the place the comment was cut from. */
  function HtmlCommentsAsWritten(str: string): Result<string>
  {
    CommentFinderSound();
    StripFrom(CommentFinder, str, 0, 3)
  }

  /** `removeHtmlComments` with the search resuming where the comment was
      cut from. */
  function HtmlComments(str: string): Result<string>
  {
    CommentFinderSound();
    StripFrom(CommentFinder, str, 0, 0)
  }

  /** `removeHtmlComments($str)`, with the search resuming where the comment
      was cut from. */
  method RemoveHtmlComments(str: string) returns (r: Result<string>)
    ensures r == HtmlComments(str)
  {
    CommentFinderSound();
    var s := str;
    var p0: nat := 0;
    while true
      invariant StripFrom(CommentFinder, s, p0, 0) == HtmlComments(str)
      decreases |s|
    {
      var c := CutTurn(s, p0);
      match c {
        case Failed(e) => return Err(e);
        case Kept => return Ok(s);
        case CutAt(rest, p1) => s, p0 := rest, p1;
      }
    }
  }

  /** Both forms of `removeHtmlComments` on every text: a failed first
      search is the error, a first search that finds no comment gives the
      text back as it is, and one that finds a comment at `p1` gives a
      shorter text that keeps everything before `p1`. */
  lemma HtmlCommentsOutcome(str: string)
    ensures var m := Matching(str, 0, "<!--", "-->");
      forall r <- [HtmlComments(str), HtmlCommentsAsWritten(str)] ::
        (m.Err? ==> r == Err(m.msg)) &&
        (m.Ok? && m.value.open.None? ==> r == Ok(str)) &&
        (m.Ok? && m.value.open.Some? && r.Ok? ==>
           var p1 := m.value.open.value;
           |r.value| < |str| && p1 <= |r.value| && r.value[..p1] == str[..p1])
  {
    CommentFinderSound();
    var c := CutStep(CommentFinder, str, 0);
    assert CommentFinder(str, 0) == Matching(str, 0, "<!--", "-->");
    OutcomeOf(str, 0);
    OutcomeOf(str, 3);
  }

  lemma OutcomeOf(str: string, shift: nat)
    requires Sound(CommentFinder)
    ensures var m := Matching(str, 0, "<!--", "-->");
      var r := StripFrom(CommentFinder, str, 0, shift);
      (m.Err? ==> r == Err(m.msg)) &&
      (m.Ok? && m.value.open.None? ==> r == Ok(str)) &&
      (m.Ok? && m.value.open.Some? && r.Ok? ==>
         var p1 := m.value.open.value;
         |r.value| < |str| && p1 <= |r.value| && r.value[..p1] == str[..p1])
  {
    assert CommentFinder(str, 0) == Matching(str, 0, "<!--", "-->");
  }

  /** A text with no comment opening and no shielded `-->` is returned
      unchanged. */
  lemma NoCommentUnchanged(str: string)
    requires !Contains(str, "<!--") && !Contains(str, "\\-->")
    ensures HtmlComments(str) == Ok(str) && HtmlCommentsAsWritten(str) == Ok(str)
  {
    if Truthy(str) {
      CountZero(str, "<!--", 0);
      CountZero(str, "\\<!--", 0);
      assert IndexOf(str, "\\<!--", 0).None? by {
        if IndexOf(str, "\\<!--", 0).Some? {
          var k := IndexOf(str, "\\<!--", 0).value;
          assert str[k + 1..k + 5] == str[k..k + 5][1..];
          assert OccursAt(str, "<!--", k + 1);
        }
      }
      CountZero(str, "\\-->", 0);
      assert CountFrom(str, "<!--", 0) == 0 && CountFrom(str, "\\<!--", 0) == 0;
      assert CountFrom(str, "\\-->", 0) == 0;
      assert "\\" + "<!--" == "\\<!--" && "\\" + "-->" == "\\-->";
      assert Balanced(str, 0, "<!--", "-->");
      assert |str| >= 4 ==> CheckNesting(str, "<!--", "-->") == Ok(0);
      assert Matching(str, 0, "<!--", "-->") == Ok(NoMatch);
    }
  }

  /** Counting passes over text where character `k` of the pattern never
      matches. */
  lemma CountSkip(s: string, p: string, i: nat, q: nat, k: nat)
    requires k < |p| && i <= q <= |s|
    requires forall m :: i + k <= m < q + k && m + |p| <= |s| + k ==> s[m] != p[k]
    ensures CountFrom(s, p, i) == CountFrom(s, p, q)
  {
    forall j | i <= j < q
      ensures !OccursAt(s, p, j)
    {
      if j + |p| <= |s| {
        assert s[j + k] != p[k];
      }
      NotAt(s, p, j, k);
    }
    CountGap(s, p, i, q);
  }

  /** `findNextPattern` passes over text where character `k` of the
      pattern never matches. */
  lemma NextPatternSkip(s: string, p: string, i: nat, q: nat, k: nat)
    requires k < |p| && i <= q <= |s|
    requires forall m :: i + k <= m < q + k && m + |p| <= |s| + k ==> s[m] != p[k]
    ensures NextPattern(s, p, i) == NextPattern(s, p, q)
  {
    forall j | i <= j < q
      ensures !OccursAt(s, p, j)
    {
      if j + |p| <= |s| {
        assert s[j + k] != p[k];
      }
      NotAt(s, p, j, k);
    }
    NextPatternGap(s, p, i, q);
  }

  const TwoComments := "<!--a--><!--b-->"
  const SecondComment := "<!--b-->"

  lemma TwoCommentsOpenings()
    ensures CountFrom(TwoComments, "<!--", 0) == 2
  {
    var s, o := TwoComments, "<!--";
    assert s[0..4] == o && s[8..12] == o;
    CountSkip(s, o, 4, 8, 0);
    CountSkip(s, o, 12, 13, 0);
  }

  lemma TwoCommentsLastClosing()
    ensures CountFrom(TwoComments, "-->", 8) == 1
  {
    var s, c := TwoComments, "-->";
    assert s[13..16] == c;
    CountSkip(s, c, 8, 13, 2);
  }

  lemma TwoCommentsClosings()
    ensures CountFrom(TwoComments, "-->", 0) == 2
  {
    var s, c := TwoComments, "-->";
    assert s[5..8] == c;
    CountSkip(s, c, 0, 5, 2);
    TwoCommentsLastClosing();
  }

  lemma TwoCommentsFirstOpening()
    ensures NextPattern(TwoComments, "<!--", 0) == Some(0)
  {
    assert TwoComments[0..4] == "<!--";
  }

  lemma TwoCommentsSecondOpening()
    ensures NextPattern(TwoComments, "<!--", 3) == Some(8)
  {
    assert TwoComments[8..12] == "<!--";
    NextPatternSkip(TwoComments, "<!--", 3, 8, 0);
  }

  lemma TwoCommentsFirstClosing()
    ensures NextPattern(TwoComments, "-->", 3) == Some(5)
  {
    assert TwoComments[5..8] == "-->";
    NextPatternSkip(TwoComments, "-->", 3, 5, 2);
  }

  lemma TwoCommentsPlain()
    ensures forall k :: 0 <= k < |TwoComments| ==> TwoComments[k] != '\\'
  {
  }

  lemma TwoCommentsBalanced()
    ensures Balanced(TwoComments, 0, "<!--", "-->")
  {
    TwoCommentsPlain();
    TwoCommentsOpenings();
    TwoCommentsClosings();
    NoShieldCount(TwoComments, "<!--", 0);
    NoShieldCount(TwoComments, "-->", 0);
  }

  lemma TwoCommentsScan()
    ensures Scan(TwoComments, "<!--", "-->", 0, 0, 0) == Ok(Match(Some(0), Some(5)))
  {
    TwoCommentsSecondOpening();
    TwoCommentsFirstClosing();
    assert ScanTurn(TwoComments, "<!--", "-->", 0, 0, 0) == Found(Match(Some(0), Some(5)));
  }

  /** `strPosMatching` finds the first of the two comments. */
  lemma TwoCommentsFirst()
    ensures Matching(TwoComments, 0, "<!--", "-->") == Ok(Match(Some(0), Some(5)))
  {
    TwoCommentsBalanced();
    TwoCommentsOpenings();
    TwoCommentsClosings();
    TwoCommentsFirstOpening();
    TwoCommentsScan();
    MatchingByScan(TwoComments, 0, "<!--", "-->", 0, Match(Some(0), Some(5)));
  }

  lemma SecondCommentOpenings()
    ensures CountFrom(SecondComment, "<!--", 0) == 1
    ensures CountFrom(SecondComment, "<!--", 3) == 0
  {
    assert SecondComment[0..4] == "<!--";
    CountSkip(SecondComment, "<!--", 3, 5, 0);
  }

  lemma SecondCommentClosings()
    ensures CountFrom(SecondComment, "-->", 0) == 1
    ensures CountFrom(SecondComment, "-->", 3) == 1
  {
    assert SecondComment[5..8] == "-->";
    CountSkip(SecondComment, "-->", 0, 5, 2);
  }

  lemma SecondCommentBalanced(p0: nat)
    requires p0 == 0 || p0 == 3
    ensures Balanced(SecondComment, p0, "<!--", "-->")
  {
    assert forall k :: 0 <= k < |SecondComment| ==> SecondComment[k] != '\\';
    SecondCommentOpenings();
    SecondCommentClosings();
    NoShieldCount(SecondComment, "<!--", p0);
    NoShieldCount(SecondComment, "-->", p0);
  }

  lemma SecondCommentOpeningAt()
    ensures NextPattern(SecondComment, "<!--", 0) == Some(0)
  {
    assert SecondComment[0..4] == "<!--";
  }

  lemma SecondCommentNoOpening()
    ensures NextPattern(SecondComment, "<!--", 3).None?
  {
    NextPatternSkip(SecondComment, "<!--", 3, 5, 0);
  }

  lemma SecondCommentClosingAt()
    ensures NextPattern(SecondComment, "-->", 3) == Some(5)
  {
    assert SecondComment[5..8] == "-->";
    NextPatternSkip(SecondComment, "-->", 3, 5, 2);
  }

  lemma SecondCommentScan()
    ensures Scan(SecondComment, "<!--", "-->", 0, 0, 0) == Ok(Match(Some(0), Some(5)))
  {
    SecondCommentNoOpening();
    SecondCommentClosingAt();
    assert ScanTurn(SecondComment, "<!--", "-->", 0, 0, 0) == Found(Match(Some(0), Some(5)));
  }

  /** As written, the search for the second comment starts at position 3
      of what is left, past the comment that now begins at 0. */
  lemma SecondCommentMissed()
    ensures Matching(SecondComment, 3, "<!--", "-->") == Ok(NoMatch)
  {
    var s, o, c := SecondComment, "<!--", "-->";
    SecondCommentBalanced(3);
    SecondCommentOpenings();
    SecondCommentClosings();
    SecondCommentNoOpening();
    assert Contains(s, o) by {
      assert s[0..4] == o;
      ContainsIff(s, o);
    }
  }

  /** Searching from where the first comment was cut finds the second. */
  lemma SecondCommentFound()
    ensures Matching(SecondComment, 0, "<!--", "-->") == Ok(Match(Some(0), Some(5)))
  {
    SecondCommentBalanced(0);
    SecondCommentOpenings();
    SecondCommentClosings();
    SecondCommentOpeningAt();
    SecondCommentScan();
    MatchingByScan(SecondComment, 0, "<!--", "-->", 0, Match(Some(0), Some(5)));
  }

  lemma TwoCommentsCut()
    ensures (CommentFinderSound(); CutStep(CommentFinder, TwoComments, 0) == CutAt(SecondComment, 0))
  {
    TwoCommentsFirst();
    assert TwoComments[..0] + TwoComments[8..] == SecondComment;
  }

  lemma SecondCommentKept()
    ensures (CommentFinderSound(); CutStep(CommentFinder, SecondComment, 3) == Kept)
  {
    SecondCommentMissed();
  }

  lemma SecondCommentCut()
    ensures (CommentFinderSound(); CutStep(CommentFinder, SecondComment, 0) == CutAt("", 0))
  {
    SecondCommentFound();
    assert SecondComment[..0] + SecondComment[8..] == "";
  }

  lemma EmptyKept()
    ensures (CommentFinderSound(); CutStep(CommentFinder, "", 0) == Kept)
  {
    assert Matching("", 0, "<!--", "-->") == Ok(NoMatch);
  }

  /** Two adjacent comments, as written: once the first is cut the
      search resumes past the opening of the second, which is left in the
      text. */
  lemma AdjacentCommentsAsWritten()
    ensures HtmlCommentsAsWritten(TwoComments) == Ok(SecondComment)
  {
    CommentFinderSound();
    TwoCommentsCut();
    StripCut(CommentFinder, TwoComments, 0, 3, SecondComment, 0);
    SecondCommentKept();
    StripKept(CommentFinder, SecondComment, 3, 3);
  }

  /** Two adjacent comments, resuming where the first was cut: both are
      removed. */
  lemma AdjacentCommentsCorrected()
    ensures HtmlComments(TwoComments) == Ok("")
  {
    CommentFinderSound();
    TwoCommentsCut();
    StripCut(CommentFinder, TwoComments, 0, 0, SecondComment, 0);
    SecondCommentCut();
    StripCut(CommentFinder, SecondComment, 0, 0, "", 0);
    EmptyKept();
    StripKept(CommentFinder, "", 0, 0);
  }
}
