/** The PHP string functions the compiler relies on, over strings of bytes
    (`seq<char>` whose characters stand for bytes). Each one follows the PHP
    function of the same name; the PCRE character classes `\s`, `\w` and
    `\d` are the ASCII classes. */
module PhpStrings {
  import opened Wrappers

  /** PHP's truthiness of a string: "" and "0" are false, all else true. */
  predicate Truthy(s: string)
  {
    |s| != 0 && (|s| != 1 || s[0] != '0')
  }

  /** PCRE `\s`: space, tab, line feed, carriage return, vertical tab, form feed. */
  predicate IsSpace(c: char)
  {
    c == ' ' || c == '\t' || c == '\n' || c == '\r' || c == '\U{0B}' || c == '\U{0C}'
  }

  /** The characters PHP's `trim` removes by default (" \t\n\r\0\x0B"). */
  predicate IsTrimChar(c: char)
  {
    c == ' ' || c == '\t' || c == '\n' || c == '\r' || c == '\0' || c == '\U{0B}'
  }

  predicate IsDigit(c: char)
  {
    '0' <= c <= '9'
  }

  predicate IsAlpha(c: char)
  {
    'a' <= c <= 'z' || 'A' <= c <= 'Z'
  }

  /** PCRE `\w`. */
  predicate IsWord(c: char)
  {
    IsAlpha(c) || IsDigit(c) || c == '_'
  }

  /** The class `[\w-]` used for keys and meta commands. */
  predicate IsWordOrDash(c: char)
  {
    IsWord(c) || c == '-'
  }

  function LowerChar(c: char): (r: char)
    ensures IsAlpha(c) <==> IsAlpha(r)
    ensures !('A' <= r <= 'Z')
  {
    if 'A' <= c <= 'Z' then (c as int + 32) as char else c
  }

  /** `strtolower` on ASCII letters. */
  function Lower(s: string): (r: string)
    ensures |r| == |s|
    ensures forall i :: 0 <= i < |s| ==> r[i] == LowerChar(s[i])
  {
    if s == [] then [] else [LowerChar(s[0])] + Lower(s[1..])
  }

  /** `ltrim` with the character set `P`: the longest suffix of `s` that
      does not start with a character of `P`. */
  function LTrimBy(s: string, P: char -> bool): (r: string)
    ensures |r| <= |s| && r == s[|s| - |r|..]
    ensures r == [] || !P(r[0])
    ensures forall i :: 0 <= i < |s| - |r| ==> P(s[i])
    decreases |s|
  {
    if s != [] && P(s[0]) then
      var r := LTrimBy(s[1..], P);
      assert s[1..][|s| - 1 - |r|..] == s[|s| - |r|..];
      assert forall i :: 1 <= i < |s| - |r| ==> s[i] == s[1..][i - 1];
      r
    else s
  }

  /** `rtrim` with the character set `P`. */
  function RTrimBy(s: string, P: char -> bool): (r: string)
    ensures |r| <= |s| && r == s[..|r|]
    ensures r == [] || !P(r[|r| - 1])
    ensures forall i :: |r| <= i < |s| ==> P(s[i])
    decreases |s|
  {
    if s != [] && P(s[|s| - 1]) then
      var r := RTrimBy(s[..|s| - 1], P);
      assert s[..|s| - 1][..|r|] == s[..|r|];
      r
    else s
  }

  function LTrim(s: string): string { LTrimBy(s, IsTrimChar) }

  function RTrim(s: string): string { RTrimBy(s, IsTrimChar) }

  /** `trim` with the default character set. */
  function Trim(s: string): string { RTrim(LTrim(s)) }

  /** `trim` with the character set `P`: neither end is left in `P`. */
  function TrimBy(s: string, P: char -> bool): (r: string)
    ensures r == [] || (!P(r[0]) && !P(r[|r| - 1]))
    ensures var k := |s| - |LTrimBy(s, P)|;
      k + |r| <= |s| && r == s[k..k + |r|] && AllBy(s, 0, k, P) && AllBy(s, k + |r|, |s|, P)
  {
    var l := LTrimBy(s, P);
    var r := RTrimBy(l, P);
    TrimPiece(s, l, |s| - |l|, r);
    TrimTail(s, l, |s| - |l|, r, P);
    r
  }

  /** Every character of `s[lo..hi]` is in the set `P`. */
  predicate AllBy(s: string, lo: int, hi: int, P: char -> bool)
  {
    forall i :: lo <= i < hi && 0 <= i < |s| ==> P(s[i])
  }

  /** Trimming both ends takes the piece between the two trimmed runs. */
  lemma TrimPiece(s: string, l: string, k: nat, r: string)
    requires k <= |s| && l == s[k..] && |r| <= |l| && r == l[..|r|]
    ensures k + |r| <= |s| && r == s[k..k + |r|] && (r != [] ==> r[0] == l[0])
  {
    SliceOfSlice(s, k, |r|);
  }

  lemma TrimTail(s: string, l: string, k: nat, r: string, P: char -> bool)
    requires k <= |s| && l == s[k..] && |r| <= |l|
    requires forall i :: |r| <= i < |l| ==> P(l[i])
    ensures AllBy(s, k + |r|, |s|, P)
  {
    forall i | k + |r| <= i < |s|
      ensures P(s[i])
    {
      assert s[i] == l[i - k];
    }
  }

  lemma SliceOfSlice(s: string, k: nat, n: nat)
    requires k + n <= |s|
    ensures s[k..][..n] == s[k..k + n]
  {
  }

  /** Trimming a run of `P`-characters from the front of a text that does
      not start with one leaves that text. */
  lemma {:induction false} LTrimPrefix(w: string, b: string, P: char -> bool)
    requires forall i :: 0 <= i < |w| ==> P(w[i])
    requires b == [] || !P(b[0])
    ensures LTrimBy(w + b, P) == b
    decreases |w|
  {
    if w != [] {
      assert (w + b)[1..] == w[1..] + b;
      LTrimPrefix(w[1..], b, P);
    } else {
      assert w + b == b;
    }
  }

  /** The same at the back. */
  lemma {:induction false} RTrimSuffix(b: string, w: string, P: char -> bool)
    requires forall i :: 0 <= i < |w| ==> P(w[i])
    requires b == [] || !P(b[|b| - 1])
    ensures RTrimBy(b + w, P) == b
    decreases |w|
  {
    if w != [] {
      assert (b + w)[..|b + w| - 1] == b + w[..|w| - 1];
      RTrimSuffix(b, w[..|w| - 1], P);
    } else {
      assert b + w == b;
    }
  }

  /** The quote characters `"` and `'`. */
  predicate IsQuote(c: char)
  {
    c == '"' || c == '\''
  }

  predicate NotSpace(c: char)
  {
    !IsSpace(c)
  }

  /** The length of the longest run of `P`-characters starting at `i`. */
  function Span(s: string, i: nat, P: char -> bool): (n: nat)
    requires i <= |s|
    ensures i + n <= |s|
    ensures forall k :: i <= k < i + n ==> P(s[k])
    ensures i + n == |s| || !P(s[i + n])
    decreases |s| - i
  {
    if i < |s| && P(s[i]) then 1 + Span(s, i + 1, P) else 0
  }

  /** A run of `n` `P`-characters from `i`, ended by the text's end or a
      character not in `P`, is the span. */
  lemma {:induction false} SpanIs(s: string, i: nat, n: nat, P: char -> bool)
    requires i + n <= |s| && forall k :: i <= k < i + n ==> P(s[k])
    requires i + n == |s| || !P(s[i + n])
    ensures Span(s, i, P) == n
    decreases n
  {
    if n > 0 {
      SpanIs(s, i + 1, n - 1, P);
    }
  }

  predicate StartsWith(s: string, p: string)
  {
    |p| <= |s| && s[..|p|] == p
  }

  predicate EndsWith(s: string, p: string)
  {
    |p| <= |s| && s[|s| - |p|..] == p
  }

  lemma StartsWithConcat(p: string, b: string)
    ensures StartsWith(p + b, p)
  {
    assert (p + b)[..|p|] == p;
  }

  lemma StartsWithConcat3(p: string, b: string, c: string)
    ensures StartsWith(p + b + c, p)
  {
    assert (p + b + c)[..|p|] == p;
  }

  lemma EndsWithConcat(a: string, p: string)
    ensures EndsWith(a + p, p)
  {
    assert (a + p)[|a|..] == p;
  }

  /** `p` occurs in `s` at position `i`. */
  predicate OccursAt(s: string, p: string, i: int)
  {
    0 <= i && i + |p| <= |s| && s[i..i + |p|] == p
  }

  /** `strpos($s, $p, $from)`: the first occurrence of `p` at or after `from`. */
  function IndexOf(s: string, p: string, from: nat): (r: Option<nat>)
    requires from <= |s|
    ensures r.Some? ==> from <= r.value && OccursAt(s, p, r.value)
    ensures r.Some? ==> forall j :: from <= j < r.value ==> !OccursAt(s, p, j)
    ensures r.None? ==> forall j :: from <= j ==> !OccursAt(s, p, j)
    decreases |s| - from
  {
    if OccursAt(s, p, from) then Some(from)
    else if from == |s| then None
    else IndexOf(s, p, from + 1)
  }

  /** `str_contains`. */
  predicate Contains(s: string, p: string)
  {
    IndexOf(s, p, 0).Some?
  }

  lemma ContainsIff(s: string, p: string)
    ensures Contains(s, p) <==> exists i :: OccursAt(s, p, i)
  {
    if exists i :: OccursAt(s, p, i) {
      var i :| OccursAt(s, p, i);
      assert 0 <= i;
    }
  }

  /** `str_replace($pat, $rep, $s)`: every occurrence of `pat`, found left
      to right without overlap, is replaced by `rep`. */
  function ReplaceAll(s: string, pat: string, rep: string): string
    requires pat != []
    decreases |s|
  {
    if |s| < |pat| then s
    else if s[..|pat|] == pat then rep + ReplaceAll(s[|pat|..], pat, rep)
    else [s[0]] + ReplaceAll(s[1..], pat, rep)
  }

  /** An occurrence in the tail is an occurrence one further on. */
  lemma OccursShift(s: string, pat: string)
    requires |s| > 0
    ensures forall i :: OccursAt(s[1..], pat, i) ==> OccursAt(s, pat, i + 1)
  {
    forall i | OccursAt(s[1..], pat, i)
      ensures OccursAt(s, pat, i + 1)
    {
      assert s[1..][i..i + |pat|] == s[i + 1..i + 1 + |pat|];
    }
  }

  /** Replacing a pattern that does not occur leaves the string unchanged. */
  lemma {:induction false} ReplaceAbsent(s: string, pat: string, rep: string)
    requires pat != []
    requires forall i :: !OccursAt(s, pat, i)
    ensures ReplaceAll(s, pat, rep) == s
    decreases |s|
  {
    if |s| >= |pat| {
      assert !OccursAt(s, pat, 0);
      assert s[..|pat|] != pat;
      OccursShift(s, pat);
      ReplaceAbsent(s[1..], pat, rep);
    }
  }

  /** Replacing a character by a text without it removes the character. */
  lemma {:induction false} ReplaceRemoves(s: string, c: char, rep: string)
    requires c !in rep
    ensures c !in ReplaceAll(s, [c], rep)
    decreases |s|
  {
    if |s| >= 1 {
      ReplaceRemoves(s[1..], c, rep);
      if s[..1] != [c] {
        assert s[0] != c;
      }
    }
  }

  /** Replacing a character the text does not hold leaves the text. */
  lemma {:induction false} ReplaceCharAbsent(s: string, c: char, rep: string)
    requires c !in s
    ensures ReplaceAll(s, [c], rep) == s
    decreases |s|
  {
    if |s| >= 1 {
      assert s[..1] == [s[0]];
      assert s[0] in s;
      assert forall x :: x in s[1..] ==> x in s;
      ReplaceCharAbsent(s[1..], c, rep);
      assert s == [s[0]] + s[1..];
    }
  }

  /** Replacing brings in no character that neither the text nor the
      replacement holds. */
  lemma {:induction false} ReplaceKeepsOut(s: string, pat: string, rep: string, d: char)
    requires pat != [] && d !in s && d !in rep
    ensures d !in ReplaceAll(s, pat, rep)
    decreases |s|
  {
    if |s| >= |pat| {
      if s[..|pat|] == pat {
        ReplaceKeepsOut(s[|pat|..], pat, rep, d);
      } else {
        ReplaceKeepsOut(s[1..], pat, rep, d);
      }
    }
  }

  /** Replacing a whole string by something yields that something. */
  lemma ReplaceWhole(s: string, rep: string)
    requires s != []
    ensures ReplaceAll(s, s, rep) == rep
  {
    assert s[|s|..] == [];
  }

  /** The position of the first `c` in `s`, if any. */
  function FindChar(s: string, c: char): (r: Option<nat>)
    ensures r.Some? ==> r.value < |s| && s[r.value] == c && c !in s[..r.value]
    ensures r.None? <==> c !in s
  {
    if s == [] then None
    else if s[0] == c then Some(0)
    else match FindChar(s[1..], c)
      case None => None
      case Some(i) => Some(i + 1)
  }

  /** `explode` on a one-character separator. */
  function Split(s: string, c: char): (r: seq<string>)
    ensures |r| >= 1
    ensures forall k :: 0 <= k < |r| ==> c !in r[k]
    decreases |s|
  {
    match FindChar(s, c)
    case None => [s]
    case Some(i) => [s[..i]] + Split(s[i + 1..], c)
  }

  /** `implode`. */
  function Join(parts: seq<string>, sep: string): string
  {
    if parts == [] then ""
    else if |parts| == 1 then parts[0]
    else parts[0] + sep + Join(parts[1..], sep)
  }

  /** Joining the pieces of `explode` with the separator restores the string. */
  lemma {:induction false} JoinSplit(s: string, c: char)
    ensures Join(Split(s, c), [c]) == s
    decreases |s|
  {
    match FindChar(s, c)
    case None =>
    case Some(i) =>
      var tail := Split(s[i + 1..], c);
      assert Split(s, c) == [s[..i]] + tail;
      assert Join([s[..i]] + tail, [c]) == s[..i] + [c] + Join(tail, [c]);
      JoinSplit(s[i + 1..], c);
      assert s == s[..i] + [c] + s[i + 1..];
  }

  /** Splitting a join of separator-free pieces gives the pieces back. */
  lemma {:induction false} SplitJoin(parts: seq<string>, c: char)
    requires |parts| >= 1
    requires forall k :: 0 <= k < |parts| ==> c !in parts[k]
    ensures Split(Join(parts, [c]), c) == parts
    decreases |parts|
  {
    if |parts| > 1 {
      var rest := Join(parts[1..], [c]);
      var s := parts[0] + [c] + rest;
      FindFirstAfterPrefix(parts[0], c, rest);
      assert s[..|parts[0]|] == parts[0];
      assert s[|parts[0]| + 1..] == rest;
      SplitJoin(parts[1..], c);
    } else {
      assert FindChar(parts[0], c).None?;
    }
  }

  lemma FindFirstAfterPrefix(a: string, c: char, b: string)
    requires c !in a
    ensures FindChar(a + [c] + b, c) == Some(|a|)
  {
    var s := a + [c] + b;
    var r := FindChar(s, c);
    assert s[|a|] == c;
    assert r.Some?;
    assert forall k :: 0 <= k < |a| ==> s[k] == a[k];
  }

  /** The text up to, not including, the first line feed: what PCRE's
      `(.*)` captures. */
  function TakeLine(s: string): (r: string)
    ensures |r| <= |s| && r == s[..|r|] && '\n' !in r
    ensures |r| == |s| || s[|r|] == '\n'
  {
    match FindChar(s, '\n')
    case None => s
    case Some(i) => s[..i]
  }

  /** A text without a line feed is its own first line. */
  lemma TakeLineWhole(s: string)
    requires '\n' !in s
    ensures TakeLine(s) == s
  {
    assert forall i :: 0 <= i < |s| ==> s[i] != '\n';
  }

  /** `substr_count($s, $p, $i)`: non-overlapping occurrences from `i`. */
  function CountFrom(s: string, p: string, i: nat): nat
    requires p != [] && i <= |s|
    decreases |s| - i
  {
    if i + |p| > |s| then 0
    else if OccursAt(s, p, i) then 1 + CountFrom(s, p, i + |p|)
    else CountFrom(s, p, i + 1)
  }

  function DigitChar(d: nat): char
    requires d < 10
  {
    ('0' as int + d) as char
  }

  /** A natural number written in decimal. */
  function NatToString(n: nat): (r: string)
    ensures |r| >= 1
    ensures forall i :: 0 <= i < |r| ==> IsDigit(r[i])
  {
    if n < 10 then [DigitChar(n)] else NatToString(n / 10) + [DigitChar(n % 10)]
  }

  /** The value of a string of decimal digits. */
  function DigitsValue(s: string): nat
    requires forall i :: 0 <= i < |s| ==> IsDigit(s[i])
  {
    if s == [] then 0
    else
      assert IsDigit(s[|s| - 1]);
      DigitsValue(s[..|s| - 1]) * 10 + (s[|s| - 1] as int - '0' as int)
  }

  lemma {:induction false} NatToStringValue(n: nat)
    ensures DigitsValue(NatToString(n)) == n
  {
    if n >= 10 {
      NatToStringValue(n / 10);
      var r := NatToString(n);
      assert r[..|r| - 1] == NatToString(n / 10);
    }
  }
}
