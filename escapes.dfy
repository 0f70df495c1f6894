/** Two rewrites of the Markdown source before it is compiled: a character
    shielded by a backslash becomes a numeric code (`handleShieldedCharacters`),
    and an escaped line end or a ` BR ` becomes a line break
    (`handleLineBreaks`). */
module Escapes {
  import opened Wrappers
  import opened PhpStrings

  /** What a shielded character is replaced by: a line feed becomes `<br>`,
      any other character `@#N;` with `N` its code. */
  function CharCode(c: char): (r: string)
    ensures |r| >= 4 && '\\' !in r
  {
    if c == '\n' then "<br>" else "@#" + NatToString(c as nat) + ";"
  }

  /** The shielded characters of `s` replaced, left to right. A backslash
      with nothing after it stays; when `zeroStops`, a backslash before `0`
      ends the rewriting and the rest of the text stays as it is, since the
      original reads the character `"0"` as false. */
  function ShieldFrom(s: string, zeroStops: bool): string
    decreases |s|
  {
    if s == [] then []
    else if s[0] == '\\' && |s| >= 2 && zeroStops && s[1] == '0' then s
    else if s[0] == '\\' && |s| >= 2 then CharCode(s[1]) + ShieldFrom(s[2..], zeroStops)
    else [s[0]] + ShieldFrom(s[1..], zeroStops)
  }

  /** `handleShieldedCharacters` as written: its loop runs while
      `strpos($str, '\\', $p)` is truthy, so a backslash at position 0 ends
      it before it starts, and `\0` stops it. */
  function ShieldedAsWritten(s: string): string
  {
    if |s| > 0 && s[0] == '\\' then s else ShieldFrom(s, true)
  }

  /** The evident intent: every backslash with a character after it is
      replaced, wherever it stands. */
  function Shielded(s: string): string
  {
    ShieldFrom(s, false)
  }

  /** A run without backslashes is copied as it is. */
  lemma {:induction false} ShieldFromGap(s: string, k: nat, zeroStops: bool)
    requires k <= |s| && '\\' !in s[..k]
    ensures ShieldFrom(s, zeroStops) == s[..k] + ShieldFrom(s[k..], zeroStops)
    decreases k
  {
    if k > 0 {
      assert s[0] == s[..k][0];
      assert '\\' !in s[1..][..k - 1] by { assert s[1..][..k - 1] == s[..k][1..]; }
      ShieldFromGap(s[1..], k - 1, zeroStops);
      assert s[1..][k - 1..] == s[k..];
      assert s[..k] == [s[0]] + s[1..][..k - 1];
    }
  }

  /** `strpos($str, '\\', $p)`: the first backslash at or after `p`. */
  function BackslashFrom(s: string, p: nat): (r: Option<nat>)
    requires p <= |s|
    ensures r.Some? ==> p <= r.value < |s| && s[r.value] == '\\' && '\\' !in s[p..r.value]
    ensures r.None? ==> '\\' !in s[p..]
  {
    match FindChar(s[p..], '\\')
    case None => None
    case Some(i) =>
      assert s[p..][..i] == s[p..p + i];
      Some(p + i)
  }

  /** The first backslash found from `p` lies in the text not yet
      rewritten, and what comes before it there is copied. */
  lemma StepFound(str: string, out: string, rest: string, p: nat, q: nat)
    requires str == out + rest && p <= |out| && '\\' !in str[p..|out|]
    requires p <= q < |str| && str[q] == '\\' && '\\' !in str[p..q]
    ensures |out| <= q && rest[q - |out|] == '\\'
    ensures ShieldFrom(rest, true) == rest[..q - |out|] + ShieldFrom(rest[q - |out|..], true)
  {
    var k := q - |out|;
    assert str[q] == rest[k];
    assert rest[..k] == str[|out|..q];
    assert '\\' !in rest[..k] by { assert str[p..q][|out| - p..] == rest[..k]; }
    ShieldFromGap(rest, k, true);
  }

  /** No backslash is left from `p`: the rest is copied. */
  lemma StepNone(str: string, out: string, rest: string, p: nat)
    requires str == out + rest && p <= |out| && '\\' !in str[p..]
    ensures ShieldFrom(rest, true) == rest
  {
    assert rest == str[|out|..];
    assert '\\' !in rest by { assert str[p..][|out| - p..] == rest; }
    ShieldFromGap(rest, |rest|, true);
    assert rest[..|rest|] == rest;
  }

  /** A backslash ending the text, or before `0`, stops the rewriting. */
  lemma StepStop(rest: string, k: nat)
    requires k < |rest| && rest[k] == '\\' && (k + 1 >= |rest| || rest[k + 1] == '0')
    ensures ShieldFrom(rest[k..], true) == rest[k..]
  {
  }

  /** A backslash before any other character is replaced by its code. */
  lemma StepCode(rest: string, k: nat)
    requires k + 1 < |rest| && rest[k] == '\\' && rest[k + 1] != '0'
    ensures ShieldFrom(rest[k..], true) == CharCode(rest[k + 1]) + ShieldFrom(rest[k + 2..], true)
  {
    assert rest[k..][2..] == rest[k + 2..];
  }

  /** The rewritten string is the text done so far, the code, and the rest. */
  lemma StepSplice(str: string, out: string, rest: string, q: nat, code: string)
    requires str == out + rest && |out| <= q && q + 2 <= |str|
    ensures str[..q] + code + str[q + 2..] == (out + rest[..q - |out|] + code) + rest[q - |out| + 2..]
  {
    assert str[..q] == out + rest[..q - |out|];
    assert str[q + 2..] == rest[q - |out| + 2..];
  }

  /** The code written holds no backslash after its first two characters. */
  lemma StepClean(t: string, q: nat, code: string)
    requires '\\' !in code && |code| >= 2
    requires q + |code| <= |t| && t[q..q + |code|] == code
    ensures '\\' !in t[q + 2..q + |code|]
  {
    assert t[q + 2..q + |code|] == code[2..];
  }

  /** One turn of the loop: the backslash at `k` of the text not yet
      rewritten and the character after it are replaced; the text done grows
      by the run before it and the code. */
  lemma Advance(target: string, out: string, rest: string, k: nat)
    requires k + 1 < |rest| && rest[k] == '\\' && rest[k + 1] != '0'
    requires ShieldFrom(rest, true) == rest[..k] + ShieldFrom(rest[k..], true)
    requires target == out + ShieldFrom(rest, true)
    ensures target == (out + rest[..k] + CharCode(rest[k + 1])) + ShieldFrom(rest[k + 2..], true)
  {
    StepCode(rest, k);
    AdvanceTarget(target, out, rest, k, CharCode(rest[k + 1]));
  }

  lemma AdvanceTarget(target: string, out: string, rest: string, k: nat, code: string)
    requires k + 2 <= |rest|
    requires target == out + ShieldFrom(rest, true)
    requires ShieldFrom(rest, true) == rest[..k] + ShieldFrom(rest[k..], true)
    requires ShieldFrom(rest[k..], true) == code + ShieldFrom(rest[k + 2..], true)
    ensures target == (out + rest[..k] + code) + ShieldFrom(rest[k + 2..], true)
  {
    Regroup(out, rest[..k], code, ShieldFrom(rest[k + 2..], true));
  }

  lemma Regroup(a: string, b: string, c: string, d: string)
    ensures a + (b + (c + d)) == (a + b + c) + d
  {
  }

  /** The loop stops at a backslash that ends the text or stands before `0`:
      the string is left as it is from there. */
  lemma Stop(target: string, str: string, out: string, rest: string, p: nat, q: nat)
    requires str == out + rest && p <= |out| && '\\' !in str[p..|out|]
    requires p <= q < |str| && str[q] == '\\' && '\\' !in str[p..q]
    requires q + 1 >= |str| || str[q + 1] == '0'
    requires target == out + ShieldFrom(rest, true)
    ensures target == str
  {
    StepFound(str, out, rest, p, q);
    var k := q - |out|;
    StepStop(rest, k);
    assert rest[..k] + rest[k..] == rest;
  }

  /** The state of `handleShieldedCharacters`'s loop: the string is the text
      done and the original text not yet read; `p` lies in the text done,
      after its last backslash; and the result is the text done followed by
      the rewriting of the rest. */
  ghost predicate ShieldState(target: string, str: string, p: nat, out: string, rest: string)
  {
    str == out + rest && p <= |out| && '\\' !in str[p..|out|] &&
    target == out + ShieldFrom(rest, true)
  }

  /** The state after replacing the backslash at `q`, found from `p`. */
  lemma NextState(target: string, str: string, p: nat, out: string, rest: string, q: nat)
    returns (out2: string, rest2: string)
    requires ShieldState(target, str, p, out, rest)
    requires p <= q && q + 1 < |str| && str[q] == '\\' && '\\' !in str[p..q] && str[q + 1] != '0'
    ensures ShieldState(target, str[..q] + CharCode(str[q + 1]) + str[q + 2..], q + 2, out2, rest2)
    ensures |rest2| < |rest|
  {
    StepFound(str, out, rest, p, q);
    var k := q - |out|;
    var code := CharCode(str[q + 1]);
    assert str[q + 1] == rest[k + 1];
    Advance(target, out, rest, k);
    StepSplice(str, out, rest, q, code);
    out2 := out + rest[..k] + code;
    rest2 := rest[k + 2..];
    var t := str[..q] + code + str[q + 2..];
    assert t[q..q + |code|] == code;
    StepClean(t, q, code);
  }

  /** What one turn of the loop leads to: the loop ends, or goes on with the
      rewritten string from a new position. */
  datatype Turn = Done | Next(str: string, p: nat)

  /** One turn of `handleShieldedCharacters`'s loop from a position after
      the start. */
  method ShieldTurn(str: string, p: nat, ghost target: string, ghost out: string, ghost rest: string)
    returns (t: Turn, ghost out2: string, ghost rest2: string)
    requires 0 < p && ShieldState(target, str, p, out, rest)
    ensures t.Done? ==> target == str
    ensures t.Next? ==> 0 < t.p && ShieldState(target, t.str, t.p, out2, rest2) && |rest2| < |rest|
  {
    out2, rest2 := out, rest;
    var found := BackslashFrom(str, p);
    if found.None? {
      StepNone(str, out, rest, p);
      return Done, out2, rest2;
    }
    var q := found.value;
    if q + 1 >= |str| || str[q + 1] == '0' {
      Stop(target, str, out, rest, p, q);
      return Done, out2, rest2;
    }
    out2, rest2 := NextState(target, str, p, out, rest, q);
    t := Next(str[..q] + CharCode(str[q + 1]) + str[q + 2..], q + 2);
  }

  /** The loop's first turn: a backslash at position 0 is read as false and
      ends the loop; otherwise the turn is as any other. */
  method FirstTurn(s: string) returns (t: Turn, ghost out: string, ghost rest: string)
    ensures t.Done? ==> ShieldedAsWritten(s) == s
    ensures t.Next? ==> 0 < t.p && ShieldState(ShieldedAsWritten(s), t.str, t.p, out, rest)
  {
    out, rest := "", s;
    var found := BackslashFrom(s, 0);
    if found.None? {
      StepNone(s, "", s, 0);
      return Done, out, rest;
    }
    var q := found.value;
    if q == 0 {
      return Done, out, rest;
    }
    assert s[0] != '\\' by { assert s[0..q][0] == s[0]; }
    assert ShieldState(ShieldedAsWritten(s), s, 0, "", s) by {
      assert s[0..0] == [];
    }
    if q + 1 >= |s| || s[q + 1] == '0' {
      Stop(ShieldedAsWritten(s), s, "", s, 0, q);
      return Done, out, rest;
    }
    out, rest := NextState(ShieldedAsWritten(s), s, 0, "", s, q);
    t := Next(s[..q] + CharCode(s[q + 1]) + s[q + 2..], q + 2);
  }

  /** `handleShieldedCharacters`: finds each backslash from `p`, replaces it
      and the character after it by the character's code and moves `p` two
      places on, into the code just written. */
  method HandleShieldedCharacters(s: string) returns (str: string)
    ensures str == ShieldedAsWritten(s)
  {
    var t, out, rest := FirstTurn(s);
    if t.Done? {
      return s;
    }
    str := t.str;
    var p := t.p;
    while true
      invariant 0 < p && ShieldState(ShieldedAsWritten(s), str, p, out, rest)
      decreases |rest|
    {
      t, out, rest := ShieldTurn(str, p, ShieldedAsWritten(s), out, rest);
      if t.Done? {
        break;
      }
      str, p := t.str, t.p;
    }
  }

  /** A text without backslashes is left as it is. */
  lemma {:induction false} NoBackslashUnchanged(s: string)
    requires '\\' !in s
    ensures Shielded(s) == s && ShieldedAsWritten(s) == s
  {
    ShieldFromGap(s, |s|, false);
    ShieldFromGap(s, |s|, true);
    assert s[..|s|] == s;
  }

  /** After the rewriting no backslash is left, except one that ended the
      text. */
  lemma {:induction false} ShieldedLeavesNoBackslash(s: string)
    ensures var r := Shielded(s); forall i :: 0 <= i < |r| - 1 ==> r[i] != '\\'
    decreases |s|
  {
    if s != [] {
      var r := Shielded(s);
      if s[0] == '\\' && |s| >= 2 {
        ShieldedLeavesNoBackslash(s[2..]);
        var c := CharCode(s[1]);
        var t := Shielded(s[2..]);
        assert r == c + t;
        forall i | 0 <= i < |r| - 1 ensures r[i] != '\\' {
          if i < |c| {
            assert r[i] == c[i];
          } else {
            assert r[i] == t[i - |c|];
          }
        }
      } else {
        ShieldedLeavesNoBackslash(s[1..]);
        var t := Shielded(s[1..]);
        assert r == [s[0]] + t;
        if s[0] == '\\' {
          assert |s| == 1 && t == [];
        }
        forall i | 0 <= i < |r| - 1 ensures r[i] != '\\' {
          if i > 0 {
            assert r[i] == t[i - 1];
          }
        }
      }
    }
  }

  /** A shielded character between two texts is replaced by its code and
      nothing else changes: the text before it, free of backslashes, stays,
      and the text after it is rewritten on its own. */
  lemma ShieldedSplits(a: string, c: char, b: string)
    requires '\\' !in a
    ensures Shielded(a + ['\\', c] + b) == a + CharCode(c) + Shielded(b)
  {
    var s := a + ['\\', c] + b;
    assert s[..|a|] == a;
    ShieldFromGap(s, |a|, false);
    assert s[|a|..][2..] == b;
  }

  /** A backslash at the very start is not replaced as written. */
  lemma ShieldedAtStartMissed()
    ensures ShieldedAsWritten("\\*x") == "\\*x"
    ensures Shielded("\\*x") == "@#42;x"
  {
    assert NatToString(42) == "42";
    assert ShieldFrom("x", false) == "x";
  }

  /** A shielded `0` stops the rewriting as written: the `\*` after it
      stays. */
  lemma ShieldedZeroStops()
    ensures ShieldedAsWritten("a\\0b\\*") == "a\\0b\\*"
    ensures Shielded("a\\0b\\*") == "a@#48;b@#42;"
  {
    var s := "a\\0b\\*";
    assert s[1..] == "\\0b\\*";
    assert NatToString(48) == "48";
    assert NatToString(42) == "42";
    assert "\\0b\\*"[2..] == "b\\*";
    assert "b\\*"[1..] == "\\*";
    assert "\\*"[2..] == "";
  }

  /** `handleLineBreaks`: `preg_replace('/(\\\\\n|\s(?<!\\\\)BR\s)/m', "<br>\n")`.
      An escaped line end, or `BR` between two white-space characters,
      becomes `<br>` and a line feed; matches are found left to right and
      do not overlap. The look-behind stands after a white-space character,
      which is never a backslash, so it excludes nothing. */
  function LineBreaks(s: string): (r: string)
    ensures |s| > 0 ==> |r| > 0 && (r[0] == '<' || r[0] == s[0])
    decreases |s|
  {
    if |s| >= 2 && s[0] == '\\' && s[1] == '\n' then "<br>\n" + LineBreaks(s[2..])
    else if |s| >= 4 && IsSpace(s[0]) && s[1] == 'B' && s[2] == 'R' && IsSpace(s[3]) then
      "<br>\n" + LineBreaks(s[4..])
    else if s == [] then []
    else [s[0]] + LineBreaks(s[1..])
  }

  /** After the rewriting no escaped line end is left. */
  predicate NoEscapedLineEnd(r: string)
  {
    forall i :: 0 <= i < |r| - 1 ==> !(r[i] == '\\' && r[i + 1] == '\n')
  }

  lemma {:induction false} NoEscapedLineEndLeft(s: string)
    ensures NoEscapedLineEnd(LineBreaks(s))
    decreases |s|
  {
    var r := LineBreaks(s);
    if |s| >= 2 && s[0] == '\\' && s[1] == '\n' {
      NoEscapedLineEndLeft(s[2..]);
      var t := LineBreaks(s[2..]);
      assert NoEscapedLineEnd(t);
      assert r == "<br>\n" + t;
      forall i | 0 <= i < |r| - 1 ensures !(r[i] == '\\' && r[i + 1] == '\n') {
        if i >= 5 {
          assert r[i] == t[i - 5] && r[i + 1] == t[i - 4];
        } else {
          assert r[i] == "<br>\n"[i];
        }
      }
    } else if |s| >= 4 && IsSpace(s[0]) && s[1] == 'B' && s[2] == 'R' && IsSpace(s[3]) {
      NoEscapedLineEndLeft(s[4..]);
      var t := LineBreaks(s[4..]);
      assert NoEscapedLineEnd(t);
      assert r == "<br>\n" + t;
      forall i | 0 <= i < |r| - 1 ensures !(r[i] == '\\' && r[i + 1] == '\n') {
        if i >= 5 {
          assert r[i] == t[i - 5] && r[i + 1] == t[i - 4];
        } else {
          assert r[i] == "<br>\n"[i];
        }
      }
    } else if s != [] {
      NoEscapedLineEndLeft(s[1..]);
      var t := LineBreaks(s[1..]);
      assert NoEscapedLineEnd(t);
      assert r == [s[0]] + t;
      forall i | 0 <= i < |r| - 1 ensures !(r[i] == '\\' && r[i + 1] == '\n') {
        if i >= 1 {
          assert r[i] == t[i - 1] && r[i + 1] == t[i];
        } else if s[0] == '\\' {
          assert r[1] == t[0];
          assert s[1..][0] == s[1];
        }
      }
    }
  }

  /** A text with neither a backslash nor a `B` is left as it is. */
  lemma {:induction false} LineBreaksPlain(s: string)
    requires forall i :: 0 <= i < |s| ==> s[i] != '\\' && s[i] != 'B'
    ensures LineBreaks(s) == s
    decreases |s|
  {
    if s != [] {
      LineBreaksPlain(s[1..]);
    }
  }

  /** Each ` BR ` in running text becomes a line break and the texts around
      it are rewritten on their own. */
  lemma {:induction false} LineBreakSplits(a: string, b: string)
    requires forall i :: 0 <= i < |a| ==> a[i] != '\\' && a[i] != 'B' && !IsSpace(a[i])
    ensures LineBreaks(a + " BR " + b) == a + "<br>\n" + LineBreaks(b)
    decreases |a|
  {
    if a == [] {
      assert (a + " BR " + b)[4..] == b;
    } else {
      assert (a + " BR " + b)[1..] == a[1..] + " BR " + b;
      LineBreakSplits(a[1..], b);
    }
  }
}
