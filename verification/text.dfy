/**
 * String primitives of Python's `str` that the bot relies on: `isspace`,
 * `strip`, `split(sep)`, `split()`, `splitlines`, `in`, `endswith`, `join`.
 * Strings are `seq<char>`; a `char` is a Unicode scalar value.
 */
module Text {

  /** Python's `str.isspace`, which is also the `\s` class of `re` on str patterns. */
  predicate IsSpace(c: char) {
    || c == ' '
    || ('\t' <= c <= '\r')
    || ('\U{1C}' <= c <= '\U{1F}')
    || c == '\U{85}' || c == '\U{A0}' || c == '\U{1680}'
    || ('\U{2000}' <= c <= '\U{200A}')
    || c == '\U{2028}' || c == '\U{2029}' || c == '\U{202F}' || c == '\U{205F}'
    || c == '\U{3000}'
  }

  predicate NoSpace(s: string) {
    forall i :: 0 <= i < |s| ==> !IsSpace(s[i])
  }

  predicate AllSpace(s: string) {
    forall i :: 0 <= i < |s| ==> IsSpace(s[i])
  }

  /** `str.lstrip()` */
  function TrimStart(s: string): string
    decreases |s|
  {
    if |s| > 0 && IsSpace(s[0]) then TrimStart(s[1..]) else s
  }

  /** `str.rstrip()` */
  function TrimEnd(s: string): string
    decreases |s|
  {
    if |s| > 0 && IsSpace(s[|s| - 1]) then TrimEnd(s[..|s| - 1]) else s
  }

  /** `lstrip` drops exactly the leading run of blank characters. */
  lemma {:induction false} TrimStartSpec(s: string)
    ensures |TrimStart(s)| <= |s| && TrimStart(s) == s[|s| - |TrimStart(s)|..]
    ensures AllSpace(s[..|s| - |TrimStart(s)|])
    ensures TrimStart(s) == [] || !IsSpace(TrimStart(s)[0])
    decreases |s|
  {
    if |s| > 0 && IsSpace(s[0]) {
      TrimStartSpec(s[1..]);
      var k := |s| - |TrimStart(s)|;
      assert s[1..][|s| - 1 - |TrimStart(s)|..] == s[k..];
      forall i | 0 <= i < k
        ensures IsSpace(s[..k][i])
      {
        if i > 0 {
          assert s[..k][i] == s[1..][..k - 1][i - 1];
        }
      }
    }
  }

  /** `rstrip` drops exactly the trailing run of blank characters. */
  lemma {:induction false} TrimEndSpec(s: string)
    ensures |TrimEnd(s)| <= |s| && TrimEnd(s) == s[..|TrimEnd(s)|]
    ensures AllSpace(s[|TrimEnd(s)|..])
    ensures TrimEnd(s) == [] || !IsSpace(TrimEnd(s)[|TrimEnd(s)| - 1])
    decreases |s|
  {
    if |s| > 0 && IsSpace(s[|s| - 1]) {
      var s' := s[..|s| - 1];
      TrimEndSpec(s');
      var k := |TrimEnd(s)|;
      assert s'[..k] == s[..k];
      forall i | k <= i < |s|
        ensures IsSpace(s[i])
      {
        if i < |s| - 1 {
          assert s[i] == s'[k..][i - k];
        }
      }
      assert forall i :: 0 <= i < |s| - k ==> s[k..][i] == s[k + i];
    }
  }

  /** `str.strip()`: the text between the leading and trailing whitespace runs. */
  function Strip(s: string): string
  {
    TrimEnd(TrimStart(s))
  }

  /** The stripped text is no longer than the input and neither starts nor ends blank. */
  lemma StripEnds(s: string)
    ensures |Strip(s)| <= |s|
    ensures Strip(s) == [] || (!IsSpace(Strip(s)[0]) && !IsSpace(Strip(s)[|Strip(s)| - 1]))
  {
    TrimStartSpec(s);
    TrimEndSpec(TrimStart(s));
  }

  /** Stripping only removes characters: it never introduces one. */
  lemma StripKeepsOut(s: string, c: char)
    requires c !in s
    ensures c !in Strip(s)
  {
    TrimStartSpec(s);
    TrimEndSpec(TrimStart(s));
    var t := TrimStart(s);
    assert forall i :: 0 <= i < |t| ==> t[i] == s[|s| - |t| + i];
    var r := TrimEnd(t);
    assert forall i :: 0 <= i < |r| ==> r[i] == t[i];
  }

  lemma {:induction false} TrimStartOfClean(s: string)
    requires s == [] || !IsSpace(s[0])
    ensures TrimStart(s) == s
  {
  }

  lemma {:induction false} TrimEndOfClean(s: string)
    requires s == [] || !IsSpace(s[|s| - 1])
    ensures TrimEnd(s) == s
  {
  }

  /** Stripping text whose ends are already non-blank changes nothing. */
  lemma StripOfClean(s: string)
    requires s == [] || (!IsSpace(s[0]) && !IsSpace(s[|s| - 1]))
    ensures Strip(s) == s
  {
    TrimStartOfClean(s);
    TrimEndOfClean(s);
  }

  /** Stripping twice is stripping once. */
  lemma StripIdempotent(s: string)
    ensures Strip(Strip(s)) == Strip(s)
  {
    StripEnds(s);
    StripOfClean(Strip(s));
  }

  /** Stripping is empty exactly for all-blank text. */
  lemma StripEmptyIff(s: string)
    ensures Strip(s) == [] <==> AllSpace(s)
  {
    TrimStartSpec(s);
    var t := TrimStart(s);
    TrimEndSpec(t);
    var r := TrimEnd(t);
    var m := |s| - |t|;
    assert forall i :: 0 <= i < m ==> s[..m][i] == s[i];
    assert forall i :: 0 <= i < |t| ==> t[i] == s[m + i];
    assert forall i :: 0 <= i < |t| - |r| ==> t[|r|..][i] == t[|r| + i];
  }

  /** Text starting with a non-blank character never strips to empty. */
  lemma StripNonEmpty(s: string)
    requires s != [] && !IsSpace(s[0])
    ensures Strip(s) != []
  {
    StripEmptyIff(s);
  }

  /** A trailing blank character is removed by stripping. */
  lemma TrimEndAppendSpace(s: string, c: char)
    requires IsSpace(c)
    ensures TrimEnd(s + [c]) == TrimEnd(s)
  {
    assert (s + [c])[..|s + [c]| - 1] == s;
  }

  /** `sub` occurs in `s` starting at index `i`. */
  predicate OccursAt(s: string, sub: string, i: int) {
    0 <= i && i + |sub| <= |s| && s[i..i + |sub|] == sub
  }

  /** `sub in s`, written as a left-to-right search. */
  predicate Contains(s: string, sub: string)
    decreases |s|
  {
    (|sub| <= |s| && s[..|sub|] == sub) || (|s| > 0 && |sub| <= |s| && Contains(s[1..], sub))
  }

  /** The search agrees with "occurs at some position". */
  lemma {:induction false} ContainsIff(s: string, sub: string)
    ensures Contains(s, sub) <==> exists i :: OccursAt(s, sub, i)
    decreases |s|
  {
    if |sub| <= |s| && s[..|sub|] == sub {
      assert OccursAt(s, sub, 0);
    } else if |s| > 0 && |sub| <= |s| {
      ContainsIff(s[1..], sub);
      if Contains(s[1..], sub) {
        var i :| OccursAt(s[1..], sub, i);
        OccursShift(s, sub, i + 1);
      } else {
        forall i | 0 < i
          ensures !OccursAt(s, sub, i)
        {
          OccursShift(s, sub, i);
        }
        assert !OccursAt(s, sub, 0);
      }
    } else {
      forall i ensures !OccursAt(s, sub, i) {
      }
    }
  }

  /** An occurrence past the first character is an occurrence in the tail. */
  lemma OccursShift(s: string, sub: string, i: int)
    requires |s| > 0 && 0 < i
    ensures OccursAt(s, sub, i) <==> OccursAt(s[1..], sub, i - 1)
  {
    if i + |sub| <= |s| {
      assert s[1..][i - 1..i - 1 + |sub|] == s[i..i + |sub|];
    }
  }

  /** A substring of a text with no blank character has no blank character. */
  lemma ContainsNoSpace(s: string, sub: string, k: nat)
    requires NoSpace(s) && Contains(s, sub) && k < |sub|
    ensures !IsSpace(sub[k])
  {
    ContainsIff(s, sub);
    var i :| OccursAt(s, sub, i);
    assert sub[k] == s[i..i + |sub|][k] == s[i + k];
  }

  predicate StartsWith(s: string, prefix: string) {
    |prefix| <= |s| && s[..|prefix|] == prefix
  }

  predicate EndsWith(s: string, suffix: string) {
    |suffix| <= |s| && s[|s| - |suffix|..] == suffix
  }

  /** `sep.join(parts)` */
  function Join(parts: seq<string>, sep: string): string
    decreases |parts|
  {
    if |parts| == 0 then ""
    else if |parts| == 1 then parts[0]
    else parts[0] + sep + Join(parts[1..], sep)
  }

  /** `"".join(parts)` */
  function Concat(parts: seq<string>): string
    decreases |parts|
  {
    if |parts| == 0 then "" else parts[0] + Concat(parts[1..])
  }

  lemma {:induction false} ConcatAppend(a: seq<string>, b: seq<string>)
    ensures Concat(a + b) == Concat(a) + Concat(b)
    decreases |a|
  {
    if |a| == 0 {
      assert a + b == b;
    } else {
      assert (a + b)[1..] == a[1..] + b;
      ConcatAppend(a[1..], b);
    }
  }

  /** `s.split(sep)`: the pieces between non-overlapping occurrences found left to right. */
  function Split(s: string, sep: string): (parts: seq<string>)
    requires |sep| > 0
    ensures |parts| >= 1
    decreases |s|
  {
    if |s| < |sep| then [s]
    else if s[..|sep|] == sep then [""] + Split(s[|sep|..], sep)
    else
      var rest := Split(s[1..], sep);
      [[s[0]] + rest[0]] + rest[1..]
  }

  lemma JoinPrependChar(c: char, parts: seq<string>, sep: string)
    requires |parts| >= 1
    ensures Join([[c] + parts[0]] + parts[1..], sep) == [c] + Join(parts, sep)
  {
    var q := [[c] + parts[0]] + parts[1..];
    if |parts| > 1 {
      assert q[1..] == parts[1..];
    }
  }

  /** Joining the pieces back with the separator restores the text. */
  lemma {:induction false} JoinSplit(s: string, sep: string)
    requires |sep| > 0
    ensures Join(Split(s, sep), sep) == s
    decreases |s|
  {
    if |s| < |sep| {
    } else if s[..|sep|] == sep {
      JoinSplit(s[|sep|..], sep);
      var rest := Split(s[|sep|..], sep);
      assert ([""] + rest)[1..] == rest;
      assert s == sep + s[|sep|..];
    } else {
      var rest := Split(s[1..], sep);
      JoinSplit(s[1..], sep);
      JoinPrependChar(s[0], rest, sep);
      assert s == [s[0]] + s[1..];
    }
  }

  /** The first piece is the text before the first occurrence of the separator. */
  lemma {:induction false} SplitFirstIsPrefix(s: string, sep: string)
    requires |sep| > 0
    ensures StartsWith(s, Split(s, sep)[0])
    ensures !Contains(Split(s, sep)[0], sep)
    decreases |s|
  {
    var p := Split(s, sep)[0];
    ContainsIff(p, sep);
    if |s| < |sep| {
    } else if s[..|sep|] == sep {
    } else {
      var rest := Split(s[1..], sep);
      SplitFirstIsPrefix(s[1..], sep);
      assert p == [s[0]] + rest[0];
      ContainsIff(rest[0], sep);
      forall i | 0 <= i
        ensures !OccursAt(p, sep, i)
      {
        if i == 0 {
          assert |p| >= |sep| ==> s[..|sep|] == p[..|sep|];
        }
      }
    }
  }

  /** No piece of a split contains the separator. */
  lemma {:induction false} SplitPiecesLackSep(s: string, sep: string)
    requires |sep| > 0
    ensures forall k :: 0 <= k < |Split(s, sep)| ==> !Contains(Split(s, sep)[k], sep)
    decreases |s|
  {
    var parts := Split(s, sep);
    SplitFirstIsPrefix(s, sep);
    if |s| < |sep| {
    } else if s[..|sep|] == sep {
      SplitPiecesLackSep(s[|sep|..], sep);
      forall k | 1 <= k < |parts| ensures !Contains(parts[k], sep) {
        assert parts[k] == Split(s[|sep|..], sep)[k - 1];
      }
    } else {
      SplitPiecesLackSep(s[1..], sep);
      forall k | 1 <= k < |parts| ensures !Contains(parts[k], sep) {
        assert parts[k] == Split(s[1..], sep)[k];
      }
    }
  }

  lemma ContainsTail(s: string, sub: string)
    requires |s| > 0 && Contains(s[1..], sub)
    ensures Contains(s, sub)
  {
  }

  /** Text without the separator splits into itself alone. */
  lemma {:induction false} SplitNoSep(s: string, sep: string)
    requires |sep| > 0 && !Contains(s, sep)
    ensures Split(s, sep) == [s]
    decreases |s|
  {
    if |s| >= |sep| {
      assert s[..|sep|] != sep;
      if |s| > 0 && !Contains(s[1..], sep) {
        SplitNoSep(s[1..], sep);
        assert [s[0]] + s[1..] == s;
      } else if |s| > 0 {
        ContainsTail(s, sep);
      }
    }
  }

  /**
   * When the first occurrence of the separator follows `a`, the split yields
   * `a` and then the pieces of what follows the separator. The condition excludes
   * an occurrence that starts inside `a` and runs into the separator.
   */
  lemma {:induction false} SplitAtFirst(a: string, sep: string, rest: string)
    requires |sep| > 0 && !Contains(a + sep[..|sep| - 1], sep)
    ensures Split(a + sep + rest, sep) == [a] + Split(rest, sep)
    decreases |a|
  {
    var s := a + sep + rest;
    if a == [] {
      assert s == sep + rest;
      assert s[..|sep|] == sep;
      assert s[|sep|..] == rest;
    } else {
      var a' := a[1..];
      assert s[..|sep|] == (a + sep[..|sep| - 1])[..|sep|];
      assert s[..|sep|] != sep;
      assert (a + sep[..|sep| - 1])[1..] == a' + sep[..|sep| - 1];
      SplitAtFirst(a', sep, rest);
      assert s[1..] == a' + sep + rest;
      assert [s[0]] + a' == a;
    }
  }

  lemma JoinStartsWithFirst(parts: seq<string>, sep: string)
    requires |parts| >= 1
    ensures StartsWith(Join(parts, sep), parts[0])
  {
  }

  /** Pieces free of the character `c`, joined by `c`, split back into the same pieces. */
  lemma {:induction false} SplitJoinChar(parts: seq<string>, c: char)
    requires |parts| >= 1
    requires forall k :: 0 <= k < |parts| ==> c !in parts[k]
    ensures Split(Join(parts, [c]), [c]) == parts
    decreases |parts|
  {
    CharNotContained(parts[0], c);
    if |parts| == 1 {
      SplitNoSep(parts[0], [c]);
    } else {
      assert parts[0] + [c][..0] == parts[0];
      SplitAtFirst(parts[0], [c], Join(parts[1..], [c]));
      SplitJoinChar(parts[1..], c);
      assert parts == [parts[0]] + parts[1..];
    }
  }

  lemma CharNotContained(s: string, c: char)
    requires c !in s
    ensures !Contains(s, [c])
  {
    ContainsIff(s, [c]);
    forall i | 0 <= i < |s|
      ensures !OccursAt(s, [c], i)
    {
      assert s[i..i + 1][0] == s[i];
    }
  }

  /** Splitting at a one-character separator splits the text on either side of it apart. */
  lemma {:induction false} SplitCharConcat(a: string, c: char, b: string)
    ensures Split(a + [c] + b, [c]) == Split(a, [c]) + Split(b, [c])
    decreases |a|
  {
    if a == [] {
      assert a + [c] + b == [c] + b;
      SplitCons(c, b, c);
    } else {
      assert a + [c] + b == [a[0]] + (a[1..] + [c] + b);
      SplitCharConcat(a[1..], c, b);
      SplitConsChar(a[0], a[1..], a[1..] + [c] + b, c, Split(b, [c]));
      assert [a[0]] + a[1..] == a;
    }
  }

  /** One step of a split at a one-character separator. */
  lemma SplitCons(x: char, t: string, c: char)
    ensures Split([x] + t, [c]) ==
      if x == c then [""] + Split(t, [c]) else [[x] + Split(t, [c])[0]] + Split(t, [c])[1..]
  {
    var s := [x] + t;
    assert s[..1] == [x] && s[1..] == t;
  }

  lemma SplitConsChar(x: char, t: string, u: string, c: char, rb: seq<string>)
    requires Split(u, [c]) == Split(t, [c]) + rb
    ensures Split([x] + u, [c]) == Split([x] + t, [c]) + rb
  {
    SplitCons(x, u, c);
    SplitCons(x, t, c);
    if x != c {
      var ra := Split(t, [c]);
      ConsAppend([x] + ra[0], ra, rb);
    }
  }

  /** Replacing the head of `ra` commutes with appending `rb`. */
  lemma ConsAppend<T>(h: T, ra: seq<T>, rb: seq<T>)
    requires |ra| >= 1
    ensures [h] + (ra + rb)[1..] == ([h] + ra[1..]) + rb
  {
    assert (ra + rb)[1..] == ra[1..] + rb;
  }

  /** Python's `s.splitlines()` restricted to the '\n' terminator: no trailing empty line. */
  function SplitLines(s: string): (lines: seq<string>)
  {
    if s == [] then []
    else
      var parts := Split(s, "\n");
      if parts[|parts| - 1] == [] then parts[..|parts| - 1] else parts
  }

  /** Each line followed by its terminator, concatenated. */
  function Terminated(lines: seq<string>): string
    decreases |lines|
  {
    if |lines| == 0 then "" else lines[0] + "\n" + Terminated(lines[1..])
  }

  lemma {:induction false} TerminatedAppend(a: seq<string>, b: seq<string>)
    ensures Terminated(a + b) == Terminated(a) + Terminated(b)
    decreases |a|
  {
    if |a| == 0 {
      assert a + b == b;
    } else {
      assert (a + b)[1..] == a[1..] + b;
      TerminatedAppend(a[1..], b);
    }
  }

  lemma {:induction false} TerminatedJoin(parts: seq<string>)
    requires |parts| >= 1
    ensures Terminated(parts) == Join(parts, "\n") + "\n"
    decreases |parts|
  {
    if |parts| > 1 {
      TerminatedJoin(parts[1..]);
    }
  }

  /** No piece of a split on '\n' holds a line break. */
  lemma SplitNewlinePieces(s: string)
    ensures forall k :: 0 <= k < |Split(s, "\n")| ==> '\n' !in Split(s, "\n")[k]
  {
    var parts := Split(s, "\n");
    SplitPiecesLackSep(s, "\n");
    forall k | 0 <= k < |parts| ensures '\n' !in parts[k] {
      if '\n' in parts[k] {
        var i :| 0 <= i < |parts[k]| && parts[k][i] == '\n';
        assert OccursAt(parts[k], "\n", i);
        ContainsIff(parts[k], "\n");
      }
    }
  }

  /**
   * Line splitting loses nothing: the lines, each re-terminated by '\n', give back
   * the text, with one '\n' added when the text did not end in one.
   */
  lemma SplitLinesRoundTrip(s: string)
    ensures !EndsWith(s, "\n") ==> Terminated(SplitLines(s)) == (if s == [] then [] else s + "\n")
    ensures EndsWith(s, "\n") ==> Terminated(SplitLines(s)) == s
    ensures forall k :: 0 <= k < |SplitLines(s)| ==> '\n' !in SplitLines(s)[k]
  {
    if s != [] {
      var parts := Split(s, "\n");
      JoinSplit(s, "\n");
      SplitNewlinePieces(s);
      if parts[|parts| - 1] == [] {
        DropEmptyLastLine(parts);
      } else {
        KeepLastLine(parts);
      }
    }
  }

  lemma KeepLastLine(parts: seq<string>)
    requires |parts| >= 1 && parts[|parts| - 1] != [] && '\n' !in parts[|parts| - 1]
    ensures Terminated(parts) == Join(parts, "\n") + "\n"
    ensures !EndsWith(Join(parts, "\n"), "\n")
  {
    var s := Join(parts, "\n");
    var last := parts[|parts| - 1];
    TerminatedJoin(parts);
    JoinEndsWithLast(parts, "\n");
    assert s[|s| - 1] == last[|last| - 1];
    assert last[|last| - 1] in last;
  }

  lemma DropEmptyLastLine(parts: seq<string>)
    requires |parts| >= 1 && parts[|parts| - 1] == [] && Join(parts, "\n") != []
    ensures Terminated(parts[..|parts| - 1]) == Join(parts, "\n")
    ensures EndsWith(Join(parts, "\n"), "\n")
  {
    var init := parts[..|parts| - 1];
    assert parts == init + [[]];
    assert |init| >= 1;
    JoinLast(init, "\n");
    TerminatedJoin(init);
  }

  lemma {:induction false} JoinLast(init: seq<string>, sep: string)
    requires |init| >= 1
    ensures Join(init + [[]], sep) == Join(init, sep) + sep
    decreases |init|
  {
    if |init| == 1 {
      assert init + [[]] == [init[0], []];
    } else {
      assert (init + [[]])[1..] == init[1..] + [[]];
      JoinLast(init[1..], sep);
    }
  }

  lemma {:induction false} JoinEndsWithLast(parts: seq<string>, sep: string)
    requires |parts| >= 1
    ensures EndsWith(Join(parts, sep), parts[|parts| - 1])
    decreases |parts|
  {
    if |parts| > 1 {
      JoinEndsWithLast(parts[1..], sep);
    }
  }

  /** The longest prefix holding no blank character. */
  function TakeWord(s: string): (w: string)
    ensures |w| <= |s| && w == s[..|w|] && NoSpace(w)
    ensures |w| == |s| || IsSpace(s[|w|])
    decreases |s|
  {
    if |s| == 0 || IsSpace(s[0]) then [] else [s[0]] + TakeWord(s[1..])
  }

  /** `s.split()`: the maximal runs of non-blank characters, left to right. */
  function Words(s: string): (ws: seq<string>)
    ensures forall k :: 0 <= k < |ws| ==> ws[k] != [] && NoSpace(ws[k])
    decreases |s|
  {
    TrimStartSpec(s);
    var t := TrimStart(s);
    if t == [] then []
    else
      var w := TakeWord(t);
      [w] + Words(t[|w|..])
  }

  /** ASCII case folding; other characters are left alone. */
  function LowerChar(c: char): char {
    if 'A' <= c <= 'Z' then (c as int + 32) as char else c
  }

  function Lower(s: string): (r: string)
    ensures |r| == |s|
    ensures forall i :: 0 <= i < |s| ==> r[i] == LowerChar(s[i])
  {
    seq(|s|, i requires 0 <= i < |s| => LowerChar(s[i]))
  }

  /** `[w for w in ws if w]` */
  function NonEmpty(ws: seq<string>): seq<string>
    decreases |ws|
  {
    if ws == [] then [] else (if ws[0] == [] then [] else [ws[0]]) + NonEmpty(ws[1..])
  }

  /** A word without blanks followed by a blank (or nothing) is taken whole. */
  lemma {:induction false} TakeWordUpTo(a: string, rest: string)
    requires NoSpace(a) && (rest == [] || IsSpace(rest[0]))
    ensures TakeWord(a + rest) == a
    decreases |a|
  {
    if a != [] {
      assert (a + rest)[1..] == a[1..] + rest;
      TakeWordUpTo(a[1..], rest);
    } else {
      assert a + rest == rest;
    }
  }

  lemma WordsSpaceFirst(rest: string)
    ensures Words(" " + rest) == Words(rest)
  {
    assert (" " + rest)[1..] == rest;
    assert TrimStart(" " + rest) == TrimStart(rest);
  }

  lemma WordsCons(a: string, rest: string)
    requires a != [] && NoSpace(a)
    ensures Words(a + " " + rest) == [a] + Words(rest)
  {
    var s := a + " " + rest;
    assert s == a + (" " + rest);
    assert TrimStart(s) == s;
    TakeWordUpTo(a, " " + rest);
    assert s[|a|..] == " " + rest;
    WordsSpaceFirst(rest);
  }

  lemma WordsOfWord(a: string)
    requires NoSpace(a)
    ensures Words(a) == NonEmpty([a])
  {
    if a != [] {
      assert TrimStart(a) == a;
      TakeWordUpTo(a, []);
      assert a + [] == a;
      assert a[|a|..] == [];
      assert TrimStart([]) == [];
    }
  }

  /**
   * `" ".join(ws).split()` gives back the non-empty words, in order, when no
   * word holds a blank.
   */
  lemma {:induction false} WordsOfJoin(ws: seq<string>)
    requires forall k :: 0 <= k < |ws| ==> NoSpace(ws[k])
    ensures Words(Join(ws, " ")) == NonEmpty(ws)
    decreases |ws|
  {
    if |ws| == 0 {
      assert TrimStart([]) == [];
    } else if |ws| == 1 {
      WordsOfWord(ws[0]);
    } else {
      WordsOfJoin(ws[1..]);
      if ws[0] == [] {
        assert Join(ws, " ") == " " + Join(ws[1..], " ");
        WordsSpaceFirst(Join(ws[1..], " "));
      } else {
        WordsCons(ws[0], Join(ws[1..], " "));
      }
    }
  }
}
