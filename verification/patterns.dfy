/**
 * The two regular expressions the bot scans post text with, and the
 * left-to-right, non-overlapping search of `re.finditer`, `re.findall` and
 * `re.sub`:
 *   URL     `(https?://[^\s\)\]\}\<\>\"\']+)`
 *   handle  `@([a-zA-Z0-9_.-]+\.bsky\.social)`
 * Each pattern is given as a match length at a position (0 when it does not
 * match there) and, independently, as a predicate describing the matched
 * span; the lemmas connect the two.
 */
module Patterns {
  import opened Text

  datatype Pattern = UrlPattern | HandlePattern

  /** A match of a pattern: the characters `start .. end - 1`. */
  datatype Span = Span(start: nat, end: nat)

  // ---------------------------------------------------------------------------
  // URL

  /** `[^\s\)\]\}\<\>\"\']`: a character a URL may hold. */
  predicate IsUrlChar(c: char) {
    !IsSpace(c) && c != ')' && c != ']' && c != '}' && c != '<' && c != '>' && c != '"' && c != '\''
  }

  predicate UrlChars(s: string, a: nat, b: nat)
    requires a <= b <= |s|
  {
    forall k :: a <= k < b ==> IsUrlChar(s[k])
  }

  /** Length of the longest run of URL characters starting at `j`. */
  function UrlRun(s: string, j: nat): (n: nat)
    requires j <= |s|
    ensures j + n <= |s|
    decreases |s| - j
  {
    if j == |s| || !IsUrlChar(s[j]) then 0 else 1 + UrlRun(s, j + 1)
  }

  /** The run is made of URL characters and cannot be extended. */
  lemma {:induction false} UrlRunSpec(s: string, j: nat)
    requires j <= |s|
    ensures UrlChars(s, j, j + UrlRun(s, j))
    ensures j + UrlRun(s, j) == |s| || !IsUrlChar(s[j + UrlRun(s, j)])
    decreases |s| - j
  {
    if j < |s| && IsUrlChar(s[j]) {
      UrlRunSpec(s, j + 1);
    }
  }

  /** A maximal run of URL characters from `j` ends at `e`, and only there. */
  lemma {:induction false} UrlRunUnique(s: string, j: nat, e: nat)
    requires j <= e <= |s| && UrlChars(s, j, e)
    requires e == |s| || !IsUrlChar(s[e])
    ensures j + UrlRun(s, j) == e
    decreases |s| - j
  {
    if j < e {
      UrlRunUnique(s, j + 1, e);
    }
  }

  /** Match length of the URL pattern at `i`; `s?` is tried with the `s` first. */
  function UrlMatchLen(s: string, i: nat): (n: nat)
    requires i <= |s|
    ensures i + n <= |s|
  {
    if OccursAt(s, "https://", i) && i + 8 < |s| && IsUrlChar(s[i + 8]) then 8 + UrlRun(s, i + 8)
    else if OccursAt(s, "http://", i) && i + 7 < |s| && IsUrlChar(s[i + 7]) then 7 + UrlRun(s, i + 7)
    else 0
  }

  /**
   * A URL match, described without the search: a run of URL characters that
   * starts with `http://` or `https://`, has at least one character after the
   * scheme, and is not followed by another URL character.
   */
  predicate IsUrl(s: string, i: nat, e: nat) {
    && i < e <= |s|
    && UrlChars(s, i, e)
    && (e == |s| || !IsUrlChar(s[e]))
    && ((OccursAt(s, "https://", i) && i + 8 < e) || (OccursAt(s, "http://", i) && i + 7 < e))
  }

  lemma SchemeChars(s: string, i: nat, scheme: string)
    requires scheme == "https://" || scheme == "http://"
    requires OccursAt(s, scheme, i)
    ensures UrlChars(s, i, i + |scheme|)
  {
    forall k | i <= k < i + |scheme|
      ensures IsUrlChar(s[k])
    {
      assert s[k] == s[i..i + |scheme|][k - i] == scheme[k - i];
    }
  }

  /** `https://` and `http://` never occur at the same index (the fifth character differs). */
  lemma SchemesExclusive(s: string, i: nat)
    ensures OccursAt(s, "https://", i) ==> !OccursAt(s, "http://", i)
  {
    if OccursAt(s, "https://", i) {
      assert s[i + 4] == s[i..i + 8][4] == 's';
      assert s[i..i + 7][4] == s[i + 4];
    }
  }

  /** The match length and the description agree: `e` ends a URL match at `i` exactly when the search says so. */
  lemma UrlMatchIff(s: string, i: nat, e: nat)
    requires i <= |s|
    ensures IsUrl(s, i, e) <==> (UrlMatchLen(s, i) > 0 && e == i + UrlMatchLen(s, i))
  {
    if OccursAt(s, "https://", i) && i + 8 < |s| && IsUrlChar(s[i + 8]) {
      UrlRunSpec(s, i + 8);
      SchemeChars(s, i, "https://");
      SchemesExclusive(s, i);
      if IsUrl(s, i, e) {
        UrlRunUnique(s, i + 8, e);
      }
    } else if OccursAt(s, "http://", i) && i + 7 < |s| && IsUrlChar(s[i + 7]) {
      UrlRunSpec(s, i + 7);
      SchemeChars(s, i, "http://");
      SchemesExclusive(s, i);
      if IsUrl(s, i, e) {
        UrlRunUnique(s, i + 7, e);
      }
    } else {
      if i + 8 < e <= |s| && UrlChars(s, i, e) {
        assert IsUrlChar(s[i + 8]);
      }
      if i + 7 < e <= |s| && UrlChars(s, i, e) {
        assert IsUrlChar(s[i + 7]);
      }
    }
  }

  // ---------------------------------------------------------------------------
  // Handle

  /** `[a-zA-Z0-9_.-]` */
  predicate IsHandleChar(c: char) {
    ('a' <= c <= 'z') || ('A' <= c <= 'Z') || ('0' <= c <= '9') || c == '_' || c == '.' || c == '-'
  }

  predicate HandleChars(s: string, a: nat, b: nat)
    requires a <= b <= |s|
  {
    forall k :: a <= k < b ==> IsHandleChar(s[k])
  }

  const HandleSuffix: string := ".bsky.social"

  /** The text before index `e` ends with `.bsky.social`. */
  predicate SuffixAt(s: string, e: nat) {
    e >= 12 && OccursAt(s, HandleSuffix, e - 12)
  }

  /** Length of the longest run of handle characters starting at `j`. */
  function HandleRun(s: string, j: nat): (n: nat)
    requires j <= |s|
    ensures j + n <= |s|
    decreases |s| - j
  {
    if j == |s| || !IsHandleChar(s[j]) then 0 else 1 + HandleRun(s, j + 1)
  }

  lemma {:induction false} HandleRunSpec(s: string, j: nat)
    requires j <= |s|
    ensures HandleChars(s, j, j + HandleRun(s, j))
    ensures j + HandleRun(s, j) == |s| || !IsHandleChar(s[j + HandleRun(s, j)])
    decreases |s| - j
  {
    if j < |s| && IsHandleChar(s[j]) {
      HandleRunSpec(s, j + 1);
    }
  }

  /**
   * The greedy `+` backtracks from the end of the run: the largest end `g`
   * at most `top` with at least one character before the suffix, or 0.
   */
  function SuffixEnd(s: string, lo: nat, top: nat): (g: nat)
    requires top <= |s|
    ensures g <= top && (g == 0 || lo + 13 <= g)
    decreases top
  {
    if top < lo + 13 then 0
    else if SuffixAt(s, top) then top
    else SuffixEnd(s, lo, top - 1)
  }

  lemma {:induction false} SuffixEndSpec(s: string, lo: nat, top: nat)
    requires top <= |s|
    ensures var g := SuffixEnd(s, lo, top);
      && (g != 0 ==> lo + 13 <= g <= top && SuffixAt(s, g))
      && (forall e :: lo + 13 <= e <= top && e > g ==> !SuffixAt(s, e))
    decreases top
  {
    if top >= lo + 13 && !SuffixAt(s, top) {
      SuffixEndSpec(s, lo, top - 1);
    }
  }

  /** Match length of the handle pattern at `i`. */
  function HandleMatchLen(s: string, i: nat): (n: nat)
    requires i <= |s|
    ensures i + n <= |s|
  {
    if i < |s| && s[i] == '@' then
      var g := SuffixEnd(s, i + 1, i + 1 + HandleRun(s, i + 1));
      if g == 0 then 0 else g - i
    else 0
  }

  /**
   * A handle match, described without the search: `@`, then handle
   * characters ending in `.bsky.social` with at least one before it, and no
   * longer stretch of handle characters from the same `@` ends in the suffix.
   */
  predicate IsHandle(s: string, i: nat, e: nat) {
    && i + 14 <= e <= |s|
    && s[i] == '@'
    && HandleChars(s, i + 1, e)
    && SuffixAt(s, e)
    && (forall e' :: e < e' <= |s| && HandleChars(s, i + 1, e') ==> !SuffixAt(s, e'))
  }

  lemma HandleCharsShrink(s: string, a: nat, b: nat, c: nat)
    requires a <= b <= c <= |s| && HandleChars(s, a, c)
    ensures HandleChars(s, a, b)
  {
  }

  /** Handle characters from `j` never reach past the end of the run. */
  lemma {:induction false} HandleCharsInRun(s: string, j: nat, e: nat)
    requires j <= e <= |s| && HandleChars(s, j, e)
    ensures e <= j + HandleRun(s, j)
    decreases e - j
  {
    if j < e {
      assert IsHandleChar(s[j]);
      HandleCharsInRun(s, j + 1, e);
    }
  }

  /** What the backtracking search finds is a handle match. */
  lemma HandleMatchSound(s: string, i: nat)
    requires i < |s| && s[i] == '@'
    requires SuffixEnd(s, i + 1, i + 1 + HandleRun(s, i + 1)) != 0
    ensures IsHandle(s, i, SuffixEnd(s, i + 1, i + 1 + HandleRun(s, i + 1)))
  {
    var r := i + 1 + HandleRun(s, i + 1);
    HandleRunSpec(s, i + 1);
    SuffixEndSpec(s, i + 1, r);
    var g := SuffixEnd(s, i + 1, r);
    HandleCharsShrink(s, i + 1, g, r);
    forall e' | g < e' <= |s| && HandleChars(s, i + 1, e')
      ensures !SuffixAt(s, e')
    {
      HandleCharsInRun(s, i + 1, e');
      PastSuffixEnd(s, i + 1, r, e');
    }
  }

  /** Past the end the search settles on, up to where it started, nothing ends with the suffix. */
  lemma PastSuffixEnd(s: string, lo: nat, top: nat, e: nat)
    requires top <= |s| && SuffixEnd(s, lo, top) != 0 && SuffixEnd(s, lo, top) < e <= top
    ensures !SuffixAt(s, e)
  {
    SuffixEndSpec(s, lo, top);
  }

  /** Every handle match is the one the backtracking search finds. */
  lemma HandleMatchComplete(s: string, i: nat, e: nat)
    requires IsHandle(s, i, e)
    ensures SuffixEnd(s, i + 1, i + 1 + HandleRun(s, i + 1)) == e
  {
    var r := i + 1 + HandleRun(s, i + 1);
    HandleCharsInRun(s, i + 1, e);
    SuffixEndSpec(s, i + 1, r);
    var g := SuffixEnd(s, i + 1, r);
    assert g != 0 && e <= g;
    HandleRunSpec(s, i + 1);
    HandleCharsShrink(s, i + 1, g, r);
    assert HandleChars(s, i + 1, g);
  }

  /** The match length and the description agree. */
  lemma HandleMatchIff(s: string, i: nat, e: nat)
    requires i <= |s|
    ensures IsHandle(s, i, e) <==> (HandleMatchLen(s, i) > 0 && e == i + HandleMatchLen(s, i))
  {
    if i < |s| && s[i] == '@' {
      if SuffixEnd(s, i + 1, i + 1 + HandleRun(s, i + 1)) != 0 {
        HandleMatchSound(s, i);
      }
      if IsHandle(s, i, e) {
        HandleMatchComplete(s, i, e);
      }
    }
  }

  // ---------------------------------------------------------------------------
  // Left-to-right search

  /** Match length of a pattern at `i`, 0 when it does not match there. */
  function MatchLen(p: Pattern, s: string, i: nat): nat
    requires i <= |s|
  {
    match p
    case UrlPattern => UrlMatchLen(s, i)
    case HandlePattern => HandleMatchLen(s, i)
  }

  /** The match length of the pattern at every index of the text. */
  function Lengths(p: Pattern, s: string): (lens: seq<nat>)
    ensures Fit(lens)
  {
    seq(|s|, j requires 0 <= j < |s| => MatchLen(p, s, j))
  }

  /** No match reaches past the end of the text. */
  predicate Fit(lens: seq<nat>) {
    forall j :: 0 <= j < |lens| ==> j + lens[j] <= |lens|
  }

  /**
   * `re.finditer` from index `i`, over the match lengths at each index: the
   * leftmost match, then the search resumes where it ended.
   */
  function Scan(lens: seq<nat>, i: nat): seq<Span>
    requires Fit(lens) && i <= |lens|
    decreases |lens| - i
  {
    if i == |lens| then []
    else if lens[i] > 0 then [Span(i, i + lens[i])] + Scan(lens, i + lens[i])
    else Scan(lens, i + 1)
  }

  /** `re.finditer(pattern, s)`: the spans of the matches, left to right. */
  function FindIter(p: Pattern, s: string): (spans: seq<Span>)
    ensures forall k :: 0 <= k < |spans| ==> spans[k].start < spans[k].end <= |s|
  {
    ScanIsScanned(Lengths(p, s), 0);
    Scan(Lengths(p, s), 0)
  }

  /** A span is a non-empty match at its start. */
  predicate IsMatch(lens: seq<nat>, sp: Span) {
    sp.start < sp.end <= |lens| && lens[sp.start] == sp.end - sp.start
  }

  predicate Covered(spans: seq<Span>, j: nat) {
    exists k :: 0 <= k < |spans| && spans[k].start <= j < spans[k].end
  }

  /** Each span ends before any later one starts. */
  predicate Ordered(spans: seq<Span>) {
    forall a, b :: 0 <= a < b < |spans| ==> spans[a].end <= spans[b].start
  }

  /**
   * The result of a left-to-right, non-overlapping search, described without
   * the search: matches from `i` on, in order and disjoint, and every
   * position where the pattern matches lies inside one of them (a match
   * starting inside an earlier one is skipped, never found).
   */
  predicate Scanned(lens: seq<nat>, i: nat, spans: seq<Span>) {
    Matches(lens, i, spans) && Ordered(spans) && Covers(lens, i, spans)
  }

  /** Every span is a match starting at `i` or later. */
  predicate Matches(lens: seq<nat>, i: nat, spans: seq<Span>) {
    forall k :: 0 <= k < |spans| ==> i <= spans[k].start && IsMatch(lens, spans[k])
  }

  /** Every index from `i` on where the pattern matches lies inside a span. */
  predicate Covers(lens: seq<nat>, i: nat, spans: seq<Span>) {
    forall j {:trigger Covered(spans, j)} :: i <= j < |lens| && lens[j] > 0 ==> Covered(spans, j)
  }

  /** The search meets its description. */
  lemma {:induction false} ScanIsScanned(lens: seq<nat>, i: nat)
    requires Fit(lens) && i <= |lens|
    ensures Scanned(lens, i, Scan(lens, i))
    decreases |lens| - i
  {
    if i < |lens| {
      if lens[i] > 0 {
        ScanIsScanned(lens, i + lens[i]);
        ScannedCons(lens, i, Scan(lens, i + lens[i]));
      } else {
        ScanIsScanned(lens, i + 1);
        ScannedSkip(lens, i, Scan(lens, i + 1));
      }
    }
  }

  /** A match at `i` followed by the reading from its end is the reading from `i`. */
  lemma ScannedCons(lens: seq<nat>, i: nat, rest: seq<Span>)
    requires Fit(lens) && i < |lens| && lens[i] > 0
    requires Scanned(lens, i + lens[i], rest)
    ensures Scanned(lens, i, [Span(i, i + lens[i])] + rest)
  {
    ConsMatches(lens, i, rest);
    ConsOrdered(lens, i, rest);
    ConsCovers(lens, i, rest);
  }

  lemma ConsMatches(lens: seq<nat>, i: nat, rest: seq<Span>)
    requires Fit(lens) && i < |lens| && lens[i] > 0
    requires Matches(lens, i + lens[i], rest)
    ensures Matches(lens, i, [Span(i, i + lens[i])] + rest)
  {
    var spans := [Span(i, i + lens[i])] + rest;
    forall k | 0 <= k < |spans|
      ensures i <= spans[k].start && IsMatch(lens, spans[k])
    {
      if k > 0 {
        assert spans[k] == rest[k - 1];
      }
    }
  }

  lemma ConsOrdered(lens: seq<nat>, i: nat, rest: seq<Span>)
    requires i < |lens| && lens[i] > 0
    requires Matches(lens, i + lens[i], rest) && Ordered(rest)
    ensures Ordered([Span(i, i + lens[i])] + rest)
  {
    var spans := [Span(i, i + lens[i])] + rest;
    forall a, b | 0 <= a < b < |spans|
      ensures spans[a].end <= spans[b].start
    {
      assert spans[b] == rest[b - 1];
      if a > 0 {
        assert spans[a] == rest[a - 1];
      }
    }
  }

  lemma ConsCovers(lens: seq<nat>, i: nat, rest: seq<Span>)
    requires Fit(lens) && i < |lens| && lens[i] > 0
    requires Covers(lens, i + lens[i], rest)
    ensures Covers(lens, i, [Span(i, i + lens[i])] + rest)
  {
    var n := lens[i];
    var spans := [Span(i, i + n)] + rest;
    forall j | i <= j < |lens| && lens[j] > 0
      ensures Covered(spans, j)
    {
      if j >= i + n {
        assert Covered(rest, j);
        var k :| 0 <= k < |rest| && rest[k].start <= j < rest[k].end;
        assert spans[k + 1] == rest[k];
      } else {
        assert spans[0].start <= j < spans[0].end;
      }
    }
  }

  /** Where nothing matches at `i`, the reading from `i + 1` is the reading from `i`. */
  lemma ScannedSkip(lens: seq<nat>, i: nat, rest: seq<Span>)
    requires Fit(lens) && i < |lens| && lens[i] == 0
    requires Scanned(lens, i + 1, rest)
    ensures Scanned(lens, i, rest)
  {
    forall j | i <= j < |lens| && lens[j] > 0
      ensures Covered(rest, j)
    {
      assert j != i;
    }
  }

  /** Only the search meets the description: it is the one left-to-right, non-overlapping reading. */
  lemma {:induction false} ScanUnique(lens: seq<nat>, i: nat, spans: seq<Span>)
    requires Fit(lens) && i <= |lens| && Scanned(lens, i, spans)
    ensures spans == Scan(lens, i)
    decreases |lens| - i
  {
    if i == |lens| {
      ScannedAtEnd(lens, i, spans);
    } else if lens[i] > 0 {
      var n := lens[i];
      ScannedHead(lens, i, spans);
      ScanUnique(lens, i + n, spans[1..]);
      assert spans == [spans[0]] + spans[1..];
    } else {
      ScannedTail(lens, i, spans);
      ScanUnique(lens, i + 1, spans);
    }
  }

  /** Nothing is read from the end of the text. */
  lemma ScannedAtEnd(lens: seq<nat>, i: nat, spans: seq<Span>)
    requires i == |lens| && Matches(lens, i, spans)
    ensures spans == []
  {
    assert |spans| > 0 ==> IsMatch(lens, spans[0]);
  }

  /** A reading from a match position starts with that match and goes on from its end. */
  lemma ScannedHead(lens: seq<nat>, i: nat, spans: seq<Span>)
    requires Fit(lens) && i < |lens| && lens[i] > 0 && Scanned(lens, i, spans)
    ensures |spans| > 0 && spans[0] == Span(i, i + lens[i])
    ensures Scanned(lens, i + lens[i], spans[1..])
  {
    var n := lens[i];
    assert Covered(spans, i);
    var k :| 0 <= k < |spans| && spans[k].start <= i < spans[k].end;
    assert IsMatch(lens, spans[0]) && i <= spans[0].start;
    assert k == 0;
    assert spans[0] == Span(i, i + n);
    var rest := spans[1..];
    TailMatches(lens, i, spans);
    assert Ordered(rest) by {
      forall a, b | 0 <= a < b < |rest|
        ensures rest[a].end <= rest[b].start
      {
        assert rest[a] == spans[a + 1] && rest[b] == spans[b + 1];
      }
    }
    TailCovers(lens, i, spans);
  }

  lemma TailMatches(lens: seq<nat>, i: nat, spans: seq<Span>)
    requires Fit(lens) && i < |lens| && lens[i] > 0
    requires Matches(lens, i, spans) && Ordered(spans)
    requires |spans| > 0 && spans[0] == Span(i, i + lens[i])
    ensures Matches(lens, i + lens[i], spans[1..])
  {
    var rest := spans[1..];
    forall m | 0 <= m < |rest|
      ensures i + lens[i] <= rest[m].start && IsMatch(lens, rest[m])
    {
      assert rest[m] == spans[m + 1];
      assert spans[0].end <= spans[m + 1].start;
    }
  }

  lemma TailCovers(lens: seq<nat>, i: nat, spans: seq<Span>)
    requires Fit(lens) && i < |lens| && lens[i] > 0
    requires Covers(lens, i, spans)
    requires |spans| > 0 && spans[0] == Span(i, i + lens[i])
    ensures Covers(lens, i + lens[i], spans[1..])
  {
    var rest := spans[1..];
    forall j | i + lens[i] <= j < |lens| && lens[j] > 0
      ensures Covered(rest, j)
    {
      assert Covered(spans, j);
      var m :| 0 <= m < |spans| && spans[m].start <= j < spans[m].end;
      assert m > 0;
      assert rest[m - 1] == spans[m];
    }
  }

  /** A reading from a position where nothing matches is a reading from the next one. */
  lemma ScannedTail(lens: seq<nat>, i: nat, spans: seq<Span>)
    requires Fit(lens) && i < |lens| && lens[i] == 0 && Scanned(lens, i, spans)
    ensures Scanned(lens, i + 1, spans)
  {
    forall m | 0 <= m < |spans|
      ensures i + 1 <= spans[m].start
    {
      assert IsMatch(lens, spans[m]);
    }
  }

  /**
   * `re.finditer` returns exactly the left-to-right, non-overlapping reading
   * of the text: the one list of matches that is ordered and leaves no match
   * position uncovered.
   */
  lemma FindIterIff(p: Pattern, s: string, spans: seq<Span>)
    ensures Scanned(Lengths(p, s), 0, spans) <==> spans == FindIter(p, s)
  {
    ScanIsScanned(Lengths(p, s), 0);
    if Scanned(Lengths(p, s), 0, spans) {
      ScanUnique(Lengths(p, s), 0, spans);
    }
  }

  /** Every span `re.finditer` yields for the URL pattern is a URL as described by `IsUrl`. */
  lemma FoundUrls(s: string, k: nat)
    requires k < |FindIter(UrlPattern, s)|
    ensures IsUrl(s, FindIter(UrlPattern, s)[k].start, FindIter(UrlPattern, s)[k].end)
  {
    var lens := Lengths(UrlPattern, s);
    ScanIsScanned(lens, 0);
    var sp := FindIter(UrlPattern, s)[k];
    assert IsMatch(lens, sp);
    UrlMatchIff(s, sp.start, sp.end);
  }

  /** Every span `re.finditer` yields for the handle pattern is a handle as described by `IsHandle`. */
  lemma FoundHandles(s: string, k: nat)
    requires k < |FindIter(HandlePattern, s)|
    ensures IsHandle(s, FindIter(HandlePattern, s)[k].start, FindIter(HandlePattern, s)[k].end)
  {
    var lens := Lengths(HandlePattern, s);
    ScanIsScanned(lens, 0);
    var sp := FindIter(HandlePattern, s)[k];
    assert IsMatch(lens, sp);
    HandleMatchIff(s, sp.start, sp.end);
  }

  /** A text with no match position yields no match. */
  lemma NothingFound(p: Pattern, s: string)
    requires forall j :: 0 <= j < |s| ==> MatchLen(p, s, j) == 0
    ensures FindIter(p, s) == []
  {
    var lens := Lengths(p, s);
    assert forall j :: 0 <= j < |lens| ==> lens[j] == 0;
    FindIterIff(p, s, []);
  }

  /** A text without `@` holds no handle. */
  lemma NoAtNoHandle(s: string)
    requires '@' !in s
    ensures FindIter(HandlePattern, s) == []
  {
    forall j | 0 <= j < |s|
      ensures MatchLen(HandlePattern, s, j) == 0
    {
      assert s[j] in s;
    }
    NothingFound(HandlePattern, s);
  }
}
