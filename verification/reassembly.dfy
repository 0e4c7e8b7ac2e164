/**
 * Reassembly of a link-bearing chunk before it is posted (main_backup.py and
 * main_test.py `main`): every URL is cut out of the chunk, what is left is
 * stripped, and the URLs come back at the end, after a blank line, one per
 * line, in the order they were found.
 */
module Reassembly {
  import opened Text
  import opened Patterns

  /** A chunk as `re.sub` and `re.findall` read it: URL matches and the characters between them. */
  datatype Piece = Plain(c: char) | Url(url: string)

  /**
   * The pieces of `s` from index `i`, over the URL match length at each
   * index: the same left-to-right, non-overlapping search as `Scan`.
   */
  function Pieces(lens: seq<nat>, s: string, i: nat): seq<Piece>
    requires |lens| == |s| && Fit(lens) && i <= |s|
    decreases |s| - i
  {
    if i == |s| then []
    else if lens[i] > 0 then [Url(s[i..i + lens[i]])] + Pieces(lens, s, i + lens[i])
    else [Plain(s[i])] + Pieces(lens, s, i + 1)
  }

  /** The text the pieces spell. */
  function Render(ps: seq<Piece>): string
    decreases |ps|
  {
    if ps == [] then ""
    else (match ps[0] case Plain(c) => [c] case Url(u) => u) + Render(ps[1..])
  }

  /** The characters between the matches. */
  function PlainText(ps: seq<Piece>): string
    decreases |ps|
  {
    if ps == [] then ""
    else (match ps[0] case Plain(c) => [c] case Url(_) => "") + PlainText(ps[1..])
  }

  /** The matched URLs, left to right. */
  function Links(ps: seq<Piece>): seq<string>
    decreases |ps|
  {
    if ps == [] then []
    else (match ps[0] case Plain(_) => [] case Url(u) => [u]) + Links(ps[1..])
  }

  function ChunkPieces(chunk: string): seq<Piece> {
    Pieces(Lengths(UrlPattern, chunk), chunk, 0)
  }

  /** `re.findall(URL pattern, chunk)` */
  function FindAllUrls(chunk: string): seq<string> {
    Links(ChunkPieces(chunk))
  }

  /** `re.sub(URL pattern, '', chunk)` */
  function RemoveUrls(chunk: string): string {
    PlainText(ChunkPieces(chunk))
  }

  /** The text posted for one chunk. */
  function Reassemble(chunk: string): string {
    var urls := FindAllUrls(chunk);
    Strip(RemoveUrls(chunk)) + (if urls != [] then "\n\n" + Join(urls, "\n") else "")
  }

  /** The matched texts of a list of spans. */
  function Texts(s: string, spans: seq<Span>): seq<string>
    requires forall k :: 0 <= k < |spans| ==> spans[k].start <= spans[k].end <= |s|
    decreases |spans|
  {
    if spans == [] then [] else [s[spans[0].start..spans[0].end]] + Texts(s, spans[1..])
  }

  // ---------------------------------------------------------------------------
  // Properties

  /** Cutting the chunk into pieces loses nothing: the pieces spell the chunk. */
  lemma {:induction false} PiecesRender(lens: seq<nat>, s: string, i: nat)
    requires |lens| == |s| && Fit(lens) && i <= |s|
    ensures Render(Pieces(lens, s, i)) == s[i..]
    decreases |s| - i
  {
    if i < |s| {
      if lens[i] > 0 {
        PiecesRender(lens, s, i + lens[i]);
        assert s[i..] == s[i..i + lens[i]] + s[i + lens[i]..];
      } else {
        PiecesRender(lens, s, i + 1);
        assert s[i..] == [s[i]] + s[i + 1..];
      }
    }
  }

  /** Every span the search finds lies within the text. */
  lemma ScanInText(lens: seq<nat>, i: nat)
    requires Fit(lens) && i <= |lens|
    ensures forall k :: 0 <= k < |Scan(lens, i)| ==> Scan(lens, i)[k].start <= Scan(lens, i)[k].end <= |lens|
  {
    ScanIsScanned(lens, i);
  }

  /** The URL pieces are exactly the matches `re.finditer` reports, in order. */
  lemma {:induction false} PiecesLinks(lens: seq<nat>, s: string, i: nat)
    requires |lens| == |s| && Fit(lens) && i <= |s|
    ensures forall k :: 0 <= k < |Scan(lens, i)| ==> Scan(lens, i)[k].start <= Scan(lens, i)[k].end <= |s|
    ensures Links(Pieces(lens, s, i)) == Texts(s, Scan(lens, i))
    decreases |s| - i
  {
    ScanInText(lens, i);
    if i < |s| {
      if lens[i] > 0 {
        var j := i + lens[i];
        PiecesLinks(lens, s, j);
        var rest := Scan(lens, j);
        assert Scan(lens, i) == [Span(i, j)] + rest;
        assert ([Span(i, j)] + rest)[1..] == rest;
        assert Links(Pieces(lens, s, i)) == [s[i..j]] + Links(Pieces(lens, s, j));
      } else {
        PiecesLinks(lens, s, i + 1);
      }
    }
  }

  /** Where nothing matches, every character is kept and no URL is found. */
  lemma {:induction false} PiecesPlain(lens: seq<nat>, s: string, i: nat)
    requires |lens| == |s| && Fit(lens) && i <= |s|
    requires forall j :: i <= j < |s| ==> lens[j] == 0
    ensures PlainText(Pieces(lens, s, i)) == s[i..] && Links(Pieces(lens, s, i)) == []
    decreases |s| - i
  {
    if i < |s| {
      PiecesPlain(lens, s, i + 1);
      assert s[i..] == [s[i]] + s[i + 1..];
    }
  }

  /** The URLs and the rest of the chunk together spell the whole chunk. */
  lemma ChunkLossless(chunk: string)
    ensures Render(ChunkPieces(chunk)) == chunk
  {
    PiecesRender(Lengths(UrlPattern, chunk), chunk, 0);
  }

  /** `re.findall` returns the texts of the matches `re.finditer` yields, each a URL. */
  lemma FoundAllUrls(chunk: string)
    ensures FindAllUrls(chunk) == Texts(chunk, FindIter(UrlPattern, chunk))
    ensures |FindAllUrls(chunk)| == |FindIter(UrlPattern, chunk)|
  {
    PiecesLinks(Lengths(UrlPattern, chunk), chunk, 0);
    TextsLength(chunk, FindIter(UrlPattern, chunk));
  }

  lemma {:induction false} TextsLength(s: string, spans: seq<Span>)
    requires forall k :: 0 <= k < |spans| ==> spans[k].start <= spans[k].end <= |s|
    ensures |Texts(s, spans)| == |spans|
    decreases |spans|
  {
    if spans != [] {
      TextsLength(s, spans[1..]);
    }
  }

  lemma {:induction false} TextsAt(s: string, spans: seq<Span>, k: nat)
    requires forall k :: 0 <= k < |spans| ==> spans[k].start <= spans[k].end <= |s|
    requires k < |spans|
    ensures |Texts(s, spans)| == |spans|
    ensures Texts(s, spans)[k] == s[spans[k].start..spans[k].end]
    decreases |spans|
  {
    TextsLength(s, spans);
    if k > 0 {
      TextsAt(s, spans[1..], k - 1);
    }
  }

  /** Each re-appended URL is a maximal URL match of the chunk and holds no line break. */
  lemma UrlLine(chunk: string, k: nat)
    requires k < |FindIter(UrlPattern, chunk)|
    ensures |FindAllUrls(chunk)| == |FindIter(UrlPattern, chunk)|
    ensures var sp := FindIter(UrlPattern, chunk)[k];
      && FindAllUrls(chunk)[k] == chunk[sp.start..sp.end]
      && IsUrl(chunk, sp.start, sp.end)
      && '\n' !in FindAllUrls(chunk)[k]
  {
    var spans := FindIter(UrlPattern, chunk);
    FoundAllUrls(chunk);
    TextsAt(chunk, spans, k);
    FoundUrls(chunk, k);
    var u := chunk[spans[k].start..spans[k].end];
    forall j | 0 <= j < |u|
      ensures u[j] != '\n'
    {
      assert u[j] == chunk[spans[k].start + j];
    }
  }

  /** A chunk without a URL is published as `chunk.strip()`. */
  lemma UrlFreeChunk(chunk: string)
    requires FindIter(UrlPattern, chunk) == []
    ensures FindAllUrls(chunk) == [] && Reassemble(chunk) == Strip(chunk)
  {
    var lens := Lengths(UrlPattern, chunk);
    ScanIsScanned(lens, 0);
    forall j | 0 <= j < |chunk|
      ensures lens[j] == 0
    {
      assert !Covered(Scan(lens, 0), j);
    }
    PiecesPlain(lens, chunk, 0);
    assert chunk[0..] == chunk;
  }

  /**
   * A chunk with URLs: the post ends with them, after a blank line, one per
   * line in the order found, and splitting that tail at line breaks gives the
   * list back.
   */
  lemma UrlsReadBack(chunk: string)
    requires FindIter(UrlPattern, chunk) != []
    ensures var urls := FindAllUrls(chunk);
      && urls != []
      && EndsWith(Reassemble(chunk), "\n\n" + Join(urls, "\n"))
      && Split(Join(urls, "\n"), "\n") == urls
  {
    var urls := FindAllUrls(chunk);
    FoundAllUrls(chunk);
    forall k | 0 <= k < |urls|
      ensures '\n' !in urls[k]
    {
      UrlLine(chunk, k);
    }
    SplitJoinChar(urls, '\n');
  }
}
