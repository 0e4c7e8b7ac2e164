/**
 * Rich-text facets of a post (`extract_facets`): link facets for URLs and,
 * in main_test.py, mention facets for `@….bsky.social` handles whose DID the
 * resolver returns. A facet addresses the post text by UTF-8 byte offsets.
 */
module Facets {
  import opened Wrappers
  import opened Text
  import opened Patterns
  import Utf8

  /** The characters the first `re.sub` replaces by a plain space. */
  predicate IsOddSpace(c: char) {
    c == '\U{A0}' || ('\U{2000}' <= c <= '\U{200B}') || c == '\U{202F}' || c == '\U{205F}' || c == '\U{3000}'
  }

  /** `：`, which `text.replace('：', ':')` turns into an ASCII colon. */
  const FullwidthColon: char := '\U{FF1A}'

  function NormalizeChar(c: char): char {
    if IsOddSpace(c) then ' ' else if c == FullwidthColon then ':' else c
  }

  /** The local copy `extract_facets` scans: odd spaces and full-width colons made plain. */
  function Normalize(s: string): string {
    seq(|s|, k requires 0 <= k < |s| => NormalizeChar(s[k]))
  }

  /** A text holding none of the characters normalization replaces. */
  predicate Untouched(s: string) {
    forall k :: 0 <= k < |s| ==> !IsOddSpace(s[k]) && s[k] != FullwidthColon
  }

  /** Normalization changes a text exactly when the text holds a replaced character. */
  lemma NormalizeFixedIff(s: string)
    ensures Normalize(s) == s <==> Untouched(s)
  {
    if Normalize(s) == s {
      forall k | 0 <= k < |s|
        ensures !IsOddSpace(s[k]) && s[k] != FullwidthColon
      {
        assert Normalize(s)[k] == s[k];
      }
    }
  }

  /** Normalizing twice is normalizing once. */
  lemma NormalizeIdempotent(s: string)
    ensures Normalize(Normalize(s)) == Normalize(s)
  {
    NormalizeFixedIff(Normalize(s));
  }

  // ---------------------------------------------------------------------------
  // Facets

  datatype Feature = Link(uri: string) | Mention(did: string)

  datatype Facet = Facet(byteStart: nat, byteEnd: nat, feature: Feature)

  /** `len(t[:start].encode("utf-8"))` and `len(t[:end].encode("utf-8"))` of a match. */
  function At(t: string, sp: Span, feature: Feature): Facet
    requires sp.start <= sp.end <= |t|
  {
    Facet(Utf8.Len(t[..sp.start]), Utf8.Len(t[..sp.end]), feature)
  }

  predicate InText(t: string, spans: seq<Span>) {
    forall k :: 0 <= k < |spans| ==> spans[k].start < spans[k].end <= |t|
  }

  /** One link facet per URL match, in order; `uri` is the matched text. */
  function LinkFacets(t: string, spans: seq<Span>): seq<Facet>
    requires InText(t, spans)
    decreases |spans|
  {
    if spans == [] then []
    else [At(t, spans[0], Link(t[spans[0].start..spans[0].end]))] + LinkFacets(t, spans[1..])
  }

  /**
   * One mention facet per handle match the resolver turns into a DID;
   * `if not did: continue` skips both `None` and the empty string. The handle
   * is group 1, the match without its `@`.
   */
  function MentionFacets(t: string, spans: seq<Span>, resolve: string -> Option<string>): seq<Facet>
    requires InText(t, spans)
    decreases |spans|
  {
    if spans == [] then []
    else
      var sp := spans[0];
      var r := resolve(t[sp.start + 1..sp.end]);
      (if r.Some? && r.value != "" then [At(t, sp, Mention(r.value))] else [])
      + MentionFacets(t, spans[1..], resolve)
  }

  /**
   * `extract_facets(text)`: the URL facets, then (main_test.py only, when
   * `mentions` holds) the handle facets, all computed on the normalized copy.
   */
  function ExtractFacets(text: string, resolve: string -> Option<string>, mentions: bool): seq<Facet>
  {
    var t := Normalize(text);
    LinkFacets(t, FindIter(UrlPattern, t))
    + (if mentions then MentionFacets(t, FindIter(HandlePattern, t), resolve) else [])
  }

  /** `resolve_handle_to_did` as written: the debug line's NameError is caught, so every lookup gives `None`. */
  function ResolveAsWritten(lookup: string -> Option<string>): string -> Option<string> {
    h => None
  }

  /** `resolve_handle_to_did` as intended: the DID the identity service answers with, if any. */
  function Resolve(lookup: string -> Option<string>): string -> Option<string> {
    lookup
  }

  // ---------------------------------------------------------------------------
  // Link facets

  lemma {:induction false} LinkFacetsAt(t: string, spans: seq<Span>, k: nat)
    requires InText(t, spans) && k < |spans|
    ensures |LinkFacets(t, spans)| == |spans|
    ensures LinkFacets(t, spans)[k] == At(t, spans[k], Link(t[spans[k].start..spans[k].end]))
    decreases |spans|
  {
    LinkFacetsLength(t, spans);
    if k > 0 {
      LinkFacetsAt(t, spans[1..], k - 1);
    }
  }

  lemma {:induction false} LinkFacetsLength(t: string, spans: seq<Span>)
    requires InText(t, spans)
    ensures |LinkFacets(t, spans)| == |spans|
    decreases |spans|
  {
    if spans != [] {
      LinkFacetsLength(t, spans[1..]);
    }
  }

  /** A facet of a match: start before end, within the text's bytes, starting on a character boundary. */
  lemma AtBounds(t: string, sp: Span, feature: Feature)
    requires sp.start < sp.end <= |t|
    ensures var f := At(t, sp, feature);
      && f.byteStart < f.byteEnd <= Utf8.Len(t) == |Utf8.Encode(t)|
      && Utf8.IsLead(Utf8.Encode(t)[f.byteStart])
  {
    Utf8.PrefixLenStrict(t, sp.start, sp.end);
    Utf8.PrefixLenMono(t, sp.end, |t|);
    assert t[..|t|] == t;
    Utf8.PrefixOffsetIsBoundary(t, sp.start);
    Utf8.EncodeLength(t);
  }

  /**
   * Each link facet names a URL as matched in the normalized copy, starts on a
   * character boundary and has `byteStart < byteEnd <= utf8Len(t)`.
   */
  lemma LinkFacetSpec(text: string, k: nat)
    requires k < |FindIter(UrlPattern, Normalize(text))|
    ensures |LinkFacets(Normalize(text), FindIter(UrlPattern, Normalize(text)))| == |FindIter(UrlPattern, Normalize(text))|
    ensures var t := Normalize(text);
      var sp := FindIter(UrlPattern, t)[k];
      var f := LinkFacets(t, FindIter(UrlPattern, t))[k];
      && f.feature == Link(t[sp.start..sp.end])
      && IsUrl(t, sp.start, sp.end)
      && f.byteStart < f.byteEnd <= Utf8.Len(t) == |Utf8.Encode(t)|
      && Utf8.IsLead(Utf8.Encode(t)[f.byteStart])
  {
    var t := Normalize(text);
    var spans := FindIter(UrlPattern, t);
    LinkFacetsAt(t, spans, k);
    AtBounds(t, spans[k], Link(t[spans[k].start..spans[k].end]));
    FoundUrls(t, k);
  }

  /** Link facets come left to right and do not overlap. */
  lemma LinkFacetsOrdered(text: string, a: nat, b: nat)
    requires a < b < |FindIter(UrlPattern, Normalize(text))|
    ensures |LinkFacets(Normalize(text), FindIter(UrlPattern, Normalize(text)))| == |FindIter(UrlPattern, Normalize(text))|
    ensures var fs := LinkFacets(Normalize(text), FindIter(UrlPattern, Normalize(text)));
      fs[a].byteEnd <= fs[b].byteStart
  {
    var t := Normalize(text);
    var spans := FindIter(UrlPattern, t);
    LinkFacetsAt(t, spans, a);
    LinkFacetsAt(t, spans, b);
    ScanIsScanned(Lengths(UrlPattern, t), 0);
    assert Ordered(spans);
    assert spans[a].end <= spans[b].start;
    Utf8.PrefixLenMono(t, spans[a].end, spans[b].start);
  }

  // ---------------------------------------------------------------------------
  // Mention facets

  /** Every mention facet comes from a handle match whose handle resolved to that DID. */
  lemma {:induction false} MentionFacetsSound(t: string, spans: seq<Span>, resolve: string -> Option<string>, k: nat)
    requires InText(t, spans) && k < |MentionFacets(t, spans, resolve)|
    ensures exists j :: 0 <= j < |spans| && MentionFrom(t, spans[j], resolve, MentionFacets(t, spans, resolve)[k])
    decreases |spans|
  {
    var sp := spans[0];
    var r := resolve(t[sp.start + 1..sp.end]);
    var head := if r.Some? && r.value != "" then [At(t, sp, Mention(r.value))] else [];
    var rest := MentionFacets(t, spans[1..], resolve);
    assert MentionFacets(t, spans, resolve) == head + rest;
    if k < |head| {
      assert MentionFrom(t, spans[0], resolve, MentionFacets(t, spans, resolve)[k]);
    } else {
      MentionFacetsSound(t, spans[1..], resolve, k - |head|);
      var j :| 0 <= j < |spans[1..]| && MentionFrom(t, spans[1..][j], resolve, rest[k - |head|]);
      assert spans[1..][j] == spans[j + 1];
    }
  }

  /** A facet for handle match `sp`: its offsets, and the non-empty DID the resolver gave for the handle. */
  predicate MentionFrom(t: string, sp: Span, resolve: string -> Option<string>, f: Facet)
    requires sp.start < sp.end <= |t|
  {
    var r := resolve(t[sp.start + 1..sp.end]);
    r.Some? && r.value != "" && f == At(t, sp, Mention(r.value))
  }

  /** Every handle match whose handle resolves to a non-empty DID gets its facet. */
  lemma {:induction false} MentionFacetsComplete(t: string, spans: seq<Span>, resolve: string -> Option<string>, j: nat)
    requires InText(t, spans) && j < |spans|
    requires var r := resolve(t[spans[j].start + 1..spans[j].end]); r.Some? && r.value != ""
    ensures At(t, spans[j], Mention(resolve(t[spans[j].start + 1..spans[j].end]).value)) in MentionFacets(t, spans, resolve)
    decreases |spans|
  {
    var rest := MentionFacets(t, spans[1..], resolve);
    MentionFacetsCons(t, spans, resolve);
    if j > 0 {
      assert spans[1..][j - 1] == spans[j];
      MentionFacetsComplete(t, spans[1..], resolve, j - 1);
    }
  }

  /** Unfolding one match: its facet, if the handle resolves, ahead of the rest. */
  lemma MentionFacetsCons(t: string, spans: seq<Span>, resolve: string -> Option<string>)
    requires InText(t, spans) && spans != []
    ensures var r := resolve(t[spans[0].start + 1..spans[0].end]);
      MentionFacets(t, spans, resolve)
      == (if r.Some? && r.value != "" then [At(t, spans[0], Mention(r.value))] else [])
      + MentionFacets(t, spans[1..], resolve)
  {
  }

  /** A resolver that never answers gives no mention facets. */
  lemma {:induction false} MentionFacetsNone(t: string, spans: seq<Span>, resolve: string -> Option<string>)
    requires InText(t, spans)
    requires forall k :: 0 <= k < |spans| ==> resolve(t[spans[k].start + 1..spans[k].end]).None?
    ensures MentionFacets(t, spans, resolve) == []
    decreases |spans|
  {
    if spans != [] {
      assert forall k :: 0 <= k < |spans[1..]| ==> spans[1..][k] == spans[k + 1];
      MentionFacetsNone(t, spans[1..], resolve);
    }
  }

  /**
   * As written, main_test.py publishes no mention facet, whatever the text
   * and whatever the identity service would answer: the facets are the link
   * facets alone, as in main_backup.py.
   */
  lemma NoMentionsAsWritten(text: string, lookup: string -> Option<string>)
    ensures ExtractFacets(text, ResolveAsWritten(lookup), true) == ExtractFacets(text, ResolveAsWritten(lookup), false)
  {
    var t := Normalize(text);
    MentionFacetsNone(t, FindIter(HandlePattern, t), ResolveAsWritten(lookup));
  }

  /**
   * With the resolver doing its job, a handle the identity service resolves to
   * a non-empty DID gets a mention facet carrying that DID and the handle's
   * byte offsets.
   */
  lemma MentionsResolved(text: string, lookup: string -> Option<string>, j: nat)
    requires var t := Normalize(text);
      var spans := FindIter(HandlePattern, t);
      && j < |spans|
      && var r := lookup(t[spans[j].start + 1..spans[j].end]); r.Some? && r.value != ""
    ensures var t := Normalize(text);
      var sp := FindIter(HandlePattern, t)[j];
      var did := lookup(t[sp.start + 1..sp.end]).value;
      IsHandle(t, sp.start, sp.end) && At(t, sp, Mention(did)) in ExtractFacets(text, Resolve(lookup), true)
  {
    var t := Normalize(text);
    var spans := FindIter(HandlePattern, t);
    FoundHandles(t, j);
    MentionFacetsComplete(t, spans, Resolve(lookup), j);
    var ms := MentionFacets(t, spans, Resolve(lookup));
    var links := LinkFacets(t, FindIter(UrlPattern, t));
    assert ExtractFacets(text, Resolve(lookup), true) == links + ms;
  }

  // ---------------------------------------------------------------------------
  // Offsets against the published text

  /**
   * The facets as intended: found on the normalized copy (normalization
   * keeps every character's index) but measured in the text that is
   * published.
   */
  function ExtractFacetsPublished(text: string, resolve: string -> Option<string>, mentions: bool): seq<Facet>
  {
    var t := Normalize(text);
    LinkFacets(text, FindIter(UrlPattern, t))
    + (if mentions then MentionFacets(text, FindIter(HandlePattern, t), resolve) else [])
  }

  /** The bytes a facet measured in the published text covers are exactly the matched characters. */
  lemma PublishedFacetCovers(text: string, k: nat)
    requires k < |FindIter(UrlPattern, Normalize(text))|
    ensures |LinkFacets(text, FindIter(UrlPattern, Normalize(text)))| == |FindIter(UrlPattern, Normalize(text))|
    ensures var sp := FindIter(UrlPattern, Normalize(text))[k];
      var f := LinkFacets(text, FindIter(UrlPattern, Normalize(text)))[k];
      && f.byteStart < f.byteEnd <= |Utf8.Encode(text)|
      && Utf8.IsLead(Utf8.Encode(text)[f.byteStart])
      && Utf8.Encode(text)[f.byteStart..f.byteEnd] == Utf8.Encode(text[sp.start..sp.end])
      && f.feature == Link(text[sp.start..sp.end])
  {
    var spans := FindIter(UrlPattern, Normalize(text));
    var sp := spans[k];
    LinkFacetsAt(text, spans, k);
    AtBounds(text, sp, Link(text[sp.start..sp.end]));
    Utf8.EncodeSlice(text, sp.start, sp.end);
  }

  /** For a text normalization leaves alone, the facets as written are the facets as intended. */
  lemma UntouchedAgree(text: string, resolve: string -> Option<string>, mentions: bool)
    requires Untouched(text)
    ensures ExtractFacets(text, resolve, mentions) == ExtractFacetsPublished(text, resolve, mentions)
  {
    NormalizeFixedIff(text);
  }

  /** The full-width space of the example becomes a plain space. */
  lemma ExampleNormalized()
    ensures Normalize("\U{3000}https://a") == " https://a"
  {
  }

  /** The only URL match in `" https://a"` is characters 1 to 10. */
  lemma ExampleSpans()
    ensures FindIter(UrlPattern, " https://a") == [Span(1, 10)]
  {
    var t := " https://a";
    var lens := Lengths(UrlPattern, t);
    assert lens[0] == 0 by {
      assert !OccursAt(t, "https://", 0) by { assert t[0..8][0] == ' '; }
      assert !OccursAt(t, "http://", 0) by { assert t[0..7][0] == ' '; }
    }
    assert lens[1] == 9 by {
      assert t[1..9] == "https://";
      assert UrlRun(t, 9) == 1 + UrlRun(t, 10);
    }
    assert Scan(lens, 1) == [Span(1, 10)] + Scan(lens, 10);
  }

  /** Byte lengths of the example's prefixes, ASCII and with the full-width space. */
  lemma ExampleLens()
    ensures Utf8.Len(" ") == 1 && Utf8.Len(" https://a") == 10
    ensures Utf8.Len("\U{3000}") == 3 && Utf8.Len("\U{3000}https://a") == 12
  {
    AsciiLen(" ");
    AsciiLen(" https://a");
    AsciiLen("https://a");
    assert "\U{3000}"[..0] == [];
    Utf8.LenAppend("\U{3000}", "https://a");
    assert "\U{3000}" + "https://a" == "\U{3000}https://a";
  }

  /** The byte at offset 1 of the example's encoding is inside the full-width space. */
  lemma ExampleByte()
    ensures |Utf8.Encode("\U{3000}https://a")| > 1
    ensures Utf8.IsContinuation(Utf8.Encode("\U{3000}https://a")[1])
  {
    var text := "\U{3000}https://a";
    assert text == text[..1] + text[1..];
    assert Utf8.Encode(text[..1]) == Utf8.EncodeChar('\U{3000}') by { assert text[..1][..0] == []; }
    Utf8.EncodeAppend(text[..1], text[1..]);
  }

  /**
   * A full-width space before a URL: the facet as written starts at byte 1,
   * which inside the published text is the second byte of U+3000; the
   * intended offset is 3.
   */
  lemma MisalignedExample()
    ensures var text := "\U{3000}https://a";
      && ExtractFacets(text, h => None, false) == [Facet(1, 10, Link("https://a"))]
      && Utf8.IsContinuation(Utf8.Encode(text)[1])
      && ExtractFacetsPublished(text, h => None, false) == [Facet(3, 12, Link("https://a"))]
  {
    var text := "\U{3000}https://a";
    var t := " https://a";
    ExampleNormalized();
    ExampleSpans();
    ExampleLens();
    ExampleByte();
    assert t[..1] == " " && t[..10] == t && t[1..10] == "https://a";
    assert text[..1] == "\U{3000}" && text[..10] == text && text[1..10] == "https://a";
    assert LinkFacets(t, [Span(1, 10)]) == [At(t, Span(1, 10), Link("https://a"))];
    assert LinkFacets(text, [Span(1, 10)]) == [At(text, Span(1, 10), Link("https://a"))];
  }

  /** Every character below U+0080 is one byte. */
  lemma {:induction false} AsciiLen(s: string)
    requires forall k :: 0 <= k < |s| ==> s[k] as int < 0x80
    ensures Utf8.Len(s) == |s|
    decreases |s|
  {
    if s != [] {
      AsciiLen(s[..|s| - 1]);
    }
  }
}
