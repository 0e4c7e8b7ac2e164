/**
 * Document segmentation of the auto-post run: a work file is split on `---`
 * into head, body and closing, and the body becomes an ordered list of text
 * blocks and image blocks (`split_lines_with_images`).
 */
module Segment {
  import opened Text

  const Separator: string := "---"

  /** The three sections of a work document, each already stripped. */
  datatype Document = Document(head: string, body: string, closing: string)

  /**
   * `parts = content.split('---')`; the head is the first part, the body is
   * taken when there are at least two parts, the closing only when there are
   * exactly three.
   */
  function SplitDocument(content: string): Document
  {
    var parts := Split(content, Separator);
    Document(
      Strip(parts[0]),
      if |parts| >= 2 then Strip(parts[1]) else "",
      if |parts| == 3 then Strip(parts[2]) else "")
  }

  /** A section that neither holds `---` nor ends where a `---` could begin across its end. */
  predicate Section(s: string) {
    !Contains(s + "--", Separator)
  }

  lemma SectionHasNoSeparator(s: string)
    requires Section(s)
    ensures !Contains(s, Separator)
  {
    ContainsIff(s, Separator);
    ContainsIff(s + "--", Separator);
    if Contains(s, Separator) {
      var i :| OccursAt(s, Separator, i);
      assert (s + "--")[i..i + 3] == s[i..i + 3];
      assert OccursAt(s + "--", Separator, i);
    }
  }

  /** A document without any separator is all head. */
  lemma HeadOnly(a: string)
    requires !Contains(a, Separator)
    ensures SplitDocument(a) == Document(Strip(a), "", "")
  {
    SplitNoSep(a, Separator);
  }

  /** A section, the separator and separator-free rest split into exactly those two parts. */
  lemma SplitTwoSections(b: string, c: string)
    requires Section(b) && !Contains(c, Separator)
    ensures Split(b + Separator + c, Separator) == [b, c]
  {
    assert Separator[..2] == "--";
    SplitAtFirst(b, Separator, c);
    SplitNoSep(c, Separator);
  }

  /** Head, body and closing separated by two `---` lines come back stripped. */
  lemma ThreeSections(a: string, b: string, c: string)
    requires Section(a) && Section(b) && !Contains(c, Separator)
    ensures SplitDocument(a + "---" + b + "---" + c) == Document(Strip(a), Strip(b), Strip(c))
  {
    assert Separator[..2] == "--";
    var content := a + "---" + b + "---" + c;
    assert content == a + Separator + (b + Separator + c);
    SplitThree(a, b, c);
    DocumentOfParts(content, [a, b, c]);
  }

  lemma SplitThree(a: string, b: string, c: string)
    requires Section(a) && Section(b) && !Contains(c, Separator)
    ensures Split(a + Separator + (b + Separator + c), Separator) == [a, b, c]
  {
    assert Separator[..2] == "--";
    SplitAtFirst(a, Separator, b + Separator + c);
    SplitTwoSections(b, c);
    assert [a] + [b, c] == [a, b, c];
  }

  /** The document read from a known list of parts. */
  lemma DocumentOfParts(content: string, parts: seq<string>)
    requires Split(content, Separator) == parts
    ensures SplitDocument(content) == Document(
      Strip(parts[0]),
      if |parts| >= 2 then Strip(parts[1]) else "",
      if |parts| == 3 then Strip(parts[2]) else "")
  {
  }

  /**
   * A third `---` empties the closing: with four or more parts only the head
   * and the body survive, and everything after the second separator is dropped.
   */
  lemma ExtraSeparatorDropsClosing(a: string, b: string, rest: string)
    requires Section(a) && Section(b) && Contains(rest, Separator)
    ensures SplitDocument(a + "---" + b + "---" + rest) == Document(Strip(a), Strip(b), "")
  {
    assert Separator[..2] == "--";
    var content := a + "---" + b + "---" + rest;
    assert content == a + Separator + (b + Separator + rest);
    SplitAtFirst(a, Separator, b + Separator + rest);
    SplitAtFirst(b, Separator, rest);
    SplitOfContaining(rest);
    var parts := Split(content, Separator);
    assert parts == [a] + ([b] + Split(rest, Separator));
    assert |parts| >= 4 && parts[0] == a && parts[1] == b;
  }

  lemma SplitOfContaining(rest: string)
    requires Contains(rest, Separator)
    ensures |Split(rest, Separator)| >= 2
  {
    if |Split(rest, Separator)| == 1 {
      JoinSplit(rest, Separator);
      SplitPiecesLackSep(rest, Separator);
    }
  }

  // ---------------------------------------------------------------------------
  // Blocks

  datatype Block = TextBlock(content: string) | ImageBlock(filename: string)

  const ImageExtensions: seq<string> := ["jpg", "jpeg", "png", "gif", "webp"]

  /** `re.match(r'^(.*\.(jpg|jpeg|png|gif|webp))$', line, re.IGNORECASE)` on a line without '\n'. */
  predicate IsImageName(line: string) {
    exists k :: 0 <= k < |ImageExtensions| && EndsWith(Lower(line), "." + ImageExtensions[k])
  }

  /** A stripped, non-blank line of the body. */
  predicate CleanLine(l: string) {
    l != [] && !IsSpace(l[0]) && !IsSpace(l[|l| - 1]) && '\n' !in l
  }

  /**
   * The scan of `split_lines_with_images`. `buffer` accumulates text lines, each
   * followed by '\n'. The flag selects the flush test: `buffer.strip()` (main_backup.py,
   * main_test.py) when true, plain `buffer` (main.py) when false.
   */
  function BlockScan(lines: seq<string>, blocks: seq<Block>, buffer: string, stripTest: bool): seq<Block>
    decreases |lines|
  {
    if lines == [] then
      (if (if stripTest then Strip(buffer) != "" else buffer != "") then blocks + [TextBlock(Strip(buffer))] else blocks)
    else
      var line := Strip(lines[0]);
      if line == "" then BlockScan(lines[1..], blocks, buffer, stripTest)
      else if IsImageName(line) then
        if (if stripTest then Strip(buffer) != "" else buffer != "") then
          BlockScan(lines[1..], blocks + [TextBlock(Strip(buffer)), ImageBlock(line)], "", stripTest)
        else
          BlockScan(lines[1..], blocks + [ImageBlock(line)], buffer, stripTest)
      else BlockScan(lines[1..], blocks, buffer + line + "\n", stripTest)
  }

  /** `split_lines_with_images(text)` */
  function SplitLinesWithImages(text: string, stripTest: bool): seq<Block>
  {
    BlockScan(SplitLines(text), [], "", stripTest)
  }

  // ---------------------------------------------------------------------------
  // What the block list means

  /** One kept line of the body: a text line or an image file name. */
  datatype Item = Line(text: string) | Image(text: string)

  /** The body lines the scan keeps, stripped and classified, in order. */
  function Kept(lines: seq<string>): seq<Item>
    decreases |lines|
  {
    if lines == [] then []
    else
      var line := Strip(lines[0]);
      (if line == "" then [] else if IsImageName(line) then [Image(line)] else [Line(line)])
      + Kept(lines[1..])
  }

  /**
   * Reference grouping of kept items: runs of text lines become one text block
   * (joined by '\n'), each image its own block. `pending` is the current run.
   */
  function Group(pending: seq<string>, items: seq<Item>): seq<Block>
    decreases |items|
  {
    if items == [] then Flush(pending)
    else match items[0]
      case Line(l) => Group(pending + [l], items[1..])
      case Image(f) => Flush(pending) + [ImageBlock(f)] + Group([], items[1..])
  }

  function Flush(pending: seq<string>): seq<Block> {
    if pending == [] then [] else [TextBlock(Join(pending, "\n"))]
  }

  function LineItems(lines: seq<string>): seq<Item>
    decreases |lines|
  {
    if lines == [] then [] else [Line(lines[0])] + LineItems(lines[1..])
  }

  /** A block list read back as items: a text block contributes its lines. */
  function Expand(blocks: seq<Block>): seq<Item>
    decreases |blocks|
  {
    if blocks == [] then []
    else
      (match blocks[0]
       case TextBlock(c) => LineItems(SplitLines(c))
       case ImageBlock(f) => [Image(f)])
      + Expand(blocks[1..])
  }

  /** No text block is empty and every text block is followed by an image or ends the list. */
  predicate WellFormed(blocks: seq<Block>) {
    && (forall k :: 0 <= k < |blocks| && blocks[k].TextBlock? ==> blocks[k].content != "")
    && (forall k :: 0 <= k < |blocks| - 1 && blocks[k].TextBlock? ==> blocks[k + 1].ImageBlock?)
  }

  predicate AllClean(lines: seq<string>) {
    forall k :: 0 <= k < |lines| ==> CleanLine(lines[k])
  }

  /** Every item is a clean line, and every image item names an image file. */
  predicate CleanItems(items: seq<Item>) {
    && (forall k :: 0 <= k < |items| ==> CleanLine(items[k].text))
    && (forall k :: 0 <= k < |items| && items[k].Image? ==> IsImageName(items[k].text))
  }

  // ---------------------------------------------------------------------------
  // The scan computes the reference grouping

  /** The buffer of clean lines strips to the lines joined by '\n'. */
  lemma StripBuffer(lines: seq<string>)
    requires |lines| >= 1 && AllClean(lines)
    ensures Strip(Terminated(lines)) == Join(lines, "\n")
    ensures Join(lines, "\n") != ""
  {
    var j := Join(lines, "\n");
    TerminatedJoin(lines);
    JoinEnds(lines);
    TrimStartOfClean(j + "\n");
    TrimEndAppendSpace(j, '\n');
    TrimEndOfClean(j);
  }

  /** Clean lines joined by '\n' begin and end with a non-space. */
  lemma JoinEnds(lines: seq<string>)
    requires |lines| >= 1 && AllClean(lines)
    ensures var j := Join(lines, "\n"); j != "" && !IsSpace(j[0]) && !IsSpace(j[|j| - 1])
  {
    var j := Join(lines, "\n");
    JoinStartsWithFirst(lines, "\n");
    JoinEndsWithLast(lines, "\n");
    assert j[0] == lines[0][0];
    var last := lines[|lines| - 1];
    assert j[|j| - 1] == last[|last| - 1];
  }

  /** The lines of a flushed run read back from its text block. */
  lemma SplitBuffer(lines: seq<string>)
    requires |lines| >= 1 && AllClean(lines)
    ensures SplitLines(Join(lines, "\n")) == lines
  {
    JoinEnds(lines);
    SplitJoinChar(lines, '\n');
  }

  lemma BufferStart(lines: seq<string>)
    requires AllClean(lines)
    ensures Terminated(lines) == "" <==> lines == []
    ensures lines != [] ==> !IsSpace(Terminated(lines)[0])
  {
  }

  /**
   * Both flush tests (`buffer.strip()` and plain `buffer`) agree on a buffer
   * of clean lines, and a flush emits exactly the pending run.
   */
  lemma FlushTest(buf: seq<string>, stripTest: bool)
    requires AllClean(buf)
    ensures (if stripTest then Strip(Terminated(buf)) != "" else Terminated(buf) != "") <==> buf != []
    ensures buf != [] ==> Strip(Terminated(buf)) == Join(buf, "\n") != ""
    ensures buf != [] ==> SplitLines(Join(buf, "\n")) == buf
  {
    BufferStart(buf);
    if buf != [] {
      StripBuffer(buf);
      SplitBuffer(buf);
    } else {
      assert Strip("") == "";
    }
  }

  lemma StripClean(l: string)
    requires '\n' !in l && Strip(l) != ""
    ensures CleanLine(Strip(l))
  {
    StripEnds(l);
    StripKeepsOut(l, '\n');
  }

  lemma TerminatedSnoc(buf: seq<string>, line: string)
    ensures Terminated(buf + [line]) == Terminated(buf) + line + "\n"
  {
    TerminatedAppend(buf, [line]);
    assert Terminated([line]) == line + "\n" + Terminated([]);
  }

  lemma KeptCons(lines: seq<string>)
    requires lines != []
    ensures var line := Strip(lines[0]);
      Kept(lines) == (if line == "" then [] else if IsImageName(line) then [Image(line)] else [Line(line)]) + Kept(lines[1..])
  {
  }

  lemma Assoc<T>(a: seq<T>, b: seq<T>, c: seq<T>)
    ensures a + (b + c) == a + b + c
  {
  }

  lemma Pair<T>(a: T, b: T)
    ensures [a, b] == [a] + [b]
  {
  }

  lemma UnfoldImage(lines: seq<string>, blocks: seq<Block>, buffer: string, stripTest: bool)
    requires lines != [] && Strip(lines[0]) != "" && IsImageName(Strip(lines[0]))
    ensures var line := Strip(lines[0]);
      BlockScan(lines, blocks, buffer, stripTest)
      == if (if stripTest then Strip(buffer) != "" else buffer != "") then
           BlockScan(lines[1..], blocks + [TextBlock(Strip(buffer)), ImageBlock(line)], "", stripTest)
         else
           BlockScan(lines[1..], blocks + [ImageBlock(line)], buffer, stripTest)
  {
  }

  lemma UnfoldText(lines: seq<string>, blocks: seq<Block>, buffer: string, stripTest: bool)
    requires lines != [] && Strip(lines[0]) != "" && !IsImageName(Strip(lines[0]))
    ensures BlockScan(lines, blocks, buffer, stripTest) == BlockScan(lines[1..], blocks, buffer + Strip(lines[0]) + "\n", stripTest)
  {
  }

  lemma GroupImage(pending: seq<string>, f: string, rest: seq<Item>)
    ensures Group(pending, [Image(f)] + rest) == Flush(pending) + [ImageBlock(f)] + Group([], rest)
  {
    assert ([Image(f)] + rest)[1..] == rest;
  }

  lemma GroupLine(pending: seq<string>, l: string, rest: seq<Item>)
    ensures Group(pending, [Line(l)] + rest) == Group(pending + [l], rest)
  {
    assert ([Line(l)] + rest)[1..] == rest;
  }

  /**
   * The scan, started from any blocks and a buffer of clean lines, appends
   * the reference grouping of the remaining kept lines; which flush test is
   * used makes no difference.
   */
  lemma {:induction false} ScanIsGroup(lines: seq<string>, blocks: seq<Block>, buf: seq<string>, stripTest: bool)
    requires AllClean(buf)
    requires forall k :: 0 <= k < |lines| ==> '\n' !in lines[k]
    ensures BlockScan(lines, blocks, Terminated(buf), stripTest) == blocks + Group(buf, Kept(lines))
    decreases |lines|
  {
    FlushTest(buf, stripTest);
    if lines == [] {
      assert Kept(lines) == [];
      if buf == [] {
        assert BlockScan(lines, blocks, Terminated(buf), stripTest) == blocks;
        assert Group(buf, Kept(lines)) == [];
      } else {
        assert BlockScan(lines, blocks, Terminated(buf), stripTest) == blocks + [TextBlock(Join(buf, "\n"))];
        assert Group(buf, Kept(lines)) == [TextBlock(Join(buf, "\n"))];
      }
    } else {
      var line := Strip(lines[0]);
      var tail := lines[1..];
      KeptCons(lines);
      if line == "" {
        assert BlockScan(lines, blocks, Terminated(buf), stripTest) == BlockScan(tail, blocks, Terminated(buf), stripTest);
        assert Kept(lines) == Kept(tail);
        ScanIsGroup(tail, blocks, buf, stripTest);
      } else if IsImageName(line) {
        ScanImageIsGroup(lines, blocks, buf, stripTest);
      } else {
        StripClean(lines[0]);
        TerminatedSnoc(buf, line);
        UnfoldText(lines, blocks, Terminated(buf), stripTest);
        ScanIsGroup(tail, blocks, buf + [line], stripTest);
        GroupLine(buf, line, Kept(tail));
      }
    }
  }

  lemma {:induction false} ScanImageIsGroup(lines: seq<string>, blocks: seq<Block>, buf: seq<string>, stripTest: bool)
    requires AllClean(buf)
    requires forall k :: 0 <= k < |lines| ==> '\n' !in lines[k]
    requires lines != [] && Strip(lines[0]) != "" && IsImageName(Strip(lines[0]))
    ensures BlockScan(lines, blocks, Terminated(buf), stripTest) == blocks + Group(buf, Kept(lines))
    decreases |lines|, 1
  {
    var line := Strip(lines[0]);
    KeptCons(lines);
    assert Kept(lines) == [Image(line)] + Kept(lines[1..]);
    GroupImage(buf, line, Kept(lines[1..]));
    if buf == [] {
      ScanImageAlone(lines, blocks, stripTest);
    } else {
      ScanImageFlush(lines, blocks, buf, stripTest);
    }
  }

  /** An image line with text pending: the text block is emitted, then the image. */
  lemma {:induction false} ScanImageFlush(lines: seq<string>, blocks: seq<Block>, buf: seq<string>, stripTest: bool)
    requires AllClean(buf) && buf != []
    requires forall k :: 0 <= k < |lines| ==> '\n' !in lines[k]
    requires lines != [] && Strip(lines[0]) != "" && IsImageName(Strip(lines[0]))
    ensures BlockScan(lines, blocks, Terminated(buf), stripTest)
      == blocks + (Flush(buf) + [ImageBlock(Strip(lines[0]))] + Group([], Kept(lines[1..])))
    decreases |lines|, 0
  {
    var line := Strip(lines[0]);
    var tail := lines[1..];
    var kt := Kept(tail);
    FlushTest(buf, stripTest);
    UnfoldImage(lines, blocks, Terminated(buf), stripTest);
    var b' := blocks + [TextBlock(Join(buf, "\n")), ImageBlock(line)];
    assert Terminated([]) == "";
    assert BlockScan(lines, blocks, Terminated(buf), stripTest) == BlockScan(tail, b', Terminated([]), stripTest);
    ScanIsGroup(tail, b', [], stripTest);
    assert Flush(buf) == [TextBlock(Join(buf, "\n"))];
    Pair(TextBlock(Join(buf, "\n")), ImageBlock(line));
    assert Flush(buf) + [ImageBlock(line)] == [TextBlock(Join(buf, "\n")), ImageBlock(line)];
    Assoc(blocks, Flush(buf) + [ImageBlock(line)], Group([], kt));
  }

  /** An image line with nothing pending: only the image is emitted. */
  lemma {:induction false} ScanImageAlone(lines: seq<string>, blocks: seq<Block>, stripTest: bool)
    requires forall k :: 0 <= k < |lines| ==> '\n' !in lines[k]
    requires lines != [] && Strip(lines[0]) != "" && IsImageName(Strip(lines[0]))
    ensures BlockScan(lines, blocks, "", stripTest)
      == blocks + (Flush([]) + [ImageBlock(Strip(lines[0]))] + Group([], Kept(lines[1..])))
    decreases |lines|, 0
  {
    var line := Strip(lines[0]);
    var tail := lines[1..];
    var kt := Kept(tail);
    FlushTest([], stripTest);
    assert Terminated([]) == "";
    UnfoldImage(lines, blocks, "", stripTest);
    var b' := blocks + [ImageBlock(line)];
    assert BlockScan(lines, blocks, "", stripTest) == BlockScan(tail, b', Terminated([]), stripTest);
    ScanIsGroup(tail, b', [], stripTest);
    assert Flush([]) + [ImageBlock(line)] == [ImageBlock(line)];
    Assoc(blocks, [ImageBlock(line)], Group([], kt));
  }

  // ---------------------------------------------------------------------------
  // Consequences for `split_lines_with_images`

  /** The block list is the reference grouping of the kept body lines. */
  lemma SplitLinesWithImagesIsGroup(text: string, stripTest: bool)
    ensures SplitLinesWithImages(text, stripTest) == Group([], Kept(SplitLines(text)))
  {
    SplitLinesRoundTrip(text);
    assert Terminated([]) == "";
    ScanIsGroup(SplitLines(text), [], [], stripTest);
  }

  /**
   * main.py flushes on `if buffer:` where the other variants flush on
   * `if buffer.strip():`; both give the same blocks for every text.
   */
  lemma FlushVariantsAgree(text: string)
    ensures SplitLinesWithImages(text, true) == SplitLinesWithImages(text, false)
  {
    SplitLinesWithImagesIsGroup(text, true);
    SplitLinesWithImagesIsGroup(text, false);
  }

  /** Kept lines are stripped and non-blank, and kept images name image files. */
  lemma {:induction false} KeptClean(lines: seq<string>)
    requires forall k :: 0 <= k < |lines| ==> '\n' !in lines[k]
    ensures CleanItems(Kept(lines))
    decreases |lines|
  {
    if lines != [] {
      var line := Strip(lines[0]);
      KeptCons(lines);
      KeptClean(lines[1..]);
      var head: seq<Item> := if line == "" then [] else if IsImageName(line) then [Image(line)] else [Line(line)];
      if line != "" {
        StripClean(lines[0]);
      }
      assert CleanItems(head);
      CleanItemsAppend(head, Kept(lines[1..]));
    }
  }

  lemma CleanItemsAppend(a: seq<Item>, b: seq<Item>)
    requires CleanItems(a) && CleanItems(b)
    ensures CleanItems(a + b)
  {
    assert forall k :: 0 <= k < |b| ==> (a + b)[|a| + k] == b[k];
  }

  lemma {:induction false} LineItemsSnoc(pending: seq<string>, l: string)
    ensures LineItems(pending + [l]) == LineItems(pending) + [Line(l)]
    decreases |pending|
  {
    if pending == [] {
      assert LineItems([l]) == [Line(l)] + LineItems([]);
    } else {
      assert (pending + [l])[1..] == pending[1..] + [l];
      LineItemsSnoc(pending[1..], l);
    }
  }

  lemma {:induction false} ExpandAppend(a: seq<Block>, b: seq<Block>)
    ensures Expand(a + b) == Expand(a) + Expand(b)
    decreases |a|
  {
    if a == [] {
      assert a + b == b;
    } else {
      assert (a + b)[1..] == a[1..] + b;
      ExpandAppend(a[1..], b);
    }
  }

  /** A flushed run reads back as its lines. */
  lemma ExpandFlush(pending: seq<string>)
    requires AllClean(pending)
    ensures Expand(Flush(pending)) == LineItems(pending)
    ensures WellFormed(Flush(pending))
  {
    if pending != [] {
      StripBuffer(pending);
      SplitBuffer(pending);
      assert Expand([TextBlock(Join(pending, "\n"))]) == LineItems(pending) + Expand([]);
    }
  }

  /** The grouping loses, adds and reorders nothing: its blocks read back as the pending run and the items. */
  lemma {:induction false} GroupExpand(pending: seq<string>, items: seq<Item>)
    requires AllClean(pending) && CleanItems(items)
    ensures Expand(Group(pending, items)) == LineItems(pending) + items
    decreases |items|
  {
    if items == [] {
      ExpandFlush(pending);
    } else {
      var rest := items[1..];
      CleanHead(items);
      assert items == [items[0]] + rest;
      match items[0]
      case Line(l) =>
        GroupExpand(pending + [l], rest);
        ExpandLineStep(pending, l, rest);
      case Image(f) =>
        GroupExpand([], rest);
        ExpandImageStep(pending, f, rest);
    }
  }

  /** The first item is clean and the rest are clean items. */
  lemma CleanHead(items: seq<Item>)
    requires CleanItems(items) && items != []
    ensures CleanLine(items[0].text) && CleanItems(items[1..])
  {
    var rest := items[1..];
    assert forall k :: 0 <= k < |rest| ==> rest[k] == items[k + 1];
  }

  lemma ExpandLineStep(pending: seq<string>, l: string, rest: seq<Item>)
    requires Expand(Group(pending + [l], rest)) == LineItems(pending + [l]) + rest
    ensures Expand(Group(pending, [Line(l)] + rest)) == LineItems(pending) + ([Line(l)] + rest)
  {
    GroupLine(pending, l, rest);
    LineItemsSnoc(pending, l);
  }

  lemma ExpandImageStep(pending: seq<string>, f: string, rest: seq<Item>)
    requires AllClean(pending)
    requires Expand(Group([], rest)) == rest
    ensures Expand(Group(pending, [Image(f)] + rest)) == LineItems(pending) + ([Image(f)] + rest)
  {
    GroupImage(pending, f, rest);
    ExpandFlush(pending);
    ExpandAppend(Flush(pending) + [ImageBlock(f)], Group([], rest));
    ExpandAppend(Flush(pending), [ImageBlock(f)]);
    ExpandImage(f);
  }

  lemma ExpandImage(f: string)
    ensures Expand([ImageBlock(f)]) == [Image(f)]
  {
    assert Expand([ImageBlock(f)]) == [Image(f)] + Expand([]);
  }

  /** An image between two well-formed block lists keeps the whole list well-formed. */
  lemma WellFormedAround(a: seq<Block>, f: string, b: seq<Block>)
    requires WellFormed(a) && WellFormed(b)
    ensures WellFormed(a + [ImageBlock(f)] + b)
  {
    var r := a + [ImageBlock(f)] + b;
    assert forall k :: 0 <= k < |a| ==> r[k] == a[k];
    assert r[|a|] == ImageBlock(f);
    assert forall k :: 0 <= k < |b| ==> r[|a| + 1 + k] == b[k];
  }

  /** No text block is empty and no two text blocks are adjacent. */
  lemma {:induction false} GroupWellFormed(pending: seq<string>, items: seq<Item>)
    requires AllClean(pending) && CleanItems(items)
    ensures WellFormed(Group(pending, items))
    decreases |items|
  {
    if items == [] {
      ExpandFlush(pending);
    } else {
      var rest := items[1..];
      CleanHead(items);
      assert items == [items[0]] + rest;
      match items[0]
      case Line(l) =>
        GroupLine(pending, l, rest);
        GroupWellFormed(pending + [l], rest);
      case Image(f) =>
        GroupImage(pending, f, rest);
        GroupWellFormed([], rest);
        ExpandFlush(pending);
        WellFormedAround(Flush(pending), f, Group([], rest));
    }
  }

  /**
   * The blocks of `split_lines_with_images` read back, in order, as exactly the
   * non-blank stripped body lines, images as image items and everything else
   * as text lines; blank lines are dropped, no text block is empty and no two
   * text blocks are adjacent.
   */
  lemma BlocksReadBack(text: string, stripTest: bool)
    ensures Expand(SplitLinesWithImages(text, stripTest)) == Kept(SplitLines(text))
    ensures WellFormed(SplitLinesWithImages(text, stripTest))
  {
    SplitLinesWithImagesIsGroup(text, stripTest);
    SplitLinesRoundTrip(text);
    KeptClean(SplitLines(text));
    GroupExpand([], Kept(SplitLines(text)));
    GroupWellFormed([], Kept(SplitLines(text)));
  }

  /** A run of text lines only, behind a pending run, makes at most one text block. */
  lemma {:induction false} GroupOfLines(pending: seq<string>, items: seq<Item>)
    requires forall k :: 0 <= k < |items| ==> items[k].Line?
    ensures pending == [] && items == [] ==> Group(pending, items) == []
    ensures pending != [] || items != [] ==> |Group(pending, items)| == 1 && Group(pending, items)[0].TextBlock?
    decreases |items|
  {
    if items != [] {
      var rest := items[1..];
      assert items[0].Line?;
      assert forall k :: 0 <= k < |rest| ==> rest[k] == items[k + 1];
      GroupLine(pending, items[0].text, rest);
      assert items == [Line(items[0].text)] + rest;
      GroupOfLines(pending + [items[0].text], rest);
    }
  }

  /** Without image lines every kept item is a text line, and a non-blank line is kept. */
  lemma {:induction false} KeptOfText(lines: seq<string>)
    requires forall k :: 0 <= k < |lines| ==> !IsImageName(Strip(lines[k]))
    ensures forall k :: 0 <= k < |Kept(lines)| ==> Kept(lines)[k].Line?
    ensures (exists k :: 0 <= k < |lines| && Strip(lines[k]) != "") ==> Kept(lines) != []
    decreases |lines|
  {
    if lines != [] {
      KeptCons(lines);
      var tail := lines[1..];
      assert forall k :: 0 <= k < |tail| ==> tail[k] == lines[k + 1];
      KeptOfText(tail);
      if Strip(lines[0]) == "" {
        if exists k :: 0 <= k < |lines| && Strip(lines[k]) != "" {
          var k :| 0 <= k < |lines| && Strip(lines[k]) != "";
          assert Strip(tail[k - 1]) != "";
        }
      } else {
        var head := [Line(Strip(lines[0]))];
        assert Kept(lines) == head + Kept(tail);
        assert forall k :: 0 <= k < |Kept(tail)| ==> (head + Kept(tail))[k + 1] == Kept(tail)[k];
      }
    }
  }

  /** A body with no image line but some non-blank line becomes exactly one text block. */
  lemma NoImagesOneBlock(text: string, stripTest: bool)
    requires forall k :: 0 <= k < |SplitLines(text)| ==> !IsImageName(Strip(SplitLines(text)[k]))
    requires exists k :: 0 <= k < |SplitLines(text)| && Strip(SplitLines(text)[k]) != ""
    ensures |SplitLinesWithImages(text, stripTest)| == 1
    ensures SplitLinesWithImages(text, stripTest)[0].TextBlock?
  {
    SplitLinesWithImagesIsGroup(text, stripTest);
    KeptOfText(SplitLines(text));
    GroupOfLines([], Kept(SplitLines(text)));
  }
}
