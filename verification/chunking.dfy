/**
 * Greedy line packing of a text block into post-sized chunks
 * (`split_into_chunks`). Lengths are Python `len`, i.e. counts of characters.
 */
module Chunking {
  import opened Text

  /** The default `max_length` every caller uses. */
  const MaxLength: int := 300

  /** The groups of lines laid end to end. */
  function Flatten(groups: seq<seq<string>>): seq<string>
    decreases |groups|
  {
    if groups == [] then [] else Flatten(groups[..|groups| - 1]) + groups[|groups| - 1]
  }

  /** The accumulator strings, each group's lines followed by '\n'. */
  function Accumulators(groups: seq<seq<string>>): seq<string>
    ensures |Accumulators(groups)| == |groups|
    decreases |groups|
  {
    if groups == [] then [] else Accumulators(groups[..|groups| - 1]) + [Terminated(groups[|groups| - 1])]
  }

  /** Adding a line to a group fits when the grown accumulator stays within the limit. */
  predicate Fits(acc: seq<string>, line: string, maxLength: int) {
    |Terminated(acc)| + |line| + 1 <= maxLength
  }

  /**
   * The greedy packing, stated without the loop: the groups hold the lines in
   * order; only the first group may be empty, and it is exactly when the first
   * line does not fit into an empty accumulator; a group grown past one line
   * stays within the limit, and so does a first group; and each later group
   * starts with a line that did not fit into the group before it.
   */
  predicate Greedy(lines: seq<string>, groups: seq<seq<string>>, maxLength: int) {
    && Flatten(groups) == lines
    && (groups != [] && groups[0] == [] <==> lines != [] && !Fits([], lines[0], maxLength))
    && Bounded(groups, maxLength)
    && Broken(groups, maxLength)
  }

  /** A group grown past one line stays within the limit, and so does a non-empty first group. */
  predicate Bounded(groups: seq<seq<string>>, maxLength: int) {
    && (forall k :: 0 <= k < |groups| && |groups[k]| >= 2 ==> |Terminated(groups[k])| <= maxLength)
    && (groups != [] && groups[0] != [] ==> |Terminated(groups[0])| <= maxLength)
  }

  /** Each later group is non-empty and starts with a line that did not fit into the group before it. */
  predicate Broken(groups: seq<seq<string>>, maxLength: int) {
    forall k :: 0 < k < |groups| ==> groups[k] != [] && !Fits(groups[k - 1], groups[k][0], maxLength)
  }

  lemma TerminatedSnoc(acc: seq<string>, line: string)
    ensures Terminated(acc + [line]) == Terminated(acc) + line + "\n"
  {
    TerminatedAppend(acc, [line]);
    assert Terminated([line]) == line + "\n" + Terminated([]);
  }

  lemma FlattenSnoc(groups: seq<seq<string>>, g: seq<string>)
    ensures Flatten(groups + [g]) == Flatten(groups) + g
  {
    assert (groups + [g])[..|groups|] == groups;
  }

  lemma AccumulatorsSnoc(groups: seq<seq<string>>, g: seq<string>)
    ensures Accumulators(groups + [g]) == Accumulators(groups) + [Terminated(g)]
  {
    assert (groups + [g])[..|groups|] == groups;
  }

  /** The first line opens the first group, behind an empty one when it does not fit. */
  lemma GreedyStart(line: string, maxLength: int)
    ensures Greedy([line], if Fits([], line, maxLength) then [[line]] else [[], [line]], maxLength)
  {
    if Fits([], line, maxLength) {
      StartFits(line, maxLength);
    } else {
      StartEmpty(line, maxLength);
    }
  }

  lemma StartFits(line: string, maxLength: int)
    requires Fits([], line, maxLength)
    ensures Greedy([line], [[line]], maxLength)
  {
    var g := [line];
    var gs := [g];
    var none: seq<seq<string>> := [];
    assert Terminated(g) == line + "\n" + Terminated([]);
    assert |Terminated(g)| <= maxLength;
    assert Bounded(gs, maxLength);
    assert Broken(gs, maxLength);
    FlattenSnoc(none, g);
    assert none + [g] == gs;
  }

  lemma StartEmpty(line: string, maxLength: int)
    requires !Fits([], line, maxLength)
    ensures Greedy([line], [[], [line]], maxLength)
  {
    var gs: seq<seq<string>> := [[], [line]];
    FlattenSnoc([[]], [line]);
    assert [[]] + [[line]] == gs;
    var none: seq<seq<string>> := [];
    assert Flatten([[]]) == [] by {
      FlattenSnoc(none, []);
      assert none + [[]] == [[]];
    }
    assert |gs[1]| == 1 && gs[0] == [];
  }

  /** A line that fits joins the current group. */
  lemma GreedyAppend(lines: seq<string>, groups: seq<seq<string>>, cur: seq<string>, line: string, maxLength: int)
    requires Greedy(lines, groups + [cur], maxLength) && cur != []
    requires Fits(cur, line, maxLength)
    ensures Greedy(lines + [line], groups + [cur + [line]], maxLength)
  {
    var gs := groups + [cur];
    var gs' := groups + [cur + [line]];
    FlattenSnoc(groups, cur);
    FlattenSnoc(groups, cur + [line]);
    assert Flatten(gs') == lines + [line];
    AppendBroken(groups, cur, line, maxLength);
    AppendBounded(groups, cur, line, maxLength);
    if groups == [] {
      assert gs[0] == cur && gs'[0] == cur + [line];
    } else {
      assert gs'[0] == gs[0];
    }
  }

  lemma AppendBroken(groups: seq<seq<string>>, cur: seq<string>, line: string, maxLength: int)
    requires Broken(groups + [cur], maxLength) && cur != []
    ensures Broken(groups + [cur + [line]], maxLength)
  {
    var gs := groups + [cur];
    var gs' := groups + [cur + [line]];
    forall k | 0 < k < |gs'|
      ensures gs'[k] != [] && !Fits(gs'[k - 1], gs'[k][0], maxLength)
    {
      assert gs'[k - 1] == gs[k - 1];
      assert gs'[k][0] == gs[k][0];
    }
  }

  lemma AppendBounded(groups: seq<seq<string>>, cur: seq<string>, line: string, maxLength: int)
    requires Bounded(groups + [cur], maxLength) && Fits(cur, line, maxLength)
    ensures Bounded(groups + [cur + [line]], maxLength)
  {
    var gs := groups + [cur];
    var gs' := groups + [cur + [line]];
    TerminatedSnoc(cur, line);
    forall k | 0 <= k < |gs'| && |gs'[k]| >= 2
      ensures |Terminated(gs'[k])| <= maxLength
    {
      if k < |groups| {
        assert gs'[k] == gs[k];
      }
    }
    if groups != [] {
      assert gs'[0] == gs[0];
    }
  }

  /** A line that does not fit closes the current group and opens the next. */
  lemma GreedyBreak(lines: seq<string>, groups: seq<seq<string>>, cur: seq<string>, line: string, maxLength: int)
    requires Greedy(lines, groups + [cur], maxLength) && cur != []
    requires !Fits(cur, line, maxLength)
    ensures Greedy(lines + [line], groups + [cur] + [[line]], maxLength)
  {
    var gs := groups + [cur];
    var gs' := gs + [[line]];
    FlattenSnoc(gs, [line]);
    BreakBroken(gs, line, maxLength);
    BreakBounded(gs, line, maxLength);
    assert gs'[0] == gs[0];
  }

  lemma BreakBroken(gs: seq<seq<string>>, line: string, maxLength: int)
    requires Broken(gs, maxLength) && gs != [] && !Fits(gs[|gs| - 1], line, maxLength)
    ensures Broken(gs + [[line]], maxLength)
  {
    var gs' := gs + [[line]];
    forall k | 0 < k < |gs'|
      ensures gs'[k] != [] && !Fits(gs'[k - 1], gs'[k][0], maxLength)
    {
      assert gs'[k - 1] == gs[k - 1];
      if k < |gs| {
        assert gs'[k] == gs[k];
      }
    }
  }

  lemma BreakBounded(gs: seq<seq<string>>, line: string, maxLength: int)
    requires Bounded(gs, maxLength) && gs != []
    ensures Bounded(gs + [[line]], maxLength)
  {
    var gs' := gs + [[line]];
    forall k | 0 <= k < |gs'| && |gs'[k]| >= 2
      ensures |Terminated(gs'[k])| <= maxLength
    {
      assert gs'[k] == gs[k];
    }
    assert gs'[0] == gs[0];
  }

  /**
   * Reference packing, one line at a time from the front: a line that fits
   * joins the last group, otherwise it opens a new one. Before the first line
   * the pending group is empty.
   */
  function Pack(lines: seq<string>, maxLength: int): seq<seq<string>>
    decreases |lines|
  {
    if lines == [] then []
    else
      var ps := Pack(lines[..|lines| - 1], maxLength);
      var line := lines[|lines| - 1];
      var init := if ps == [] then [] else ps[..|ps| - 1];
      var cur := if ps == [] then [] else ps[|ps| - 1];
      if Fits(cur, line, maxLength) then init + [cur + [line]] else init + [cur] + [[line]]
  }

  lemma PackNonEmpty(lines: seq<string>, maxLength: int)
    ensures Pack(lines, maxLength) == [] <==> lines == []
    ensures lines != [] ==> Pack(lines, maxLength)[|Pack(lines, maxLength)| - 1] != []
  {
  }

  /** The reference packing is greedy. */
  lemma {:induction false} PackIsGreedy(lines: seq<string>, maxLength: int)
    ensures Greedy(lines, Pack(lines, maxLength), maxLength)
    decreases |lines|
  {
    if lines != [] {
      var prev := lines[..|lines| - 1];
      var line := lines[|lines| - 1];
      assert lines == prev + [line];
      var ps := Pack(prev, maxLength);
      PackNonEmpty(prev, maxLength);
      if ps == [] {
        assert prev == [];
        assert lines == [line];
        GreedyStart(line, maxLength);
        assert Terminated([]) == "";
        assert [] + [[] + [line]] == [[line]];
        assert [] + [[]] + [[line]] == [[], [line]];
      } else {
        PackIsGreedy(prev, maxLength);
        var init := ps[..|ps| - 1];
        var cur := ps[|ps| - 1];
        assert ps == init + [cur];
        if Fits(cur, line, maxLength) {
          GreedyAppend(prev, init, cur, line, maxLength);
        } else {
          GreedyBreak(prev, init, cur, line, maxLength);
        }
      }
    }
  }

  lemma PackSnoc(lines: seq<string>, i: nat, groups: seq<seq<string>>, cur: seq<string>, maxLength: int)
    requires i < |lines|
    requires i == 0 ==> groups == [] && cur == []
    requires i > 0 ==> Pack(lines[..i], maxLength) == groups + [cur]
    ensures Fits(cur, lines[i], maxLength) ==> Pack(lines[..i + 1], maxLength) == groups + [cur + [lines[i]]]
    ensures !Fits(cur, lines[i], maxLength) ==> Pack(lines[..i + 1], maxLength) == groups + [cur] + [[lines[i]]]
  {
    assert lines[..i + 1][..i] == lines[..i];
    if i == 0 {
      assert lines[..i] == [];
    } else {
      var ps := groups + [cur];
      assert ps[..|ps| - 1] == groups;
    }
  }

  /** `chunk.strip()` of every accumulator. */
  function StripAll(accs: seq<string>): (r: seq<string>)
    ensures |r| == |accs|
    decreases |accs|
  {
    if accs == [] then [] else StripAll(accs[..|accs| - 1]) + [Strip(accs[|accs| - 1])]
  }

  lemma {:induction false} StripAllAt(accs: seq<string>, k: nat)
    requires k < |accs|
    ensures StripAll(accs)[k] == Strip(accs[k])
    decreases |accs|
  {
    if k < |accs| - 1 {
      StripAllAt(accs[..|accs| - 1], k);
    }
  }

  lemma StripAllSnoc(accs: seq<string>, a: string)
    ensures StripAll(accs + [a]) == StripAll(accs) + [Strip(a)]
  {
    assert (accs + [a])[..|accs|] == accs;
  }

  lemma {:induction false} AccumulatorsAt(groups: seq<seq<string>>, k: nat)
    requires k < |groups|
    ensures Accumulators(groups)[k] == Terminated(groups[k])
    decreases |groups|
  {
    if k < |groups| - 1 {
      AccumulatorsAt(groups[..|groups| - 1], k);
    }
  }

  /** Each chunk is the stripped accumulator of its group. */
  lemma ChunkAt(groups: seq<seq<string>>, k: nat)
    requires k < |groups|
    ensures StripAll(Accumulators(groups))[k] == Strip(Terminated(groups[k]))
  {
    AccumulatorsAt(groups, k);
    StripAllAt(Accumulators(groups), k);
  }

  /** The chunks of a text: the stripped accumulators of the reference packing of its lines. */
  function Chunks(text: string, maxLength: int): seq<string> {
    StripAll(Accumulators(Pack(SplitLines(text), maxLength)))
  }

  /** `split_into_chunks(text, max_length)`: the chunks are the stripped accumulators of a greedy grouping. */
  method SplitIntoChunks(text: string, maxLength: int) returns (chunks: seq<string>, groups: seq<seq<string>>)
    ensures Greedy(SplitLines(text), groups, maxLength)
    ensures chunks == StripAll(Accumulators(groups)) == Chunks(text, maxLength)
    ensures text == "" ==> chunks == []
    ensures |chunks| <= |SplitLines(text)| + 1
  {
    chunks, groups := PackLines(SplitLines(text), maxLength);
    PackIsGreedy(SplitLines(text), maxLength);
  }

  /**
   * What the loop of `split_into_chunks` keeps after `i` lines: `chunk` is the
   * open accumulator of group `cur`, `chunks` the stripped accumulators of the
   * closed groups, and together they are the reference packing of the prefix.
   */
  predicate Packed(lines: seq<string>, i: nat, maxLength: int, chunks: seq<string>, groups: seq<seq<string>>, chunk: string, cur: seq<string>) {
    && i <= |lines|
    && chunk == Terminated(cur)
    && chunks == StripAll(Accumulators(groups))
    && |groups| <= i
    && (i == 0 ==> groups == [] && cur == [])
    && (i > 0 ==> Pack(lines[..i], maxLength) == groups + [cur])
  }

  /**
   * The loop of `split_into_chunks` over the lines. Besides the chunks it
   * returns the groups of lines each accumulator held, which is how the
   * contract explains the chunks.
   */
  method PackLines(lines: seq<string>, maxLength: int) returns (chunks: seq<string>, groups: seq<seq<string>>)
    ensures groups == Pack(lines, maxLength)
    ensures chunks == StripAll(Accumulators(groups))
    ensures lines == [] ==> chunks == []
    ensures |chunks| <= |lines| + 1
  {
    chunks := [];
    groups := [];
    var chunk := "";
    var cur: seq<string> := [];
    var i := 0;
    while i < |lines|
      invariant Packed(lines, i, maxLength, chunks, groups, chunk, cur)
    {
      chunks, groups, chunk, cur := AddLine(lines, i, maxLength, chunks, groups, chunk, cur);
      i := i + 1;
    }
    chunks, groups := FlushLast(lines, maxLength, chunks, groups, chunk, cur);
  }

  /** One pass of the loop: line `i` joins the open accumulator or, when it does not fit, opens a new one. */
  method AddLine(lines: seq<string>, i: nat, maxLength: int, chunks: seq<string>, groups: seq<seq<string>>, chunk: string, cur: seq<string>)
    returns (chunks': seq<string>, groups': seq<seq<string>>, chunk': string, cur': seq<string>)
    requires i < |lines| && Packed(lines, i, maxLength, chunks, groups, chunk, cur)
    ensures Packed(lines, i + 1, maxLength, chunks', groups', chunk', cur')
  {
    var line := lines[i];
    PackSnoc(lines, i, groups, cur, maxLength);
    TerminatedSnoc(cur, line);
    if |chunk| + |line| + 1 <= maxLength {
      chunks', groups' := chunks, groups;
      chunk' := chunk + line + "\n";
      cur' := cur + [line];
    } else {
      AccumulatorsSnoc(groups, cur);
      StripAllSnoc(Accumulators(groups), chunk);
      chunks' := chunks + [Strip(chunk)];
      groups' := groups + [cur];
      chunk' := line + "\n";
      cur' := [line];
      assert Terminated(cur') == line + "\n" + Terminated([]);
    }
  }

  /** After the loop, a non-empty open accumulator becomes the last chunk. */
  method FlushLast(lines: seq<string>, maxLength: int, chunks: seq<string>, groups: seq<seq<string>>, chunk: string, cur: seq<string>)
    returns (chunks': seq<string>, groups': seq<seq<string>>)
    requires Packed(lines, |lines|, maxLength, chunks, groups, chunk, cur)
    ensures groups' == Pack(lines, maxLength)
    ensures chunks' == StripAll(Accumulators(groups'))
    ensures lines == [] ==> chunks' == []
    ensures |chunks'| <= |lines| + 1
  {
    assert lines[..|lines|] == lines;
    PackNonEmpty(lines, maxLength);
    chunks', groups' := chunks, groups;
    if chunk != "" {
      AccumulatorsSnoc(groups, cur);
      StripAllSnoc(Accumulators(groups), chunk);
      chunks' := chunks + [Strip(chunk)];
      groups' := groups + [cur];
    }
  }

  /**
   * Laying the accumulators end to end gives back every line followed by
   * '\n', in order: no text is lost or reordered before stripping.
   */
  lemma {:induction false} AccumulatorsCover(groups: seq<seq<string>>)
    ensures Concat(Accumulators(groups)) == Terminated(Flatten(groups))
    decreases |groups|
  {
    if groups != [] {
      var init := groups[..|groups| - 1];
      var g := groups[|groups| - 1];
      assert groups == init + [g];
      AccumulatorsCover(init);
      ConcatAppend(Accumulators(init), [Terminated(g)]);
      assert Concat([Terminated(g)]) == Terminated(g) + Concat([]);
      TerminatedAppend(Flatten(init), g);
    }
  }

  /** A chunk longer than the limit comes from a single line. */
  lemma LongChunkIsOneLine(lines: seq<string>, groups: seq<seq<string>>, maxLength: int, k: nat)
    requires Greedy(lines, groups, maxLength) && maxLength >= 0
    requires k < |groups| && |Terminated(groups[k])| > maxLength
    ensures |groups[k]| == 1
  {
  }

  /** A first line that does not fit (length at least `max_length`) gives a leading empty chunk. */
  lemma LeadingEmptyChunk(lines: seq<string>, groups: seq<seq<string>>, maxLength: int)
    requires Greedy(lines, groups, maxLength)
    requires lines != [] && |lines[0]| >= maxLength
    ensures groups != [] && groups[0] == [] && Strip(Terminated(groups[0])) == ""
  {
    assert Terminated([]) == "";
    assert !Fits([], lines[0], maxLength);
  }
}
