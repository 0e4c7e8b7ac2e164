/**
 * The bot's state between runs (main_test.py): the processed-CID file, the
 * ignored-DID file, the daily mention counts and the daily history of
 * mention texts. Each file becomes a value; the UTC date key `today` is a
 * parameter.
 */
module Store {
  import opened Text

  // ---------------------------------------------------------------------------
  // Line-per-entry files

  /** What one line of a line-per-entry file contributes when it is read back. */
  function Entry(line: string): seq<string> {
    if Strip(line) != [] then [Strip(line)] else []
  }

  /**
   * `[line.strip() for line in f if line.strip()]` over the lines of a file;
   * a file that does not exist reads as no lines.
   */
  function Entries(lines: seq<string>): seq<string>
    decreases |lines|
  {
    if lines == [] then [] else Entries(lines[..|lines| - 1]) + Entry(lines[|lines| - 1])
  }

  /** An entry is the stripped form of some non-blank line. */
  lemma {:induction false} EntriesMember(lines: seq<string>, x: string)
    ensures x in Entries(lines) <==> x != [] && exists i :: 0 <= i < |lines| && Strip(lines[i]) == x
    decreases |lines|
  {
    if lines != [] {
      var init := lines[..|lines| - 1];
      EntriesMember(init, x);
      if x in Entries(init) {
        var i :| 0 <= i < |init| && Strip(init[i]) == x;
        assert lines[i] == init[i];
      }
      if x != [] && exists i :: 0 <= i < |lines| && Strip(lines[i]) == x {
        var i :| 0 <= i < |lines| && Strip(lines[i]) == x;
        if i < |init| {
          assert init[i] == lines[i];
        }
      }
    }
  }

  lemma {:induction false} EntriesAppend(a: seq<string>, b: seq<string>)
    ensures Entries(a + b) == Entries(a) + Entries(b)
    decreases |b|
  {
    if b == [] {
      assert a + b == a;
    } else {
      var init := b[..|b| - 1];
      EntriesAppend(a, init);
      assert (a + b)[..|a + b| - 1] == a + init;
    }
  }

  // ---------------------------------------------------------------------------
  // Ignored DIDs

  /** `is_ignored_did(did)`: the stripped DID is one of the file's entries. */
  predicate IsIgnoredDid(ignored: seq<string>, did: string) {
    Strip(did) in Entries(ignored)
  }

  /** The entries other than `target`, in order. */
  function Without(entries: seq<string>, target: string): (r: seq<string>)
    ensures forall x :: x in r <==> x in entries && x != target
    decreases |entries|
  {
    if entries == [] then []
    else (if entries[0] != target then [entries[0]] else []) + Without(entries[1..], target)
  }

  /**
   * `remove_from_ignored_dids(target)`: the file is rewritten with its
   * non-blank stripped lines other than `target`. The target is compared as
   * given, without stripping.
   */
  function RemoveFromIgnoredDids(ignored: seq<string>, target: string): seq<string> {
    Without(Entries(ignored), target)
  }

  /**
   * `add_to_ignored_dids(dids)`, which main_test.py calls but never defines:
   * the evidently intended helper, one line appended per DID.
   */
  function AddToIgnoredDids(ignored: seq<string>, dids: seq<string>): seq<string> {
    ignored + dids
  }

  /** A file rewritten from entries reads back as those entries. */
  lemma EntriesOfEntries(lines: seq<string>, x: string)
    ensures x in Entries(Entries(lines)) <==> x in Entries(lines)
  {
    var es := Entries(lines);
    EntriesMember(es, x);
    EntriesMember(lines, x);
    forall i | 0 <= i < |es|
      ensures Strip(es[i]) == es[i] && es[i] != []
    {
      assert es[i] in es;
      EntriesMember(lines, es[i]);
      var j :| 0 <= j < |lines| && Strip(lines[j]) == es[i];
      StripIdempotent(lines[j]);
    }
  }

  /** After removing `target`, a DID is ignored exactly when it was and does not strip to `target`. */
  lemma RemoveFromIgnoredDidsSpec(ignored: seq<string>, target: string, did: string)
    ensures IsIgnoredDid(RemoveFromIgnoredDids(ignored, target), did)
        <==> IsIgnoredDid(ignored, did) && Strip(did) != target
  {
    var es := Entries(ignored);
    var w := Without(es, target);
    var x := Strip(did);
    EntriesMember(w, x);
    EntriesOfEntries(ignored, x);
    EntriesMember(es, x);
    if x in Entries(w) {
      var i :| 0 <= i < |w| && Strip(w[i]) == x;
      assert w[i] in w;
      EntriesOfEntries(ignored, w[i]);
      EntriesMember(es, w[i]);
      var j :| 0 <= j < |es| && Strip(es[j]) == w[i];
      assert es[j] in es;
      EntriesMember(ignored, es[j]);
      var m :| 0 <= m < |ignored| && Strip(ignored[m]) == es[j];
      StripIdempotent(ignored[m]);
    }
    if x in es && x != target {
      assert x in w;
      var i :| 0 <= i < |w| && w[i] == x;
      EntriesMember(ignored, x);
      var m :| 0 <= m < |ignored| && Strip(ignored[m]) == x;
      StripIdempotent(ignored[m]);
    }
  }

  /** After adding DIDs, a DID is ignored exactly when it was or it strips to one of the added, non-blank DIDs. */
  lemma AddToIgnoredDidsSpec(ignored: seq<string>, dids: seq<string>, did: string)
    ensures IsIgnoredDid(AddToIgnoredDids(ignored, dids), did)
        <==> IsIgnoredDid(ignored, did) || (Strip(did) != [] && exists i :: 0 <= i < |dids| && Strip(dids[i]) == Strip(did))
  {
    EntriesAppend(ignored, dids);
    EntriesMember(dids, Strip(did));
  }

  // ---------------------------------------------------------------------------
  // Processed CIDs

  /** `is_already_processed(cid)`: the CID, unstripped, is one of the file's entries. */
  predicate IsAlreadyProcessed(processed: seq<string>, cid: string) {
    cid in Entries(processed)
  }

  /** `mark_cid_processed(cid)`: one line appended. */
  function MarkCidProcessed(processed: seq<string>, cid: string): seq<string> {
    processed + [cid]
  }

  /**
   * Marking makes the stripped CID processed, if it is non-blank, and
   * changes nothing else. The marked CID itself therefore counts as
   * processed only when it carries no surrounding white space: it is looked
   * up unstripped but read back stripped.
   */
  lemma MarkCidProcessedSpec(processed: seq<string>, cid: string, x: string)
    ensures IsAlreadyProcessed(MarkCidProcessed(processed, cid), x)
        <==> IsAlreadyProcessed(processed, x) || (Strip(cid) != [] && x == Strip(cid))
    ensures IsAlreadyProcessed(MarkCidProcessed(processed, cid), cid)
        <==> IsAlreadyProcessed(processed, cid) || (cid != [] && Strip(cid) == cid)
  {
    assert MarkCidProcessed(processed, cid)[..|processed|] == processed;
  }

  // ---------------------------------------------------------------------------
  // Daily mention counts

  /** `mention_counts.json`: date, then DID, to the number of counted mentions. */
  type Counts = map<string, map<string, nat>>

  /** `data.get(day, {}).get(did, 0)` */
  function Count(counts: Counts, day: string, did: string): nat {
    if day in counts && did in counts[day] then counts[day][did] else 0
  }

  /**
   * `track_mention_count(did)` on date `today`: the new count of the DID for
   * the day, and the updated counts. Only that entry changes, by one.
   */
  function TrackMentionCount(counts: Counts, today: string, did: string): (r: (nat, Counts))
    ensures r.0 == Count(counts, today, did) + 1
    ensures Count(r.1, today, did) == r.0
    ensures forall day, d :: (day != today || d != did) ==> Count(r.1, day, d) == Count(counts, day, d)
  {
    var perDay := if today in counts then counts[today] else map[];
    var n := (if did in perDay then perDay[did] else 0) + 1;
    (n, counts[today := perDay[did := n]])
  }

  /** The counts after `k` counted mentions of one DID on one day. */
  function TrackTimes(counts: Counts, today: string, did: string, k: nat): Counts
    decreases k
  {
    if k == 0 then counts else TrackMentionCount(TrackTimes(counts, today, did, k - 1), today, did).1
  }

  /** The `k`-th counted mention of a day is told its count is the day's starting count plus `k`. */
  lemma {:induction false} TrackTimesCount(counts: Counts, today: string, did: string, k: nat)
    requires k > 0
    ensures TrackMentionCount(TrackTimes(counts, today, did, k - 1), today, did).0 == Count(counts, today, did) + k
    ensures Count(TrackTimes(counts, today, did, k), today, did) == Count(counts, today, did) + k
    decreases k
  {
    if k > 1 {
      TrackTimesCount(counts, today, did, k - 1);
    }
  }

  // ---------------------------------------------------------------------------
  // Daily mention-text history

  /** `mention_text_history.json`: date, then DID, to the stripped texts seen. */
  type History = map<string, map<string, seq<string>>>

  /** `data.get(day, {}).get(did, [])` */
  function Logged(history: History, day: string, did: string): seq<string> {
    if day in history && did in history[day] then history[day][did] else []
  }

  /** The history with `entry` appended to the list of (`today`, `did`). */
  function Append(history: History, today: string, did: string, entry: string): (h: History)
    ensures Logged(h, today, did) == Logged(history, today, did) + [entry]
    ensures forall day, d :: (day != today || d != did) ==> Logged(h, day, d) == Logged(history, day, d)
  {
    var perDay := if today in history then history[today] else map[];
    history[today := perDay[did := (if did in perDay then perDay[did] else []) + [entry]]]
  }

  /**
   * `is_duplicate_mention_text(did, text)` on date `today`: whether the
   * stripped text was already seen from the DID that day, and the history,
   * which gains the stripped text when it was not.
   */
  function IsDuplicateMentionText(history: History, today: string, did: string, text: string): (r: (bool, History))
    ensures r.0 <==> Strip(text) in Logged(history, today, did)
    ensures r.0 ==> r.1 == history
    ensures !r.0 ==> Logged(r.1, today, did) == Logged(history, today, did) + [Strip(text)]
    ensures forall day, d :: (day != today || d != did) ==> Logged(r.1, day, d) == Logged(history, day, d)
  {
    if today in history && did in history[today] && Strip(text) in history[today][did] then (true, history)
    else (false, Append(history, today, did, Strip(text)))
  }

  /** The same text from the same DID on the same day is a duplicate the second time. */
  lemma DuplicateTwice(history: History, today: string, did: string, text: string)
    ensures var h := IsDuplicateMentionText(history, today, did, text).1;
      IsDuplicateMentionText(h, today, did, text) == (true, h)
  {
  }

  /** `log_mention(cid, did, text)`: the history part; the stripped text is appended unconditionally. */
  function LogMention(history: History, today: string, did: string, text: string): (h: History)
    ensures Strip(text) in Logged(h, today, did)
    ensures forall day, d :: (day != today || d != did) ==> Logged(h, day, d) == Logged(history, day, d)
  {
    Append(history, today, did, Strip(text))
  }
}
