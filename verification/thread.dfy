/**
 * The auto-post run of each `main` (main_backup.py, main.py, main_test.py):
 * a work is published as a thread. The head post is the root; every later
 * post (body chunks, images, closing) is a reply whose parent is the post
 * created just before it.
 *
 * `create_record` is an oracle: `created(i)` is what its `i`-th call returns,
 * `None` when it raises. `uploaded(f)` says whether image file `f` exists and
 * compresses and uploads without an exception.
 */
module Thread {
  import opened Wrappers
  import opened Text
  import opened Records
  import Segment
  import Chunking
  import Reassembly

  /**
   * Which `main`: main_backup.py, main.py, main_test.py, or `Fixed`, the
   * main_backup.py run with the root taken from the first post created.
   */
  datatype Variant = Backup | Current | Test | Fixed

  /** A local variable of `main`: never assigned, `None`, or a created post. */
  datatype Slot = Unbound | Null | Bound(ref: Ref)

  /** `root`, `parent` and `prev_text` (read by main.py only). */
  datatype Cursor = Cursor(root: Slot, parent: Slot, prev: Option<string>)

  /** One post the body asks for: a text chunk (text to publish, raw chunk) or an image block. */
  datatype Job = Say(text: string, chunk: string) | Show(filename: string)

  /**
   * The run so far: the posts created, in order, with the reference each
   * returned; the cursor; the number of `create_record` calls made; whether
   * an exception has ended `main`.
   */
  datatype Run = Run(posts: seq<Post>, refs: seq<Ref>, cursor: Cursor, calls: nat, crashed: bool)

  /** main_test.py never initialises `root` and `parent`; the others set them to `None`. */
  function Start(v: Variant): Cursor {
    if v == Test then Cursor(Unbound, Unbound, None) else Cursor(Null, Null, None)
  }

  /** The reply field a post gets, or the exception building it raises. */
  datatype Linkage = Top | Reply(field: ReplyRef) | Raises

  /**
   * `if parent: post["reply"] = {"root": root..., "parent": parent...}`: an
   * unassigned `parent` raises `UnboundLocalError`; a set `parent` with an
   * unassigned or `None` root raises as well.
   */
  function Link(c: Cursor): Linkage {
    match c.parent
    case Unbound => Raises
    case Null => Top
    case Bound(p) => if c.root.Bound? then Reply(ReplyRef(c.root.ref, p)) else Raises
  }

  function ReplyField(l: Linkage): Option<ReplyRef> {
    if l.Reply? then Some(l.field) else None
  }

  const CaptionPrefix: string := "📷 이미지: "

  /**
   * The text of an image post: main.py uses the previous text chunk when it
   * is non-empty and at most 300 characters long; otherwise, and always in
   * the other files, `📷 이미지: {filename}`.
   */
  function Caption(v: Variant, prev: Option<string>, filename: string): string {
    if v == Current && prev.Some? && prev.value != [] && |prev.value| <= Chunking.MaxLength then prev.value
    else CaptionPrefix + filename
  }

  /** Post `p` was created with reference `ref`: it is recorded and `parent` moves to it. */
  function Created(v: Variant, run: Run, p: Post, ref: Ref): Run {
    var root := if v == Fixed && run.cursor.root == Null then Bound(ref) else run.cursor.root;
    Run(run.posts + [p], run.refs + [ref], run.cursor.(root := root, parent := Bound(ref)), run.calls + 1, run.crashed)
  }

  /** The head post: `root = parent = create_record(...)`. */
  function Head(run: Run, head: string, created: nat -> Option<Ref>): Run {
    match created(run.calls)
    case None => run.(calls := run.calls + 1, crashed := true)
    case Some(ref) =>
      Run(run.posts + [Post(head, None, None)], run.refs + [ref], run.cursor.(root := Bound(ref), parent := Bound(ref)), run.calls + 1, run.crashed)
  }

  /** A text post (a body chunk or the closing); nothing catches its exceptions. */
  function PostText(v: Variant, run: Run, text: string, created: nat -> Option<Ref>): Run {
    var link := Link(run.cursor);
    if link.Raises? then run.(crashed := true)
    else match created(run.calls)
      case None => run.(calls := run.calls + 1, crashed := true)
      case Some(ref) => Created(v, run, Post(text, None, ReplyField(link)), ref)
  }

  /** An image post; every failure inside the `try` skips the image. */
  function PostImage(v: Variant, run: Run, filename: string, uploaded: string -> bool, created: nat -> Option<Ref>): Run {
    var link := Link(run.cursor);
    if !uploaded(filename) || link.Raises? then run
    else match created(run.calls)
      case None => run.(calls := run.calls + 1)
      case Some(ref) =>
        var r := Created(v, run, Post(Caption(v, run.cursor.prev, filename), Some(filename), ReplyField(link)), ref);
        r.(cursor := r.cursor.(prev := None))
  }

  /** One job of the body loop; a published chunk becomes `prev_text`. */
  function Do(v: Variant, run: Run, job: Job, uploaded: string -> bool, created: nat -> Option<Ref>): Run {
    match job
    case Say(text, chunk) =>
      var r := PostText(v, run, text, created);
      if r.crashed then r else r.(cursor := r.cursor.(prev := Some(chunk)))
    case Show(f) => PostImage(v, run, f, uploaded, created)
  }

  /** The body loop, until the jobs run out or an exception ends `main`. */
  function RunJobs(v: Variant, run: Run, jobs: seq<Job>, uploaded: string -> bool, created: nat -> Option<Ref>): Run
    decreases |jobs|
  {
    if jobs == [] || run.crashed then run
    else RunJobs(v, Do(v, run, jobs[0], uploaded, created), jobs[1..], uploaded, created)
  }

  /** The text published for a chunk: verbatim in main.py, with its links moved to the end elsewhere. */
  function PublishedText(v: Variant, chunk: string): string {
    if v == Current then chunk else Reassembly.Reassemble(chunk)
  }

  function ChunkJobs(v: Variant, chunks: seq<string>): (jobs: seq<Job>)
    ensures |jobs| == |chunks|
    ensures forall k :: 0 <= k < |jobs| ==> jobs[k] == Say(PublishedText(v, chunks[k]), chunks[k])
    decreases |chunks|
  {
    if chunks == [] then [] else [Say(PublishedText(v, chunks[0]), chunks[0])] + ChunkJobs(v, chunks[1..])
  }

  /** The jobs of the body blocks: each text block's chunks in order, each image block once. */
  function Jobs(v: Variant, blocks: seq<Segment.Block>): seq<Job>
    decreases |blocks|
  {
    if blocks == [] then []
    else match blocks[0]
      case TextBlock(c) => ChunkJobs(v, Chunking.Chunks(c, Chunking.MaxLength)) + Jobs(v, blocks[1..])
      case ImageBlock(f) => [Show(f)] + Jobs(v, blocks[1..])
  }

  /** The run before anything is posted. */
  function Begin(v: Variant): Run {
    Run([], [], Start(v), 0, false)
  }

  /** The head post, when the head is not blank. */
  function AfterHead(v: Variant, head: string, created: nat -> Option<Ref>): Run {
    if head != "" then Head(Begin(v), head, created) else Begin(v)
  }

  /** The closing post, when the closing is not blank and `main` is still running. */
  function Closing(v: Variant, run: Run, closing: string, created: nat -> Option<Ref>): Run {
    if run.crashed || closing == "" then run else PostText(v, run, closing, created)
  }

  /** The posting part of `main` for the work file `content`. */
  function Publish(v: Variant, content: string, uploaded: string -> bool, created: nat -> Option<Ref>): Run {
    var doc := Segment.SplitDocument(content);
    var jobs := Jobs(v, Segment.SplitLinesWithImages(doc.body, v != Current));
    Closing(v, RunJobs(v, AfterHead(v, doc.head, created), jobs, uploaded, created), doc.closing, created)
  }

  // ---------------------------------------------------------------------------
  // Properties

  /**
   * A well-linked thread: one reference per post; the first post is the
   * root and has no reply field; every later post replies to the root with
   * the post before it as parent; the cursor holds the root and the last
   * post.
   */
  predicate Linked(run: Run) {
    && |run.posts| == |run.refs| > 0
    && run.posts[0].reply == None
    && (forall k :: 0 < k < |run.posts| ==> run.posts[k].reply == Some(ReplyRef(run.refs[0], run.refs[k - 1])))
    && run.cursor.root == Bound(run.refs[0])
    && run.cursor.parent == Bound(run.refs[|run.refs| - 1])
  }

  /** Appending a post that replies to the root with the last post as parent keeps a thread well linked. */
  lemma CreatedLinked(v: Variant, run: Run, p: Post, ref: Ref)
    requires Linked(run) && p.reply == Some(ReplyRef(run.refs[0], run.refs[|run.refs| - 1]))
    ensures var r := Created(v, run, p, ref);
      && Linked(r) && r.posts == run.posts + [p] && r.refs == run.refs + [ref]
      && r.cursor.root == run.cursor.root && r.cursor.parent == Bound(ref)
  {
    var r := Created(v, run, p, ref);
    assert r.refs[0] == run.refs[0];
    forall k | 0 < k < |r.posts|
      ensures r.posts[k].reply == Some(ReplyRef(r.refs[0], r.refs[k - 1]))
    {
      if k < |run.posts| {
        assert r.posts[k] == run.posts[k];
      }
    }
  }

  /** The prefix and growth facts a job guarantees. */
  predicate Extends(run: Run, r: Run) {
    && |run.posts| <= |r.posts| <= |run.posts| + 1
    && |run.refs| <= |r.refs|
    && r.posts[..|run.posts|] == run.posts && r.refs[..|run.refs|] == run.refs
    && (|r.posts| == |run.posts| ==> r.cursor.root == run.cursor.root && r.cursor.parent == run.cursor.parent)
  }

  lemma TextLinked(v: Variant, run: Run, text: string, created: nat -> Option<Ref>)
    requires Linked(run)
    ensures var r := PostText(v, run, text, created);
      Linked(r) && |r.posts| == |r.refs| && Extends(run, r)
  {
    var link := Link(run.cursor);
    if !link.Raises? && created(run.calls).Some? {
      CreatedLinked(v, run, Post(text, None, ReplyField(link)), created(run.calls).value);
    }
  }

  lemma ImageLinked(v: Variant, run: Run, f: string, uploaded: string -> bool, created: nat -> Option<Ref>)
    requires Linked(run)
    ensures var r := PostImage(v, run, f, uploaded, created);
      Linked(r) && Extends(run, r)
  {
    var link := Link(run.cursor);
    if uploaded(f) && !link.Raises? && created(run.calls).Some? {
      CreatedLinked(v, run, Post(Caption(v, run.cursor.prev, f), Some(f), ReplyField(link)), created(run.calls).value);
    }
  }

  /**
   * One job keeps a thread well linked; it adds at most one post, and the
   * parent moves exactly when a post is created.
   */
  lemma DoLinked(v: Variant, run: Run, job: Job, uploaded: string -> bool, created: nat -> Option<Ref>)
    requires Linked(run)
    ensures var r := Do(v, run, job, uploaded, created);
      Linked(r) && Extends(run, r)
  {
    match job
    case Say(text, chunk) => TextLinked(v, run, text, created);
    case Show(f) => ImageLinked(v, run, f, uploaded, created);
  }

  /** The body loop keeps a thread well linked and only appends posts. */
  lemma {:induction false} RunJobsLinked(v: Variant, run: Run, jobs: seq<Job>, uploaded: string -> bool, created: nat -> Option<Ref>)
    requires Linked(run)
    ensures var r := RunJobs(v, run, jobs, uploaded, created);
      Linked(r) && |r.posts| >= |run.posts| && r.posts[..|run.posts|] == run.posts && r.refs[0] == run.refs[0]
    decreases |jobs|
  {
    if jobs != [] && !run.crashed {
      var next := Do(v, run, jobs[0], uploaded, created);
      DoLinked(v, run, jobs[0], uploaded, created);
      RunJobsLinked(v, next, jobs[1..], uploaded, created);
      var r := RunJobs(v, next, jobs[1..], uploaded, created);
      assert r.posts[..|run.posts|] == r.posts[..|next.posts|][..|run.posts|];
    }
  }

  /** The body loop and the closing keep a thread well linked, with the same first post. */
  lemma BodyLinked(v: Variant, h: Run, jobs: seq<Job>, closing: string, uploaded: string -> bool, created: nat -> Option<Ref>)
    requires Linked(h)
    ensures var r := Closing(v, RunJobs(v, h, jobs, uploaded, created), closing, created);
      Linked(r) && r.posts[0] == h.posts[0] && r.refs[0] == h.refs[0]
  {
    RunJobsLinked(v, h, jobs, uploaded, created);
    var r := RunJobs(v, h, jobs, uploaded, created);
    assert r.posts[0] == r.posts[..|h.posts|][0];
    if !r.crashed && closing != "" {
      TextLinked(v, r, closing, created);
      var c := PostText(v, r, closing, created);
      assert c.posts[0] == c.posts[..|r.posts|][0];
      assert c.refs[0] == c.refs[..|r.refs|][0];
    }
  }

  /**
   * With a head post created, the whole run is one well-linked thread
   * rooted at the head: `root` is the head's reference and every later post
   * replies to it, with the post created before it as parent.
   */
  lemma HeadedThread(v: Variant, content: string, uploaded: string -> bool, created: nat -> Option<Ref>)
    requires Segment.SplitDocument(content).head != "" && created(0).Some?
    ensures var r := Publish(v, content, uploaded, created);
      && Linked(r)
      && r.posts[0] == Post(Segment.SplitDocument(content).head, None, None)
      && r.refs[0] == created(0).value
  {
    var doc := Segment.SplitDocument(content);
    var jobs := Jobs(v, Segment.SplitLinesWithImages(doc.body, v != Current));
    var h := AfterHead(v, doc.head, created);
    assert Linked(h) && h.posts[0] == Post(doc.head, None, None) && h.refs[0] == created(0).value;
    BodyLinked(v, h, jobs, doc.closing, uploaded, created);
  }

  /**
   * An image that is missing or fails to compress, upload or post leaves
   * the thread as it was: no post, same `root`, `parent` and `prev_text`.
   */
  lemma ImageSkipped(v: Variant, run: Run, f: string, uploaded: string -> bool, created: nat -> Option<Ref>)
    requires !uploaded(f) || Link(run.cursor).Raises? || created(run.calls).None?
    ensures var r := PostImage(v, run, f, uploaded, created);
      r.posts == run.posts && r.refs == run.refs && r.cursor == run.cursor && !(r.crashed && !run.crashed)
  {
  }

  /**
   * Once the reply field cannot be built, nothing more is posted: every
   * image is skipped and the first text chunk ends `main`.
   */
  lemma {:induction false} StuckRun(v: Variant, run: Run, jobs: seq<Job>, uploaded: string -> bool, created: nat -> Option<Ref>)
    requires Link(run.cursor).Raises?
    ensures var r := RunJobs(v, run, jobs, uploaded, created);
      && r.posts == run.posts && r.cursor == run.cursor
      && (r.crashed <==> run.crashed || exists k :: 0 <= k < |jobs| && jobs[k].Say?)
    decreases |jobs|
  {
    if jobs != [] && !run.crashed {
      var next := Do(v, run, jobs[0], uploaded, created);
      if jobs[0].Show? {
        StuckRun(v, next, jobs[1..], uploaded, created);
        if exists k :: 0 <= k < |jobs[1..]| && jobs[1..][k].Say? {
          var k :| 0 <= k < |jobs[1..]| && jobs[1..][k].Say?;
          assert jobs[k + 1].Say?;
        }
        if exists k :: 0 <= k < |jobs| && jobs[k].Say? {
          var k :| 0 <= k < |jobs| && jobs[k].Say?;
          assert jobs[1..][k - 1].Say?;
        }
      } else {
        assert jobs[0].Say?;
      }
    }
  }

  /**
   * main_backup.py and main.py with a blank head: the first text chunk is
   * posted without a reply field, but `root` stays `None`, so the reply
   * field of the next post cannot be built. That post and everything after
   * it is lost: later images are skipped, and the next text chunk or the
   * closing raises.
   */
  lemma HeadlessThreadBreaks(v: Variant, jobs: seq<Job>, uploaded: string -> bool, created: nat -> Option<Ref>)
    requires v == Backup || v == Current
    requires jobs != [] && jobs[0].Say? && created(0).Some?
    ensures var r := RunJobs(v, AfterHead(v, "", created), jobs, uploaded, created);
      && |r.posts| == 1 && r.posts[0].reply == None
      && Link(r.cursor).Raises?
      && (r.crashed <==> exists k :: 1 <= k < |jobs| && jobs[k].Say?)
  {
    var first := Do(v, Begin(v), jobs[0], uploaded, created);
    assert first.cursor.root == Null && first.cursor.parent.Bound?;
    StuckRun(v, first, jobs[1..], uploaded, created);
    if exists k :: 1 <= k < |jobs| && jobs[k].Say? {
      var k :| 1 <= k < |jobs| && jobs[k].Say?;
      assert jobs[1..][k - 1].Say?;
    }
    if exists k :: 0 <= k < |jobs[1..]| && jobs[1..][k].Say? {
      var k :| 0 <= k < |jobs[1..]| && jobs[1..][k].Say?;
      assert jobs[k + 1].Say?;
    }
  }

  /**
   * main_test.py with a blank head: `parent` is never assigned, so no body
   * post is made at all; the first text chunk raises `UnboundLocalError`.
   */
  lemma HeadlessTestPostsNothing(jobs: seq<Job>, uploaded: string -> bool, created: nat -> Option<Ref>)
    ensures var r := RunJobs(Test, AfterHead(Test, "", created), jobs, uploaded, created);
      && r.posts == []
      && (r.crashed <==> exists k :: 0 <= k < |jobs| && jobs[k].Say?)
  {
    StuckRun(Test, Begin(Test), jobs, uploaded, created);
  }

  /** Before the first post, or a well-linked thread: what the corrected run keeps. */
  predicate LinkedOrEmpty(run: Run) {
    (run.posts == [] && run.refs == [] && run.cursor.root == Null && run.cursor.parent == Null) || Linked(run)
  }

  /** With the root taken from the first post created, a job keeps the corrected invariant. */
  lemma FixedDo(run: Run, job: Job, uploaded: string -> bool, created: nat -> Option<Ref>)
    requires LinkedOrEmpty(run)
    ensures LinkedOrEmpty(Do(Fixed, run, job, uploaded, created))
  {
    if Linked(run) {
      DoLinked(Fixed, run, job, uploaded, created);
    }
  }

  lemma {:induction false} FixedRunJobs(run: Run, jobs: seq<Job>, uploaded: string -> bool, created: nat -> Option<Ref>)
    requires LinkedOrEmpty(run)
    ensures LinkedOrEmpty(RunJobs(Fixed, run, jobs, uploaded, created))
    decreases |jobs|
  {
    if jobs != [] && !run.crashed {
      FixedDo(run, jobs[0], uploaded, created);
      FixedRunJobs(Do(Fixed, run, jobs[0], uploaded, created), jobs[1..], uploaded, created);
    }
  }

  /**
   * The corrected run: whatever the head, every run that posts anything is
   * one well-linked thread rooted at its first post.
   */
  lemma FixedThread(content: string, uploaded: string -> bool, created: nat -> Option<Ref>)
    ensures var r := Publish(Fixed, content, uploaded, created);
      r.posts != [] ==> Linked(r)
  {
    var doc := Segment.SplitDocument(content);
    var jobs := Jobs(Fixed, Segment.SplitLinesWithImages(doc.body, true));
    var h := AfterHead(Fixed, doc.head, created);
    FixedHead(doc.head, created);
    FixedRunJobs(h, jobs, uploaded, created);
    FixedClosing(RunJobs(Fixed, h, jobs, uploaded, created), doc.closing, uploaded, created);
  }

  lemma FixedHead(head: string, created: nat -> Option<Ref>)
    ensures LinkedOrEmpty(AfterHead(Fixed, head, created))
  {
    assert LinkedOrEmpty(Begin(Fixed));
  }

  lemma FixedClosing(run: Run, closing: string, uploaded: string -> bool, created: nat -> Option<Ref>)
    requires LinkedOrEmpty(run)
    ensures LinkedOrEmpty(Closing(Fixed, run, closing, created))
  {
    if !run.crashed && closing != "" {
      FixedDo(run, Say(closing, closing), uploaded, created);
    }
  }

  /**
   * main.py captions an image with the text chunk posted just before it,
   * when that chunk is non-empty and at most 300 characters; the other files
   * always use the file name.
   */
  lemma CaptionAfterChunk(v: Variant, run: Run, text: string, chunk: string, f: string, uploaded: string -> bool, created: nat -> Option<Ref>)
    requires Linked(run) && !run.crashed && uploaded(f)
    requires created(run.calls).Some? && created(run.calls + 1).Some?
    ensures var r := Do(v, Do(v, run, Say(text, chunk), uploaded, created), Show(f), uploaded, created);
      && |r.posts| == |run.posts| + 2
      && r.posts[|run.posts|].text == text
      && r.posts[|run.posts| + 1].image == Some(f)
      && r.posts[|run.posts| + 1].text ==
           if v == Current && chunk != [] && |chunk| <= Chunking.MaxLength then chunk else CaptionPrefix + f
  {
    DoLinked(v, run, Say(text, chunk), uploaded, created);
  }

  /** After an image post `prev_text` is cleared, so a second image in a row is captioned with its file name. */
  lemma CaptionAfterImage(v: Variant, run: Run, f: string, g: string, uploaded: string -> bool, created: nat -> Option<Ref>)
    requires Linked(run) && !run.crashed && uploaded(f) && uploaded(g)
    requires created(run.calls).Some? && created(run.calls + 1).Some?
    ensures var r := Do(v, Do(v, run, Show(f), uploaded, created), Show(g), uploaded, created);
      && |r.posts| == |run.posts| + 2
      && r.posts[|run.posts| + 1].image == Some(g)
      && r.posts[|run.posts| + 1].text == CaptionPrefix + g
  {
    DoLinked(v, run, Show(f), uploaded, created);
  }

  /** Every text job publishes its chunk verbatim in main.py and reassembled (links moved to the end) elsewhere. */
  lemma {:induction false} JobsText(v: Variant, blocks: seq<Segment.Block>)
    ensures forall k :: 0 <= k < |Jobs(v, blocks)| && Jobs(v, blocks)[k].Say? ==>
      Jobs(v, blocks)[k].text == (if v == Current then Jobs(v, blocks)[k].chunk else Reassembly.Reassemble(Jobs(v, blocks)[k].chunk))
    decreases |blocks|
  {
    if blocks != [] {
      JobsText(v, blocks[1..]);
    }
  }
}
