/**
 * Answering mentions (main_test.py): `handle_mention`, which decides the one
 * reply to a mention, and the body of the loop of `process_mentions`, which
 * filters a notification through the store before answering it.
 *
 * Everything the two functions get from outside is a parameter: the random
 * picks, the reply chunk and the reply image the content loaders produce,
 * the answer files, whether `create_record` succeeds, the date and the
 * owner's DID.
 */
module Dispatch {
  import opened Wrappers
  import opened Text
  import opened Records
  import opened Store
  import opened Moderation
  import opened Intent

  // ---------------------------------------------------------------------------
  // handle_mention

  const TextFallback: string := "⚠️ 텍스트 응답이 현재 준비되어 있지 않습니다. 나중에 다시 시도해주세요."
  const ImageReplyText: string := "📷 요청하신 이미지를 첨부합니다."
  const AmbiguousReply: string := "⚠️ 텍스트와 이미지 요청이 동시에 감지되었습니다. 한 번에 하나씩 요청해주세요."

  /**
   * What the world supplies for one notification.
   * - `logPick`, `replyPick`: the two independent `random.choice` picks of an
   *   NG message, in `process_mentions` and in `handle_mention`;
   * - `chunk`: the result of `load_random_reply_chunk()`;
   * - `image`: the file name of the reply image, when one was found,
   *   compressed and uploaded (`None` when any of that failed);
   * - `answers`: the answer files present, by name, with their contents;
   * - `posted`: whether `create_record` succeeds (every call of the step alike);
   * - `earlier`: the target of the unblock notice that an earlier
   *   notification of the same run left in the loop variable `post`.
   */
  datatype Env = Env(
    logPick: nat,
    replyPick: nat,
    chunk: Option<string>,
    image: Option<string>,
    answers: map<string, string>,
    posted: bool,
    earlier: Option<string>)

  /** A reply to be created: its text and the file name of an attached image. */
  datatype Draft = Draft(text: string, image: Option<string>)

  /**
   * The decision of `handle_mention`: at most one draft, and whether a
   * failure to create it is caught inside `handle_mention` (the reply-chunk
   * and image branches wrap the call in `try`).
   */
  datatype Action = Action(draft: Option<Draft>, guarded: bool)

  /** `if ng_message:`: an NG keyword was found and the message picked for it is not empty. */
  predicate Flagged(rules: seq<Rule>, text: string, pick: nat)
    requires Moderation.WellFormed(rules)
  {
    CheckNg(rules, text, pick).Some? && CheckNg(rules, text, pick).value.message != []
  }

  /** The NG message `handle_mention` replies with, when the mention is flagged. */
  function NgReply(rules: seq<Rule>, text: string, pick: nat): (m: Option<string>)
    requires Moderation.WellFormed(rules)
    ensures m.Some? <==> Flagged(rules, text, pick)
    ensures m.Some? ==> m.value != [] && m.value == CheckNg(rules, text, pick).value.message
  {
    if Flagged(rules, text, pick) then Some(CheckNg(rules, text, pick).value.message) else None
  }

  /** `handle_mention(text, ...)`; every reply it creates has non-empty text. */
  function HandleMention(rules: seq<Rule>, text: string, env: Env): (a: Action)
    requires Moderation.WellFormed(rules)
    ensures a.draft.Some? ==> a.draft.value.text != []
  {
    Respond(NgReply(rules, text, env.replyPick), ClassifyRequest(text), QuestionMention(text, env.answers), env)
  }

  /** `handle_mention` answers by the NG message found, the kind of request and the answer to a question. */
  lemma HandleIsRespond(rules: seq<Rule>, text: string, env: Env)
    requires Moderation.WellFormed(rules)
    ensures HandleMention(rules, text, env) ==
      Respond(NgReply(rules, text, env.replyPick), ClassifyRequest(text), QuestionMention(text, env.answers), env)
  {
  }

  /**
   * The branches of `handle_mention`, given the NG message found, the kind
   * of request and the answer `question_mention` would give.
   */
  function Respond(ng: Option<string>, kind: Option<Request>, answer: string, env: Env): (a: Action)
    requires ng.Some? ==> ng.value != []
    ensures a.draft.Some? ==> a.draft.value.text != []
  {
    if ng.Some? then Action(Some(Draft(ng.value, None)), false)
    else
      match kind
      case Some(ReplyText) =>
        if env.chunk.Some? && env.chunk.value != [] then Action(Some(Draft(env.chunk.value, None)), true)
        else Action(Some(Draft(TextFallback, None)), false)
      case Some(ReplyImage) =>
        if env.image.Some? then Action(Some(Draft(ImageReplyText, env.image)), true)
        else Action(None, true)
      case Some(ReplyQuestion) =>
        if Postable(answer) then Action(Some(Draft(answer, None)), false) else Action(None, false)
      case Some(Ambiguous) => Action(Some(Draft(AmbiguousReply, None)), false)
      case None => Action(None, false)
  }

  /** A flagged mention is answered with a message of the category of the first NG keyword found. */
  lemma HandleFlagged(rules: seq<Rule>, text: string, env: Env)
    requires Moderation.WellFormed(rules) && Flagged(rules, text, env.replyPick)
    ensures HandleMention(rules, text, env).draft.Some? && !HandleMention(rules, text, env).guarded
    ensures var d := HandleMention(rules, text, env).draft.value;
      && d.image == None
      && exists r: nat, k: nat :: (FirstHit(rules, text, r, k) && d.text in rules[r].messages)
  {
    CheckNgFirst(rules, text, env.replyPick);
  }

  /**
   * A mention that is not flagged gets no reply exactly when it requests
   * nothing, or an image and none could be uploaded, or an answer to a
   * question and the answer is one that is not posted. (`ClassifySpec`
   * says which keywords make which request.)
   */
  lemma HandleSilent(rules: seq<Rule>, text: string, env: Env)
    requires Moderation.WellFormed(rules) && !Flagged(rules, text, env.replyPick)
    ensures var kind := ClassifyRequest(text);
      HandleMention(rules, text, env).draft.None? <==>
        || kind == None
        || (kind == Some(ReplyImage) && env.image.None?)
        || (kind == Some(ReplyQuestion) && !Postable(QuestionMention(text, env.answers)))
  {
    HandleIsRespond(rules, text, env);
    RespondSilent(NgReply(rules, text, env.replyPick), ClassifyRequest(text), QuestionMention(text, env.answers), env);
  }

  lemma RespondSilent(ng: Option<string>, kind: Option<Request>, answer: string, env: Env)
    requires ng.Some? ==> ng.value != []
    ensures Respond(ng, kind, answer, env).draft.None? <==>
      && ng.None?
      && (|| kind == None
          || (kind == Some(ReplyImage) && env.image.None?)
          || (kind == Some(ReplyQuestion) && !Postable(answer)))
  {
  }

  /**
   * A question that matches no rule, or whose answer file is blank, gets no
   * reply; a question whose answer file is missing is answered with the
   * missing-file notice.
   */
  lemma HandleQuestionSentinels(rules: seq<Rule>, text: string, env: Env)
    requires Moderation.WellFormed(rules) && !Flagged(rules, text, env.replyPick)
    requires ClassifyRequest(text) == Some(ReplyQuestion)
    ensures var answer := QuestionMention(text, env.answers);
      answer == NoMatchReply || answer == EmptyFileReply ==> HandleMention(rules, text, env).draft.None?
    ensures QuestionMention(text, env.answers) == MissingFileReply ==>
      HandleMention(rules, text, env).draft == Some(Draft(MissingFileReply, None))
  {
    var answer := QuestionMention(text, env.answers);
    QuestionPosted(rules, text, env);
    SentinelsPosted();
  }

  /** An unflagged question is answered exactly when its answer is postable. */
  lemma QuestionPosted(rules: seq<Rule>, text: string, env: Env)
    requires Moderation.WellFormed(rules) && !Flagged(rules, text, env.replyPick)
    requires ClassifyRequest(text) == Some(ReplyQuestion)
    ensures var answer := QuestionMention(text, env.answers);
      HandleMention(rules, text, env).draft == if Postable(answer) then Some(Draft(answer, None)) else None
  {
    HandleIsRespond(rules, text, env);
    assert NgReply(rules, text, env.replyPick) == None;
  }

  /** Which fixed answer `question_mention` gives, by the first rule that matches and the state of its file. */
  lemma QuestionSentinels(text: string, answers: map<string, string>)
    ensures FirstRule(QuestionRules, MentionWords(text)).None? ==> QuestionMention(text, answers) == NoMatchReply
    ensures var r := FirstRule(QuestionRules, MentionWords(text));
      r.Some? && QuestionRules[r.value].file !in answers ==> QuestionMention(text, answers) == MissingFileReply
    ensures var r := FirstRule(QuestionRules, MentionWords(text));
      r.Some? && QuestionRules[r.value].file in answers && Strip(answers[QuestionRules[r.value].file]) == [] ==>
        QuestionMention(text, answers) == EmptyFileReply
  {
  }

  // ---------------------------------------------------------------------------
  // process_mentions, one notification

  /** What `listNotifications` reports: reason, CID, author DID, URI and text of the record. */
  datatype Notification = Notification(reason: string, cid: string, author: string, uri: string, text: string)

  /** The store of main_test.py, one value per file. */
  datatype Bot = Bot(processed: seq<string>, ignored: seq<string>, counts: Counts, history: History)

  /**
   * Where the step ends: it finishes, with the unblock notices it posted
   * and its replies to the mention, or an exception escapes it and ends
   * `process_mentions`.
   */
  datatype Outcome = Done(bot: Bot, notices: seq<Post>, posts: seq<Post>) | Failed(bot: Bot)

  /**
   * `AsWritten`: `add_to_ignored_dids` is undefined, so calling it raises
   * `NameError`; the owner's command unblocks the first `@` mention of the
   * text, which is the bot's own handle when the command is addressed to it,
   * and ends with a second `create_record` of the unblock notice outside the
   * `if match:`. `Intended`: the helper appends the DIDs to the ignored
   * file, the command unblocks the first `@did:` mention, and the notice is
   * created once.
   */
  datatype Build = AsWritten | Intended

  /** The daily number of counted mentions after which an author is ignored. */
  const DailyLimit: nat := 10

  /** The phrase of the owner's unblock command. */
  const UnblockCommand: string := "블랙리스트 해제"

  /** The prefix of a DID. */
  const DidPrefix: string := "did:"

  /** `[a-zA-Z0-9_.:-]`, the characters of an unblock target. */
  predicate IsTargetChar(c: char) {
    ('a' <= c <= 'z') || ('A' <= c <= 'Z') || ('0' <= c <= '9') || c == '_' || c == '.' || c == ':' || c == '-'
  }

  /** Length of the longest run of target characters starting at `j`. */
  function TargetRun(s: string, j: nat): (n: nat)
    requires j <= |s|
    ensures j + n <= |s|
    ensures forall k :: j <= k < j + n ==> IsTargetChar(s[k])
    ensures j + n == |s| || !IsTargetChar(s[j + n])
    decreases |s| - j
  {
    if j < |s| && IsTargetChar(s[j]) then 1 + TargetRun(s, j + 1) else 0
  }

  /**
   * The target pattern matches at `j`: an `@` followed by one or more target
   * characters, which for the intended pattern `@(did:[a-zA-Z0-9_.:-]+)`
   * begin with `did:`. The pattern is greedy, so the target is the whole run.
   */
  predicate MatchAt(build: Build, s: string, j: nat)
    requires j < |s|
  {
    && s[j] == '@'
    && TargetRun(s, j + 1) > (if build == AsWritten then 0 else |DidPrefix|)
    && (build == Intended ==> s[j + 1..j + 1 + |DidPrefix|] == DidPrefix)
  }

  /** Group 1 of the leftmost match of the target pattern at or after index `i`. */
  function TargetFrom(build: Build, s: string, i: nat): Option<string>
    requires i <= |s|
    decreases |s| - i
  {
    if i == |s| then None
    else if MatchAt(build, s, i) then Some(s[i + 1..i + 1 + TargetRun(s, i + 1)])
    else TargetFrom(build, s, i + 1)
  }

  /**
   * `re.search(r"@([a-zA-Z0-9_.:-]+)", text)`, or its intended DID-only form:
   * the DID or handle the owner's command unblocks.
   */
  function UnblockTarget(build: Build, text: string): Option<string> {
    TargetFrom(build, text, 0)
  }

  /** The notice posted, as a post of its own, when `target` is unblocked. */
  function Notice(target: string): Post {
    Post("✅ @" + target + " 블랙리스트에서 해제되었습니다.", None, None)
  }

  /** The store after the owner branch, the notices it posted, and whether it raised. */
  datatype Owned = Owned(bot: Bot, notices: seq<Post>, raised: bool)

  /**
   * The owner's unblock command: the target is removed from the ignored
   * file and the notice is created. As written the notice is created a
   * second time after the `if match:`; with no target that second call
   * reposts the notice an earlier notification of the same run left in
   * `post` (`earlier`), or raises `UnboundLocalError` when there is none.
   */
  function OwnerBranch(build: Build, b: Bot, text: string, earlier: Option<string>, posted: bool): (u: Owned)
    ensures !u.raised ==> forall p :: p in u.notices ==> p.reply == None
    ensures u.bot == b.(ignored := u.bot.ignored)
  {
    match UnblockTarget(build, text)
    case Some(t) =>
      var b' := b.(ignored := RemoveFromIgnoredDids(b.ignored, t));
      if !posted then Owned(b', [], true)
      else if build == AsWritten then Owned(b', [Notice(t), Notice(t)], false)
      else Owned(b', [Notice(t)], false)
    case None =>
      if build == Intended then Owned(b, [], false)
      else if earlier.None? || !posted then Owned(b, [], true)
      else Owned(b, [Notice(earlier.value)], false)
  }

  function Mark(bot: Bot, cid: string): Bot {
    bot.(processed := MarkCidProcessed(bot.processed, cid))
  }

  /** A reply to the mention: root and parent are both the mention. */
  function ReplyTo(d: Draft, n: Notification): Post {
    Post(d.text, d.image, Some(ReplyRef(Ref(n.cid, n.uri), Ref(n.cid, n.uri))))
  }

  /** The reply created for decision `a`: one when there is a draft and posting succeeds. */
  function Replies(a: Action, posted: bool, n: Notification): seq<Post> {
    if a.draft.Some? && posted then [ReplyTo(a.draft.value, n)] else []
  }

  /**
   * `handle_mention(...)` then `mark_cid_processed(cid)`, given the decision
   * `a` of `handle_mention` and whether `create_record` succeeds: the step
   * finishes with the CID marked, or fails with the store as it was; either
   * way only the processed file can change.
   */
  function Answer(bot: Bot, n: Notification, a: Action, posted: bool, notices: seq<Post>): (o: Outcome)
    ensures o.Done? || o.Failed?
    ensures o.Done? ==> o.bot == Mark(bot, n.cid) && o.notices == notices && |o.posts| <= 1
    ensures o.Failed? ==> o.bot == bot
  {
    if a.draft.None? then Done(Mark(bot, n.cid), notices, [])
    else if posted then Done(Mark(bot, n.cid), notices, [ReplyTo(a.draft.value, n)])
    else if a.guarded then Done(Mark(bot, n.cid), notices, [])
    else Failed(bot)
  }

  /**
   * The body of the loop of `process_mentions` for one notification, on
   * date `today`; `owner` is `BLUESKY_DID`. A step that finishes replies at
   * most once, to the mention itself; only the owner's command posts
   * notices, which reply to nothing.
   */
  function Step(build: Build, rules: seq<Rule>, bot: Bot, n: Notification, today: string, owner: Option<string>, env: Env): (o: Outcome)
    requires Moderation.WellFormed(rules)
    ensures o.Done? ==> |o.posts| <= 1
    ensures o.Done? ==> forall p :: p in o.posts ==> p.reply == Some(ReplyRef(Ref(n.cid, n.uri), Ref(n.cid, n.uri)))
    ensures o.Done? ==> forall p :: p in o.notices ==> p.reply == None
    ensures o.Done? && o.notices != [] ==> owner == Some(n.author) && Contains(n.text, UnblockCommand)
  {
    Route(build, bot, n, today, owner, Flagged(rules, n.text, env.logPick), HandleMention(rules, n.text, env), env.posted, env.earlier)
  }

  /** The step routes on the flag of `check_ng` and the decision of `handle_mention`. */
  lemma StepIsRoute(build: Build, rules: seq<Rule>, bot: Bot, n: Notification, today: string, owner: Option<string>, env: Env)
    requires Moderation.WellFormed(rules)
    ensures Step(build, rules, bot, n, today, owner, env) ==
      Route(build, bot, n, today, owner, Flagged(rules, n.text, env.logPick), HandleMention(rules, n.text, env), env.posted, env.earlier)
  {
  }

  /**
   * The branches of the loop body, given whether `check_ng` flags the text,
   * the decision of `handle_mention`, whether `create_record` succeeds and
   * the notice left in `post` by an earlier notification. The owner's
   * command has no `continue`: after its branch the mention is counted and
   * answered like any other.
   */
  function Route(build: Build, bot: Bot, n: Notification, today: string, owner: Option<string>,
                 flagged: bool, a: Action, posted: bool, earlier: Option<string>): (o: Outcome)
    ensures o.Done? ==> |o.posts| <= 1
    ensures o.Done? ==> forall p :: p in o.posts ==> p.reply == Some(ReplyRef(Ref(n.cid, n.uri), Ref(n.cid, n.uri)))
    ensures o.Done? ==> forall p :: p in o.notices ==> p.reply == None
    ensures o.Done? && o.notices != [] ==> owner == Some(n.author) && Contains(n.text, UnblockCommand)
  {
    if n.reason != "mention" then Done(bot, [], [])
    else if IsAlreadyProcessed(bot.processed, n.cid) then Done(bot, [], [])
    else
      var seen := IsDuplicateMentionText(bot.history, today, n.author, n.text);
      var b := bot.(history := seen.1);
      if seen.0 then Done(Mark(b, n.cid), [], [])
      else if IsIgnoredDid(b.ignored, n.author) then Done(Mark(b, n.cid), [], [])
      else Proceed(build, b, n, today, owner, flagged, a, posted, earlier)
  }

  /**
   * The rest of the loop body once a mention passed the filters: the
   * blocked-word check, the owner's command, the count and the answer. The
   * processed file is unchanged when it fails and gains the CID when it
   * finishes; the author's log of the day only grows, and no other count or
   * log changes.
   */
  function Proceed(build: Build, b: Bot, n: Notification, today: string, owner: Option<string>,
                   flagged: bool, a: Action, posted: bool, earlier: Option<string>): (o: Outcome)
    ensures o.Done? ==> |o.posts| <= 1
    ensures o.Done? ==> forall p :: p in o.posts ==> p.reply == Some(ReplyRef(Ref(n.cid, n.uri), Ref(n.cid, n.uri)))
    ensures o.Done? ==> forall p :: p in o.notices ==> p.reply == None
    ensures o.Done? && o.notices != [] ==> owner == Some(n.author) && Contains(n.text, UnblockCommand)
    ensures o.Failed? ==> o.bot.processed == b.processed
    ensures o.Done? ==> o.bot.processed == MarkCidProcessed(b.processed, n.cid)
    ensures Logged(b.history, today, n.author) <= Logged(o.bot.history, today, n.author)
    ensures forall day, did :: (day != today || did != n.author) ==>
      Count(o.bot.counts, day, did) == Count(b.counts, day, did) && Logged(o.bot.history, day, did) == Logged(b.history, day, did)
  {
    if flagged then
      if build == AsWritten then Failed(b)
      else Answer(b.(ignored := AddToIgnoredDids(b.ignored, [n.author])), n, a, posted, [])
    else if owner == Some(n.author) && Contains(n.text, UnblockCommand) then
      var u := OwnerBranch(build, b, n.text, earlier, posted);
      if u.raised then Failed(u.bot) else Counted(build, u.bot, n, today, a, posted, u.notices)
    else Counted(build, b, n, today, a, posted, [])
  }

  /**
   * `track_mention_count` and what follows: over the daily limit the author
   * is ignored and the mention is not answered; otherwise it is logged and
   * answered.
   */
  function Counted(build: Build, b: Bot, n: Notification, today: string, a: Action, posted: bool, notices: seq<Post>): (o: Outcome)
    ensures o.Done? ==> |o.posts| <= 1 && o.notices == notices
    ensures o.Done? ==> forall p :: p in o.posts ==> p.reply == Some(ReplyRef(Ref(n.cid, n.uri), Ref(n.cid, n.uri)))
    ensures o.Failed? ==> o.bot.processed == b.processed
    ensures o.Done? ==> o.bot.processed == MarkCidProcessed(b.processed, n.cid)
    ensures Logged(b.history, today, n.author) <= Logged(o.bot.history, today, n.author)
    ensures forall day, did :: (day != today || did != n.author) ==>
      Count(o.bot.counts, day, did) == Count(b.counts, day, did) && Logged(o.bot.history, day, did) == Logged(b.history, day, did)
  {
    var counted := TrackMentionCount(b.counts, today, n.author);
    var c := b.(counts := counted.1);
    if counted.0 > DailyLimit then
      if build == AsWritten then Failed(c)
      else Done(Mark(c.(ignored := AddToIgnoredDids(c.ignored, [n.author])), n.cid), notices, [])
    else Answer(c.(history := LogMention(c.history, today, n.author, n.text)), n, a, posted, notices)
  }

  /** The notification got past the processed, duplicate and ignored filters. */
  predicate Fresh(bot: Bot, n: Notification, today: string) {
    && n.reason == "mention"
    && !IsAlreadyProcessed(bot.processed, n.cid)
    && Strip(n.text) !in Logged(bot.history, today, n.author)
    && !IsIgnoredDid(bot.ignored, n.author)
  }

  // ---------------------------------------------------------------------------
  // Properties

  /**
   * The filters, in order: a notification that is not a mention, or whose
   * CID is processed, changes nothing and is not answered; a repeated text
   * is then marked processed unanswered, before the author is looked up;
   * an ignored author's mention is marked processed unanswered.
   */
  lemma FilterOrder(build: Build, rules: seq<Rule>, bot: Bot, n: Notification, today: string, owner: Option<string>, env: Env)
    requires Moderation.WellFormed(rules)
    ensures n.reason != "mention" || IsAlreadyProcessed(bot.processed, n.cid) ==>
      Step(build, rules, bot, n, today, owner, env) == Done(bot, [], [])
    ensures n.reason == "mention" && !IsAlreadyProcessed(bot.processed, n.cid) && Strip(n.text) in Logged(bot.history, today, n.author) ==>
      Step(build, rules, bot, n, today, owner, env) == Done(Mark(bot, n.cid), [], [])
    ensures n.reason == "mention" && !IsAlreadyProcessed(bot.processed, n.cid) && IsIgnoredDid(bot.ignored, n.author) ==>
      && Step(build, rules, bot, n, today, owner, env).Done?
      && Step(build, rules, bot, n, today, owner, env).posts == []
      && Step(build, rules, bot, n, today, owner, env).bot.processed == MarkCidProcessed(bot.processed, n.cid)
      && Step(build, rules, bot, n, today, owner, env).bot.ignored == bot.ignored
      && Step(build, rules, bot, n, today, owner, env).bot.counts == bot.counts
  {
    StepIsRoute(build, rules, bot, n, today, owner, env);
    RouteFilters(build, bot, n, today, owner, Flagged(rules, n.text, env.logPick), HandleMention(rules, n.text, env), env.posted, env.earlier);
  }

  lemma RouteFilters(build: Build, bot: Bot, n: Notification, today: string, owner: Option<string>, flagged: bool, a: Action, posted: bool, earlier: Option<string>)
    ensures var o := Route(build, bot, n, today, owner, flagged, a, posted, earlier);
      && (n.reason != "mention" || IsAlreadyProcessed(bot.processed, n.cid) ==> o == Done(bot, [], []))
      && (n.reason == "mention" && !IsAlreadyProcessed(bot.processed, n.cid) && Strip(n.text) in Logged(bot.history, today, n.author) ==>
            o == Done(Mark(bot, n.cid), [], []))
      && (n.reason == "mention" && !IsAlreadyProcessed(bot.processed, n.cid) && IsIgnoredDid(bot.ignored, n.author) ==>
            && o.Done? && o.posts == []
            && o.bot.processed == MarkCidProcessed(bot.processed, n.cid)
            && o.bot.ignored == bot.ignored
            && o.bot.counts == bot.counts)
  {
  }

  /**
   * As written, a flagged mention makes the step fail at the undefined
   * `add_to_ignored_dids`: nothing is posted, the CID is not marked, the
   * author is not ignored and the count is unchanged; only the text was
   * recorded.
   */
  lemma FlaggedAsWritten(rules: seq<Rule>, bot: Bot, n: Notification, today: string, owner: Option<string>, env: Env)
    requires Moderation.WellFormed(rules) && Fresh(bot, n, today) && Flagged(rules, n.text, env.logPick)
    ensures var o := Step(AsWritten, rules, bot, n, today, owner, env);
      && o.Failed?
      && o.bot.processed == bot.processed
      && o.bot.ignored == bot.ignored
      && o.bot.counts == bot.counts
      && Logged(o.bot.history, today, n.author) == Logged(bot.history, today, n.author) + [Strip(n.text)]
  {
    StepIsRoute(AsWritten, rules, bot, n, today, owner, env);
    RouteFlaggedAsWritten(bot, n, today, owner, HandleMention(rules, n.text, env), env.posted, env.earlier);
  }

  lemma RouteFlaggedAsWritten(bot: Bot, n: Notification, today: string, owner: Option<string>, a: Action, posted: bool, earlier: Option<string>)
    requires Fresh(bot, n, today)
    ensures var o := Route(AsWritten, bot, n, today, owner, true, a, posted, earlier);
      && o.Failed?
      && o.bot.processed == bot.processed
      && o.bot.ignored == bot.ignored
      && o.bot.counts == bot.counts
      && Logged(o.bot.history, today, n.author) == Logged(bot.history, today, n.author) + [Strip(n.text)]
  {
  }

  /**
   * With the helper defined, a flagged mention ignores its author, is
   * answered once (with a message of the category found) when posting
   * succeeds, and is marked processed; it is not counted.
   */
  lemma FlaggedIntended(rules: seq<Rule>, bot: Bot, n: Notification, today: string, owner: Option<string>, env: Env)
    requires Moderation.WellFormed(rules) && Fresh(bot, n, today) && Flagged(rules, n.text, env.logPick)
    requires Flagged(rules, n.text, env.replyPick) && Strip(n.author) != []
    ensures var o := Step(Intended, rules, bot, n, today, owner, env);
      && (o.Done? <==> env.posted)
      && (o.Done? ==> |o.posts| == 1 && o.bot.processed == MarkCidProcessed(bot.processed, n.cid))
      && (o.Done? ==> exists r: nat, k: nat :: (FirstHit(rules, n.text, r, k) && o.posts[0].text in rules[r].messages))
      && IsIgnoredDid(o.bot.ignored, n.author)
      && o.bot.counts == bot.counts
  {
    var a := HandleMention(rules, n.text, env);
    HandleFlagged(rules, n.text, env);
    StepIsRoute(Intended, rules, bot, n, today, owner, env);
    RouteFlaggedIntended(bot, n, today, owner, a, env.posted, env.earlier);
  }

  lemma RouteFlaggedIntended(bot: Bot, n: Notification, today: string, owner: Option<string>, a: Action, posted: bool, earlier: Option<string>)
    requires Fresh(bot, n, today) && a.draft.Some? && !a.guarded && Strip(n.author) != []
    ensures var o := Route(Intended, bot, n, today, owner, true, a, posted, earlier);
      && (o.Done? <==> posted)
      && (o.Done? ==> o.posts == [ReplyTo(a.draft.value, n)] && o.bot.processed == MarkCidProcessed(bot.processed, n.cid))
      && IsIgnoredDid(o.bot.ignored, n.author)
      && o.bot.counts == bot.counts
  {
    var b := bot.(history := IsDuplicateMentionText(bot.history, today, n.author, n.text).1);
    AddToIgnoredDidsSpec(b.ignored, [n.author], n.author);
    MarkCidProcessedSpec(bot.processed, n.cid, Strip(n.cid));
  }

  /**
   * A mention that reaches the count when `DailyLimit` mentions of its
   * author have already been counted that day (the 11th or later) is not
   * answered: as written the step fails; with the helper defined the author
   * is ignored and the CID marked.
   */
  lemma OverDailyLimit(build: Build, rules: seq<Rule>, bot: Bot, n: Notification, today: string, owner: Option<string>, env: Env)
    requires Moderation.WellFormed(rules) && Fresh(bot, n, today) && !Flagged(rules, n.text, env.logPick)
    requires owner != Some(n.author) || !Contains(n.text, UnblockCommand)
    requires Count(bot.counts, today, n.author) >= DailyLimit
    ensures var o := Step(build, rules, bot, n, today, owner, env);
      && Count(o.bot.counts, today, n.author) == Count(bot.counts, today, n.author) + 1
      && (build == AsWritten ==> o.Failed? && o.bot.processed == bot.processed && o.bot.ignored == bot.ignored)
      && (build == Intended ==> o.Done? && o.posts == [] && o.bot.processed == MarkCidProcessed(bot.processed, n.cid))
      && (build == Intended && Strip(n.author) != [] ==> IsIgnoredDid(o.bot.ignored, n.author))
  {
    StepIsRoute(build, rules, bot, n, today, owner, env);
    RouteOverLimit(build, bot, n, today, owner, HandleMention(rules, n.text, env), env.posted, env.earlier);
  }

  lemma RouteOverLimit(build: Build, bot: Bot, n: Notification, today: string, owner: Option<string>, a: Action, posted: bool, earlier: Option<string>)
    requires Fresh(bot, n, today)
    requires owner != Some(n.author) || !Contains(n.text, UnblockCommand)
    requires Count(bot.counts, today, n.author) >= DailyLimit
    ensures var o := Route(build, bot, n, today, owner, false, a, posted, earlier);
      && Count(o.bot.counts, today, n.author) == Count(bot.counts, today, n.author) + 1
      && (build == AsWritten ==> o.Failed? && o.bot.processed == bot.processed && o.bot.ignored == bot.ignored)
      && (build == Intended ==> o.Done? && o.posts == [] && o.bot.processed == MarkCidProcessed(bot.processed, n.cid))
      && (build == Intended && Strip(n.author) != [] ==> IsIgnoredDid(o.bot.ignored, n.author))
  {
    var b := bot.(history := IsDuplicateMentionText(bot.history, today, n.author, n.text).1);
    var c := b.(counts := TrackMentionCount(b.counts, today, n.author).1);
    AddToIgnoredDidsSpec(c.ignored, [n.author], n.author);
  }

  /**
   * Under the daily limit the mention is counted, its text is logged (a
   * second time, after the duplicate filter's record), and it is answered
   * as `handle_mention` decides: one reply when there is a draft and
   * posting succeeds, a failed step when posting an unguarded draft fails.
   */
  lemma UnderDailyLimit(build: Build, rules: seq<Rule>, bot: Bot, n: Notification, today: string, owner: Option<string>, env: Env)
    requires Moderation.WellFormed(rules) && Fresh(bot, n, today) && !Flagged(rules, n.text, env.logPick)
    requires owner != Some(n.author) || !Contains(n.text, UnblockCommand)
    requires Count(bot.counts, today, n.author) < DailyLimit
    ensures var o := Step(build, rules, bot, n, today, owner, env);
      var a := HandleMention(rules, n.text, env);
      && Count(o.bot.counts, today, n.author) == Count(bot.counts, today, n.author) + 1
      && o.bot.ignored == bot.ignored
      && Logged(o.bot.history, today, n.author) == Logged(bot.history, today, n.author) + [Strip(n.text), Strip(n.text)]
      && (o.Failed? <==> a.draft.Some? && !env.posted && !a.guarded)
      && (o.Done? ==> o.bot.processed == MarkCidProcessed(bot.processed, n.cid))
      && (o.Done? ==> o.posts == Replies(a, env.posted, n))
  {
    StepIsRoute(build, rules, bot, n, today, owner, env);
    RouteUnderLimit(build, bot, n, today, owner, HandleMention(rules, n.text, env), env.posted, env.earlier);
  }

  lemma RouteUnderLimit(build: Build, bot: Bot, n: Notification, today: string, owner: Option<string>, a: Action, posted: bool, earlier: Option<string>)
    requires Fresh(bot, n, today)
    requires owner != Some(n.author) || !Contains(n.text, UnblockCommand)
    requires Count(bot.counts, today, n.author) < DailyLimit
    ensures var o := Route(build, bot, n, today, owner, false, a, posted, earlier);
      && Count(o.bot.counts, today, n.author) == Count(bot.counts, today, n.author) + 1
      && o.bot.ignored == bot.ignored
      && Logged(o.bot.history, today, n.author) == Logged(bot.history, today, n.author) + [Strip(n.text), Strip(n.text)]
      && (o.Failed? <==> a.draft.Some? && !posted && !a.guarded)
      && (o.Done? ==> o.bot.processed == MarkCidProcessed(bot.processed, n.cid))
      && (o.Done? ==> o.posts == Replies(a, posted, n))
  {
    var b := bot.(history := IsDuplicateMentionText(bot.history, today, n.author, n.text).1);
    var c := b.(counts := TrackMentionCount(b.counts, today, n.author).1);
    var d := c.(history := LogMention(c.history, today, n.author, n.text));
    assert Route(build, bot, n, today, owner, false, a, posted, earlier) == Answer(d, n, a, posted, []);
  }

  /**
   * A step that failed after the duplicate filter has recorded the text, so
   * running the same notification again marks it processed without a
   * reply: a mention whose handling raised is never answered.
   */
  lemma RetryIsSwallowed(build: Build, rules: seq<Rule>, bot: Bot, n: Notification, today: string, owner: Option<string>, env: Env, env': Env)
    requires Moderation.WellFormed(rules) && n.reason == "mention"
    requires Step(build, rules, bot, n, today, owner, env).Failed?
    ensures var b := Step(build, rules, bot, n, today, owner, env).bot;
      Step(build, rules, b, n, today, owner, env') == Done(Mark(b, n.cid), [], [])
  {
    StepIsRoute(build, rules, bot, n, today, owner, env);
    StepIsRoute(build, rules, Step(build, rules, bot, n, today, owner, env).bot, n, today, owner, env');
    RouteRetry(build, bot, n, today, owner, Flagged(rules, n.text, env.logPick), HandleMention(rules, n.text, env), env.posted, env.earlier,
      Flagged(rules, n.text, env'.logPick), HandleMention(rules, n.text, env'), env'.posted, env'.earlier);
  }

  lemma RouteRetry(build: Build, bot: Bot, n: Notification, today: string, owner: Option<string>,
                   flagged: bool, a: Action, posted: bool, earlier: Option<string>,
                   flagged': bool, a': Action, posted': bool, earlier': Option<string>)
    requires n.reason == "mention"
    requires Route(build, bot, n, today, owner, flagged, a, posted, earlier).Failed?
    ensures var b := Route(build, bot, n, today, owner, flagged, a, posted, earlier).bot;
      Route(build, b, n, today, owner, flagged', a', posted', earlier') == Done(Mark(b, n.cid), [], [])
  {
    var seen := IsDuplicateMentionText(bot.history, today, n.author, n.text);
    var b0 := bot.(history := seen.1);
    assert !IsAlreadyProcessed(bot.processed, n.cid) && !seen.0 && !IsIgnoredDid(b0.ignored, n.author);
    var o := Proceed(build, b0, n, today, owner, flagged, a, posted, earlier);
    assert Route(build, bot, n, today, owner, flagged, a, posted, earlier) == o;
    assert Logged(b0.history, today, n.author) == Logged(bot.history, today, n.author) + [Strip(n.text)];
    assert Strip(n.text) in Logged(b0.history, today, n.author);
    assert o.bot.processed == bot.processed;
    assert Strip(n.text) in Logged(o.bot.history, today, n.author);
  }

  /**
   * A mention is answered at most once: after a step that finishes, the
   * same notification (with a CID free of blanks) changes nothing.
   */
  lemma AnsweredOnce(build: Build, rules: seq<Rule>, bot: Bot, n: Notification, today: string, owner: Option<string>, env: Env, env': Env)
    requires Moderation.WellFormed(rules) && n.reason == "mention" && n.cid != [] && Strip(n.cid) == n.cid
    requires Step(build, rules, bot, n, today, owner, env).Done?
    ensures var b := Step(build, rules, bot, n, today, owner, env).bot;
      Step(build, rules, b, n, today, owner, env') == Done(b, [], [])
  {
    StepIsRoute(build, rules, bot, n, today, owner, env);
    StepIsRoute(build, rules, Step(build, rules, bot, n, today, owner, env).bot, n, today, owner, env');
    RouteOnce(build, bot, n, today, owner, Flagged(rules, n.text, env.logPick), HandleMention(rules, n.text, env), env.posted, env.earlier,
      Flagged(rules, n.text, env'.logPick), HandleMention(rules, n.text, env'), env'.posted, env'.earlier);
  }

  lemma RouteOnce(build: Build, bot: Bot, n: Notification, today: string, owner: Option<string>,
                  flagged: bool, a: Action, posted: bool, earlier: Option<string>,
                  flagged': bool, a': Action, posted': bool, earlier': Option<string>)
    requires n.reason == "mention" && n.cid != [] && Strip(n.cid) == n.cid
    requires Route(build, bot, n, today, owner, flagged, a, posted, earlier).Done?
    ensures var b := Route(build, bot, n, today, owner, flagged, a, posted, earlier).bot;
      Route(build, b, n, today, owner, flagged', a', posted', earlier') == Done(b, [], [])
  {
    var b := Route(build, bot, n, today, owner, flagged, a, posted, earlier).bot;
    if IsAlreadyProcessed(bot.processed, n.cid) {
      assert b == bot;
    } else {
      assert exists p :: b.processed == MarkCidProcessed(p, n.cid);
      var p :| b.processed == MarkCidProcessed(p, n.cid);
      MarkCidProcessedSpec(p, n.cid, n.cid);
    }
  }

  /** A step changes the counts and the history of the mention's author on `today` only. */
  lemma OthersUntouched(build: Build, rules: seq<Rule>, bot: Bot, n: Notification, today: string, owner: Option<string>, env: Env, day: string, did: string)
    requires Moderation.WellFormed(rules) && (day != today || did != n.author)
    ensures var o := Step(build, rules, bot, n, today, owner, env);
      && Count(o.bot.counts, day, did) == Count(bot.counts, day, did)
      && Logged(o.bot.history, day, did) == Logged(bot.history, day, did)
  {
    StepIsRoute(build, rules, bot, n, today, owner, env);
    RouteOthers(build, bot, n, today, owner, Flagged(rules, n.text, env.logPick), HandleMention(rules, n.text, env), env.posted, env.earlier, day, did);
  }

  lemma RouteOthers(build: Build, bot: Bot, n: Notification, today: string, owner: Option<string>,
                    flagged: bool, a: Action, posted: bool, earlier: Option<string>, day: string, did: string)
    requires day != today || did != n.author
    ensures var o := Route(build, bot, n, today, owner, flagged, a, posted, earlier);
      && Count(o.bot.counts, day, did) == Count(bot.counts, day, did)
      && Logged(o.bot.history, day, did) == Logged(bot.history, day, did)
  {
  }

  // ---------------------------------------------------------------------------
  // The owner's command

  /** `j` is the leftmost match of the target pattern at or after `i`. */
  predicate FirstMatch(build: Build, s: string, i: nat, j: nat) {
    && i <= j < |s|
    && MatchAt(build, s, j)
    && forall k :: i <= k < j ==> !MatchAt(build, s, k)
  }

  /** The search finds nothing exactly when nothing matches at or after `i`. */
  lemma {:induction false} TargetFromNone(build: Build, s: string, i: nat)
    requires i <= |s|
    ensures TargetFrom(build, s, i).None? <==> forall j :: i <= j < |s| ==> !MatchAt(build, s, j)
    decreases |s| - i
  {
    if i < |s| && !MatchAt(build, s, i) {
      TargetFromNone(build, s, i + 1);
    }
  }

  /** The search finds the run after the leftmost `@` that matches. */
  lemma {:induction false} TargetFromFirst(build: Build, s: string, i: nat, j: nat)
    requires FirstMatch(build, s, i, j)
    ensures TargetFrom(build, s, i) == Some(s[j + 1..j + 1 + TargetRun(s, j + 1)])
    decreases j - i
  {
    if i < j {
      assert !MatchAt(build, s, i);
      TargetFromFirst(build, s, i + 1, j);
    }
  }

  /** A run of `m` target characters ended by the text's end or another character has length `m`. */
  lemma RunIs(s: string, j: nat, m: nat)
    requires j + m <= |s| && forall k :: j <= k < j + m ==> IsTargetChar(s[k])
    requires j + m == |s| || !IsTargetChar(s[j + m])
    ensures TargetRun(s, j) == m
  {
  }

  /** A target character is not blank, so a run of them strips to itself. */
  lemma TargetStrips(t: string)
    requires forall k :: 0 <= k < |t| ==> IsTargetChar(t[k])
    ensures Strip(t) == t
  {
    StripOfClean(t);
  }

  /** `@` handle, then text with no `@` and not continuing the handle, then `@` DID. */
  predicate CommandShape(h: string, mid: string, d: string) {
    && |h| > 0 && (forall k :: 0 <= k < |h| ==> IsTargetChar(h[k])) && !StartsWith(h, DidPrefix)
    && (mid == [] || !IsTargetChar(mid[0])) && '@' !in mid
    && StartsWith(d, DidPrefix) && |d| > |DidPrefix| && (forall k :: 0 <= k < |d| ==> IsTargetChar(d[k]))
  }

  /** In a command of that shape no `@` comes before the DID's but the first, and that one is not followed by a DID. */
  lemma NoDidBefore(h: string, mid: string, d: string, k: nat)
    requires CommandShape(h, mid, d) && k < 1 + |h| + |mid|
    ensures !MatchAt(Intended, "@" + h + mid + "@" + d, k)
  {
    var s := "@" + h + mid + "@" + d;
    if k == 0 {
      RunIs(s, 1, |h|);
      if |h| > |DidPrefix| {
        assert s[1..1 + |DidPrefix|] == h[..|DidPrefix|];
      }
    } else if k <= |h| {
      assert s[k] == h[k - 1];
    } else {
      assert s[k] == mid[k - 1 - |h|];
    }
  }

  /** The original pattern finds the handle of a command of that shape. */
  lemma HandleTargeted(h: string, mid: string, d: string)
    requires CommandShape(h, mid, d)
    ensures UnblockTarget(AsWritten, "@" + h + mid + "@" + d) == Some(h)
  {
    var s := "@" + h + mid + "@" + d;
    assert s[1..1 + |h|] == h;
    RunIs(s, 1, |h|);
    assert MatchAt(AsWritten, s, 0);
  }

  /** The DID-only pattern finds the DID of a command of that shape. */
  lemma DidTargeted(h: string, mid: string, d: string)
    requires CommandShape(h, mid, d)
    ensures UnblockTarget(Intended, "@" + h + mid + "@" + d) == Some(d)
  {
    var s := "@" + h + mid + "@" + d;
    var p := 1 + |h| + |mid|;
    assert s[p] == '@' && |s| == p + 1 + |d| && s[p + 1..] == d;
    RunIs(s, p + 1, |d|);
    assert s[p + 1..p + 1 + |DidPrefix|] == d[..|DidPrefix|];
    assert MatchAt(Intended, s, p);
    forall k | 0 <= k < p
      ensures !MatchAt(Intended, s, k)
    {
      NoDidBefore(h, mid, d, k);
    }
    assert FirstMatch(Intended, s, 0, p);
    TargetFromFirst(Intended, s, 0, p);
    assert s[p + 1..p + 1 + TargetRun(s, p + 1)] == d;
  }

  /** The example command of the comment in main_test.py. */
  lemma CommentExample(h: string, mid: string, d: string)
    requires h == "wonguobot" && mid == " 블랙리스트 해제 " && d == "did:plc:xxxx"
    ensures UnblockTarget(AsWritten, "@" + h + mid + "@" + d) == Some(h)
    ensures UnblockTarget(Intended, "@" + h + mid + "@" + d) == Some(d)
  {
    assert h[..|DidPrefix|][0] != DidPrefix[0] && mid[0] == ' ' && '@' !in mid;
    HandleTargeted(h, mid, d);
    DidTargeted(h, mid, d);
  }

  /**
   * The owner's command as written: the DID in the comment's example stays
   * ignored, since the handle before it is the target, and the notice for
   * that handle is created twice.
   */
  lemma HandleUnblockedAsWritten(b: Bot, h: string, mid: string, d: string, earlier: Option<string>)
    requires CommandShape(h, mid, d)
    requires IsIgnoredDid(b.ignored, d)
    ensures var u := OwnerBranch(AsWritten, b, "@" + h + mid + "@" + d, earlier, true);
      && IsIgnoredDid(u.bot.ignored, d)
      && u.notices == [Notice(h), Notice(h)]
  {
    HandleTargeted(h, mid, d);
    TargetStrips(d);
    RemoveFromIgnoredDidsSpec(b.ignored, h, d);
  }

  /** The intended owner's command unblocks the DID and announces it once. */
  lemma DidUnblockedIntended(b: Bot, h: string, mid: string, d: string, earlier: Option<string>)
    requires CommandShape(h, mid, d)
    ensures var u := OwnerBranch(Intended, b, "@" + h + mid + "@" + d, earlier, true);
      && !IsIgnoredDid(u.bot.ignored, d)
      && u.notices == [Notice(d)]
  {
    DidTargeted(h, mid, d);
    TargetStrips(d);
    RemoveFromIgnoredDidsSpec(b.ignored, d, d);
  }

  /**
   * The owner's command with a target, under the daily limit and with
   * posting succeeding: the target is no longer ignored and nothing else
   * is, the notice is posted (twice as written), and the command is then
   * counted and answered like any mention.
   */
  lemma OwnerCommand(build: Build, rules: seq<Rule>, bot: Bot, n: Notification, today: string, env: Env, t: string)
    requires Moderation.WellFormed(rules) && Fresh(bot, n, today) && !Flagged(rules, n.text, env.logPick)
    requires Contains(n.text, UnblockCommand) && UnblockTarget(build, n.text) == Some(t) && env.posted
    requires Count(bot.counts, today, n.author) < DailyLimit
    ensures var o := Step(build, rules, bot, n, today, Some(n.author), env);
      && o.Done?
      && o.notices == (if build == AsWritten then [Notice(t), Notice(t)] else [Notice(t)])
      && o.posts == Replies(HandleMention(rules, n.text, env), true, n)
      && o.bot.processed == MarkCidProcessed(bot.processed, n.cid)
      && Count(o.bot.counts, today, n.author) == Count(bot.counts, today, n.author) + 1
      && forall did :: IsIgnoredDid(o.bot.ignored, did) <==> IsIgnoredDid(bot.ignored, did) && Strip(did) != t
  {
    StepIsRoute(build, rules, bot, n, today, Some(n.author), env);
    RouteOwnerUnblocks(build, bot, n, today, HandleMention(rules, n.text, env), env.earlier, t);
  }

  lemma RouteOwnerUnblocks(build: Build, bot: Bot, n: Notification, today: string, a: Action, earlier: Option<string>, t: string)
    requires Fresh(bot, n, today) && Contains(n.text, UnblockCommand) && UnblockTarget(build, n.text) == Some(t)
    requires Count(bot.counts, today, n.author) < DailyLimit
    ensures var o := Route(build, bot, n, today, Some(n.author), false, a, true, earlier);
      && o.Done?
      && o.notices == (if build == AsWritten then [Notice(t), Notice(t)] else [Notice(t)])
      && o.posts == Replies(a, true, n)
      && o.bot.processed == MarkCidProcessed(bot.processed, n.cid)
      && Count(o.bot.counts, today, n.author) == Count(bot.counts, today, n.author) + 1
      && forall did :: IsIgnoredDid(o.bot.ignored, did) <==> IsIgnoredDid(bot.ignored, did) && Strip(did) != t
  {
    var b := bot.(history := IsDuplicateMentionText(bot.history, today, n.author, n.text).1);
    var u := OwnerBranch(build, b, n.text, earlier, true);
    assert u.bot == b.(ignored := RemoveFromIgnoredDids(b.ignored, t)) && !u.raised;
    var c := u.bot.(counts := TrackMentionCount(u.bot.counts, today, n.author).1);
    var d := c.(history := LogMention(c.history, today, n.author, n.text));
    assert Route(build, bot, n, today, Some(n.author), false, a, true, earlier) == Answer(d, n, a, true, u.notices);
    forall did
      ensures IsIgnoredDid(d.ignored, did) <==> IsIgnoredDid(bot.ignored, did) && Strip(did) != t
    {
      RemoveFromIgnoredDidsSpec(bot.ignored, t, did);
    }
  }

  /**
   * The stray `create_record` after the owner's `if match:`, as written: a
   * found target is announced twice; without a target the call reposts the
   * notice an earlier command of the run left in `post`, or, when there is
   * none, raises and ends the run with the mention unanswered and unmarked.
   */
  lemma OwnerNoticeAsWritten(bot: Bot, n: Notification, today: string, a: Action, posted: bool, earlier: Option<string>)
    requires Fresh(bot, n, today) && Contains(n.text, UnblockCommand)
    ensures var o := Route(AsWritten, bot, n, today, Some(n.author), false, a, posted, earlier);
      var target := UnblockTarget(AsWritten, n.text);
      && (target.Some? && o.Done? ==> o.notices == [Notice(target.value), Notice(target.value)])
      && (target.None? && earlier.None? ==> o.Failed? && o.bot.processed == bot.processed && o.bot.counts == bot.counts)
      && (target.None? && earlier.Some? && o.Done? ==> o.notices == [Notice(earlier.value)])
  {
  }

  /**
   * The owner's command with the notice created once: a found target is
   * announced once, and a command without a target is answered exactly as
   * a mention from anyone else.
   */
  lemma OwnerNoticeIntended(bot: Bot, n: Notification, today: string, a: Action, posted: bool, earlier: Option<string>)
    requires Fresh(bot, n, today) && Contains(n.text, UnblockCommand)
    ensures var o := Route(Intended, bot, n, today, Some(n.author), false, a, posted, earlier);
      var target := UnblockTarget(Intended, n.text);
      && (target.Some? && o.Done? ==> o.notices == [Notice(target.value)])
      && (target.None? ==> o == Route(Intended, bot, n, today, None, false, a, posted, earlier))
  {
  }
}
