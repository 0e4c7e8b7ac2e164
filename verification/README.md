# simple-bluesky-bot-code, modelled in Dafny

A Dafny model of the Bluesky bot in three generations: `main.py`,
`main_backup.py` and `main_test.py`. It also covers the packaging filter of
`zip_builder.py`.

The bot posts a randomly chosen work as a thread. The work file is split on
`---` into a head, a body and a closing. The body is split into text blocks
and image blocks. Text blocks are packed into chunks of at most 300
characters. Link-bearing chunks have their URLs moved to the end, and URLs
(plus, in `main_test.py`, `@….bsky.social` handles) get rich-text facets
addressed by UTF-8 byte offsets. Images are re-encoded as JPEG at falling
quality until they fit 1 MiB. Every post after the head replies to the head
(the root) with the post created before it as parent.

`main_test.py` also answers mentions. A notification passes these filters in
order:
- reason;
- already processed CID;
- repeated text of the day;
- ignored author;
- NG keyword moderation;
- the owner's unblock command;
- a daily limit of ten counted mentions.

It is then answered by `handle_mention`. That function classifies the
normalized text as a request for a text chunk, an image, an answer to a
question, or an ambiguous request.

Modules, one per file:
- `Text`, `Utf8`, `Patterns`: Python string primitives, UTF-8 lengths (RFC 3629, section 3), and the two regular expressions with `re.finditer`'s left-to-right search.
- `Segment`, `Chunking`, `Reassembly`, `Facets`: splitting a work into posts.
- `Thread`: the posting run of each `main`, with `create_record` and the upload as oracles.
- `Quality`: the JPEG quality search of `compress_image`.
- `Moderation`, `Intent`, `Store`, `Dispatch`: the mention pipeline of `main_test.py`.
- `Exclude`: `should_exclude` of `zip_builder.py`.

Where the source has a defect, the model carries both versions. The
as-written one comes first (`Build.AsWritten`, `Variant.Backup`,
`ResolveAsWritten`, `NgRules`); the intended one follows (`Build.Intended`,
`Variant.Fixed`, `Resolve`, `NgRulesIntended`). See "## Findings".

The quality loop of `compress_image` stops after the first attempt *below*
30. So when nothing fits, the last quality tried is 25, not 30. The model
follows the code: the ladder is 70, 65, …, 30, 25.

## Model

| member | source | states |
|---|---|---|
| Text.TrimStartSpec | main_test.py:45 | `lstrip` removes exactly the leading run of whitespace characters |
| Text.TrimEndSpec | main_test.py:45 | `rstrip` removes exactly the trailing run of whitespace characters |
| Text.StripEnds | main_test.py:45 | a stripped string is no longer than its input and neither starts nor ends with whitespace |
| Text.StripIdempotent | main_test.py:707 | stripping twice is stripping once |
| Text.StripEmptyIff | main_test.py:512 | a line strips to empty exactly when it is all whitespace |
| Text.ContainsIff | main_test.py:671 | the `in` search holds exactly when the keyword occurs at some position |
| Text.JoinSplit | main_test.py:720 | joining the pieces of `split(sep)` with `sep` restores the text |
| Text.SplitPiecesLackSep | main_backup.py:186 | no piece of `content.split('---')` contains `---` |
| Text.SplitJoinChar | zip_builder.py:22 | separator-free names joined by one character split back into the same names |
| Text.SplitLinesRoundTrip | main_test.py:505 | the lines, each re-terminated by a newline, give the text back, adding one final newline when it lacked one |
| Text.WordsOfJoin | main_test.py:127 | `" ".join(ws).split()` gives back the non-empty words in order when no word holds whitespace |
| Segment.HeadOnly | main_test.py:720-723 | a work without `---` is all head, with empty body and closing |
| Segment.ThreeSections | main_backup.py:186-189 | head, body and closing separated by two `---` come back stripped |
| Segment.ExtraSeparatorDropsClosing | main.py:143-146 | with a third `---`, the closing is empty and everything after the second separator is lost |
| Segment.SplitLinesWithImagesIsGroup | main_backup.py:103-124 | the blocks are the reference grouping: each run of text lines becomes one text block, and each image line becomes its own block |
| Segment.FlushVariantsAgree | main.py:110-117 | flushing on `if buffer:` (main.py) and on `if buffer.strip():` gives the same blocks for every text |
| Segment.BlocksReadBack | main_test.py:502-523 | the blocks read back as exactly the stripped non-blank body lines, in order; no text block is empty and no two are adjacent |
| Segment.KeptClean | main_test.py:511-514 | kept lines are stripped and non-blank, and image items name image files |
| Segment.NoImagesOneBlock | main_test.py:510-522 | a body with no image line and some non-blank line becomes exactly one text block |
| Chunking.SplitIntoChunks | main_test.py:526-538 | each chunk is the stripped accumulator of a group; the groups are a greedy packing of the lines |
| Chunking.PackLines | main_backup.py:131-138 | the loop computes the reference packing: a line joins the current chunk exactly when the grown chunk stays within the limit |
| Chunking.PackIsGreedy | main.py:125-132 | the reference packing keeps line order, breaks only where the next line does not fit, and keeps multi-line groups within the limit |
| Chunking.AccumulatorsCover | main_test.py:531-535 | the accumulators laid end to end give every line plus newline in order: no text is lost or reordered before stripping |
| Chunking.LongChunkIsOneLine | main_test.py:531-535 | a chunk longer than the limit comes from a single line |
| Chunking.LeadingEmptyChunk | main_test.py:534 | a first line of at least `max_length` characters gives a leading empty chunk |
| Patterns.UrlMatchIff | main_test.py:565 | the URL matcher ends a match at `e` exactly for a maximal run of URL characters starting with `http://` or `https://` and having a character after the scheme |
| Patterns.SchemesExclusive | main_test.py:565 | `https://` and `http://` never start at the same index |
| Patterns.HandleMatchIff | main_test.py:578 | the backtracking handle matcher finds exactly the longest handle-character stretch after `@` that ends in `.bsky.social` |
| Patterns.FindIterIff | main_test.py:566 | `re.finditer` returns exactly the one ordered, non-overlapping list of matches that leaves no match position uncovered |
| Patterns.ScanUnique | main_test.py:579 | only the left-to-right search meets that description |
| Patterns.FoundUrls | main_backup.py:151 | every span found for the URL pattern is a URL |
| Patterns.FoundHandles | main_test.py:579-580 | every span found for the handle pattern is a handle |
| Patterns.NoAtNoHandle | main_test.py:578 | a text without `@` yields no handle |
| Utf8.LenBounds | main_test.py:568 | every character takes one to four bytes |
| Utf8.PrefixLenStrict | main_test.py:568-569 | byte offsets of character prefixes grow strictly with the character index |
| Utf8.PrefixOffsetIsBoundary | main_backup.py:156-157 | the byte offset of a character prefix starts a UTF-8 sequence and never continues one |
| Utf8.EncodeSlice | main_test.py:585-586 | the bytes between two prefix offsets encode exactly the characters between them |
| Facets.NormalizeFixedIff | main_test.py:560-561 | normalization changes a text exactly when it holds an odd space or a full-width colon |
| Facets.NormalizeIdempotent | main_backup.py:145-146 | normalizing twice is normalizing once |
| Facets.AtBounds | main_test.py:585-586 | a facet's start is before its end, within the text's bytes, and on a character boundary |
| Facets.LinkFacetSpec | main_test.py:566-573 | each link facet names a URL as matched in the normalized copy, with `byteStart < byteEnd <=` the byte length |
| Facets.LinkFacetsOrdered | main_backup.py:151-172 | link facets come left to right and do not overlap |
| Facets.MentionFacetsSound | main_test.py:579-593 | every mention facet comes from a handle match whose handle resolved to that DID |
| Facets.MentionFacetsComplete | main_test.py:579-593 | every handle match resolving to a non-empty DID gets its facet |
| Facets.MentionFacetsNone | main_test.py:582-584 | a resolver that never answers gives no mention facets |
| Facets.NoMentionsAsWritten | main_test.py:543-554 | as written, no mention facet is ever published, whatever the identity service answers |
| Facets.MentionsResolved | main_test.py:578-593 | with a working resolver, a resolved handle gets a facet with its DID and its byte offsets |
| Facets.MisalignedExample | main_test.py:560-569 | a full-width space before a URL puts the facet start at byte 1, inside U+3000 of the published text; the intended start is byte 3 |
| Facets.PublishedFacetCovers | main_test.py:753 | a facet measured in the published text covers exactly the matched characters |
| Facets.UntouchedAgree | main_test.py:557-600 | for a text normalization leaves alone, the facets as written and as intended coincide |
| Reassembly.ChunkLossless | main_test.py:746-747 | the URLs and the rest of the chunk together spell the whole chunk |
| Reassembly.FoundAllUrls | main_test.py:746 | `re.findall` returns the texts of the matches `re.finditer` yields, each a URL |
| Reassembly.UrlLine | main_test.py:750-751 | each re-appended URL is a maximal URL match of the chunk and holds no line break |
| Reassembly.UrlFreeChunk | main_backup.py:224-228 | a chunk without a URL is published as `chunk.strip()` |
| Reassembly.UrlsReadBack | main_test.py:746-751 | a chunk with URLs is published as its stripped remainder, a blank line, then the URLs one per line in the order found |
| Thread.DoLinked | main_test.py:741-817 | one body job keeps the thread well linked; it adds at most one post, and the parent moves exactly when a post is created |
| Thread.RunJobsLinked | main.py:174-234 | the body loop keeps the thread well linked and only appends posts |
| Thread.HeadedThread | main_backup.py:207-308 | with a head post created, the run is one thread rooted at the head: every later post replies to the root with the post before it as parent |
| Thread.ImageSkipped | main_test.py:775-817 | an image that is missing or fails to upload or post leaves the posts, root, parent and previous text as they were |
| Thread.StuckRun | main_backup.py:244-249 | once the reply field cannot be built, every image is skipped and the first text chunk ends the run |
| Thread.HeadlessThreadBreaks | main_backup.py:203-249 | with a blank head, the first chunk is posted without a reply and the run then fails at the next text chunk |
| Thread.HeadlessTestPostsNothing | main_test.py:730-772 | in main_test.py a blank head leaves `parent` unbound, so nothing of the body is posted |
| Thread.FixedThread | main_backup.py:203-215 | with the root taken from the first post created, every run that posts anything is one well-linked thread |
| Thread.CaptionAfterChunk | main.py:204 | main.py captions an image with the chunk posted just before it when that chunk is non-empty and at most 300 characters; the other files always use the file name |
| Thread.CaptionAfterImage | main.py:231 | after an image post the previous text is cleared, so a second image in a row is captioned with its file name |
| Thread.JobsText | main_test.py:743-753 | main.py publishes each chunk verbatim; the other files publish it reassembled |
| Quality.Search | main_test.py:88-97 | the loop stops at the first quality that fits or after the first quality below 30, and every earlier rung was too large |
| Quality.Compress | main_backup.py:61-70 | from quality 70 the search stops on a rung of 70, 65, …, 25, and every rung before it was over the budget |
| Quality.LadderFromStart | main.py:57-66 | at most ten encodings are tried: 70 down to 30 in steps of 5, then 25 |
| Quality.FirstFitOnLadder | main_test.py:90-97 | the quality settled on is a rung of the ladder, and every earlier rung gave an encoding over the budget |
| Quality.OversizeMeansAllTried | main_test.py:99-100 | the oversize warning is reached only after quality 25, with every rung over the budget |
| Quality.FirstFitStops | main_backup.py:68-69 | the search ends on an encoding that fits or on a quality below 30 |
| Moderation.CheckNgNone | main_test.py:668-673 | `check_ng_category` finds nothing exactly when no keyword of any category occurs in the text |
| Moderation.CheckNgFirst | main_test.py:669-672 | a hit reports the first keyword found, in category order then list order, with a message of that category |
| Moderation.ShadowedKeyword | main_test.py:670-672 | a keyword containing an earlier keyword of its own category is never reported |
| Moderation.ShadowedInNgRules | main_test.py:649-661 | `"이딴 거"` and `"절대미궁 비밀의 엄지공주"` contain keywords listed before them |
| Moderation.RulesWellFormed | main_test.py:640-664 | every category, as written and as intended, has a message to choose from |
| Moderation.FusedKeywordMissed | main_test.py:644-645 | as written, a mention saying only `류웡` passes moderation |
| Moderation.IntendedKeywordCaught | main_test.py:644-645 | with the comma restored, the same mention is refused as a coupling topic |
| Intent.StripJosaSpec | main_test.py:130-135 | `strip_josa` removes at most one particle, the longest that ends the word, and result + particle is the word; otherwise the word is unchanged |
| Intent.StripFirstLongest | main_test.py:132-134 | trying two-character particles before one-character ones strips the longest particle ending the word |
| Intent.JosaByLengthMembers | main_test.py:131-132 | the length-sorted list holds exactly the particles |
| Intent.StripFirstPrefix | main_test.py:134 | the result of `strip_josa` is a prefix of the word |
| Intent.NormalizeTextWords | main_test.py:121-127 | re-splitting the normalized text gives back its words, except those a particle was the whole of |
| Intent.ClassifySpec | main_test.py:604-635 | two or more keyword kinds make the request ambiguous; exactly one names the kind; none gives no request |
| Intent.FirstRuleSpec | main_test.py:210-220 | the chosen rule is the first whose keywords hit a word: no earlier rule hits, and no choice means no rule hits |
| Intent.MentionWordsNoSpace | main_test.py:198-199 | the mention's words hold no whitespace |
| Intent.SpacedKeywordNeverMatches | main_test.py:204-213 | a question keyword containing a space never matches any word |
| Intent.NoMatchNotPosted | main_test.py:224 | the no-match answer contains the unanswerable marker, so it is never posted |
| Intent.EmptyFileNotPosted | main_test.py:246 | the empty-file answer contains the marker, so it is never posted |
| Intent.MissingFilePosted | main_test.py:239 | the missing-file answer lacks the marker, so it is posted |
| Intent.SentinelsPosted | main_test.py:222-246 | of the three fixed answers, only the missing-file one is posted |
| Store.EntriesMember | main_test.py:45 | an entry read back is the stripped form of some non-blank line |
| Store.RemoveFromIgnoredDidsSpec | main_test.py:369-376 | after removal, a DID is ignored exactly when it was and does not strip to the target |
| Store.AddToIgnoredDidsSpec | main_test.py:463 | after adding DIDs, a DID is ignored exactly when it was or it strips to a non-blank added DID |
| Store.MarkCidProcessedSpec | main_test.py:703-711 | marking makes the stripped CID processed and nothing else; a CID with surrounding whitespace is never found again |
| Store.TrackMentionCount | main_test.py:381-395 | the returned count is the previous count + 1; only that day's entry for that DID changes |
| Store.TrackTimesCount | main_test.py:391-395 | the k-th counted mention of a day is told the day's starting count + k |
| Store.IsDuplicateMentionText | main_test.py:400-418 | a duplicate is reported exactly when the stripped text is already logged for the DID today; otherwise the text is appended, and other days and DIDs are unchanged |
| Store.DuplicateTwice | main_test.py:410-414 | the same text from the same DID on the same day is a duplicate the second time |
| Store.LogMention | main_test.py:682-693 | the stripped text is logged for the DID today; other days and DIDs are unchanged |
| Dispatch.NgReply | main_test.py:257-258 | there is an NG reply exactly when the mention is flagged, and it is the non-empty message found |
| Dispatch.HandleMention | main_test.py:253-364 | every reply `handle_mention` drafts has non-empty text |
| Dispatch.HandleFlagged | main_test.py:257-271 | a flagged mention gets an unguarded text reply with a message of the first-hit category |
| Dispatch.HandleSilent | main_test.py:273-364 | an unflagged mention gets no reply exactly when it requests nothing, or requests an image that could not be uploaded, or asks a question whose answer is not postable |
| Dispatch.RespondSilent | main_test.py:276-364 | the same iff over the routing inputs, including the NG message |
| Dispatch.QuestionPosted | main_test.py:338-351 | an unflagged question is answered with its answer exactly when the answer is postable |
| Dispatch.HandleQuestionSentinels | main_test.py:338-351 | no-match and empty-file answers are not posted; the missing-file notice is |
| Dispatch.QuestionSentinels | main_test.py:222-246 | which fixed answer `question_mention` gives, by the first matching rule and the state of its file |
| Dispatch.TargetRun | main_test.py:471 | the run is made of target characters and cannot be extended |
| Dispatch.TargetFromNone | main_test.py:471-472 | the unblock search finds nothing exactly when no `@` followed by target characters (a `did:` target when intended) occurs |
| Dispatch.TargetFromFirst | main_test.py:471-473 | the search returns the whole run after the leftmost matching `@` |
| Dispatch.HandleTargeted | main_test.py:469-471 | for a command shaped `@handle … @did:…`, the original pattern returns the handle |
| Dispatch.DidTargeted | main_test.py:469-471 | for the same command, the DID-only pattern returns the DID |
| Dispatch.CommentExample | main_test.py:469-471 | on the comment's example command the original pattern finds `wonguobot`; the intended one finds `did:plc:xxxx` |
| Dispatch.OwnerBranch | main_test.py:468-487 | the owner branch changes only the ignored file, and the notices it posts reply to nothing |
| Dispatch.Answer | main_test.py:496-497 | a finished answer marks the CID and posts at most one reply; a failed one leaves the store as it was |
| Dispatch.Step | main_test.py:435-498 | a finished step replies at most once, to the mention itself; only the owner's command posts notices, which reply to nothing |
| Dispatch.Route | main_test.py:437-498 | the same guarantees for every decision of `check_ng_category` and `handle_mention` |
| Dispatch.Proceed | main_test.py:460-498 | past the filters, a failure leaves the processed file alone and success marks the CID; the author's log of the day only grows; no other count or log changes |
| Dispatch.Counted | main_test.py:489-498 | counting and answering keep the notices, reply at most once, and touch only the author's count and log of the day |
| Dispatch.FilterOrder | main_test.py:437-458 | non-mentions and processed CIDs change nothing; a repeated text, then an ignored author, is marked processed without a reply |
| Dispatch.FlaggedAsWritten | main_test.py:460-466 | as written, a flagged mention fails at the undefined helper: nothing is posted or marked, and only the text was recorded |
| Dispatch.FlaggedIntended | main_test.py:460-466 | with the helper defined, a flagged mention ignores its author, is answered once with its category's message when posting succeeds, and is not counted |
| Dispatch.OverDailyLimit | main_test.py:489-494 | from the eleventh counted mention of a day the mention is not answered: as written the step fails; when intended, the author is ignored and the CID marked |
| Dispatch.UnderDailyLimit | main_test.py:489-498 | under the limit the mention is counted, logged a second time, and answered as `handle_mention` decides |
| Dispatch.RetryIsSwallowed | main_test.py:450-453 | after a failed step the same notification is marked processed without a reply |
| Dispatch.AnsweredOnce | main_test.py:441-443 | after a finished step the same notification changes nothing |
| Dispatch.OthersUntouched | main_test.py:381-418 | a step changes the counts and history of the mention's author on that day only |
| Dispatch.OwnerCommand | main_test.py:468-498 | the owner's command with a target un-ignores exactly the DIDs stripping to the target, posts the notice (twice as written), then counts and answers the mention like any other |
| Dispatch.OwnerNoticeAsWritten | main_test.py:476-487 | as written, a found target is announced twice; without a target the stray call reposts an earlier notice, or fails when there is none |
| Dispatch.OwnerNoticeIntended | main_test.py:476-485 | intended: a found target is announced once; a command without a target is handled like a mention from anyone else |
| Dispatch.HandleUnblockedAsWritten | main_test.py:469-474 | as written, the comment's command leaves the DID ignored and announces the handle twice |
| Dispatch.DidUnblockedIntended | main_test.py:469-474 | intended: the same command un-ignores the DID and announces it once |
| Exclude.AnyIn | zip_builder.py:25 | true exactly when some keyword equals some path component |
| Exclude.AnyEndsWith | zip_builder.py:28 | true exactly when the path ends with one of the endings |
| Exclude.ShouldExclude | zip_builder.py:21-33 | a path is excluded exactly when a component is a keyword, or it ends with an excluded suffix or an excluded file name |
| Exclude.ComponentsOfJoin | zip_builder.py:22 | splitting a path joined from separator-free names gives the names back |
| Exclude.KeywordComponent | zip_builder.py:22-25 | the keyword test of a joined path holds exactly when one name equals a keyword |
| Exclude.NestedInExcluded | zip_builder.py:22-26 | every path below a directory with a keyword component is excluded too |
| Exclude.ExcludedByKeyword | zip_builder.py:25-26 | a keyword component excludes the path |
| Exclude.ExcludedBySuffix | zip_builder.py:28-29 | an excluded suffix at the end excludes the path |
| Exclude.ExcludedByFile | zip_builder.py:31-32 | an excluded file name at the end excludes the path |
| Exclude.KeywordDecides | zip_builder.py:16-33 | a path not ending in `o`, `d`, `p` or `y` is excluded exactly by its components |
| Exclude.ContainingKeywordKept | zip_builder.py:9-25 | a component that only contains `__pycache__` does not exclude the path |
| Exclude.KeywordExcludes | zip_builder.py:9-26 | the component `__pycache__` itself excludes the path |
| Exclude.SuffixOfWholePath | zip_builder.py:16-29 | a `.pyd` file and a `.dist-info` directory are excluded |
| Exclude.InsideDistInfoKept | zip_builder.py:16-33 | a file inside a `.dist-info` directory is not excluded by its own path |
| Exclude.FileNameIsASuffix | zip_builder.py:19-32 | `mypython.zip` is excluded: the file test is an ending, not a name equality |

## Left out

- File, network and console I/O are left out: login, `listNotifications`, `createRecord`, `uploadBlob`, `resolveHandle`, the JSON and text files under `/tmp`, the NG and mention logs, and `print`. Each file is a value. Each call's outcome is a parameter, or an oracle in `Thread`.
- `lambda_handler`'s event routing and `load_random_work` are left out, because they only choose which run happens and on which content. The content is a parameter.
- `load_random_reply_chunk`, `load_random_reply_image` and the answer folder become `Env` fields (`chunk`, `image`, `answers`), because they only read files.
- `random.choice` is an index parameter (`pick`). The contracts state membership in the list chosen from.
- `datetime.utcnow()` is the parameter `today`.
- Timestamps and `langs` are not kept in `Records.Post`, because no contract depends on them. Facets are modelled on their own in `Facets`, not as a field of the post.
- Pillow is left out: mode conversion, thumbnailing and encoding. `compress_image` is modelled as its quality loop over a size function, because image processing is foreign code.
- `zip_dir_utf8` and `zip_python_layer.py` are left out, because they walk the file system and write archives. Only the filter `should_exclude` is modelled.
- Intent.NormalizeText: Python's Unicode `\w` is modelled as ASCII letters, digits, `_` and Hangul, and `lower()` as ASCII case folding. For example the model drops `é` from `이미é지` where Python keeps it, so there `classify_request` gives no request in Python and an image request in the model.
- Segment.IsImageName: `re.IGNORECASE` is modelled as ASCII case folding, so the few non-ASCII characters Python folds onto ASCII letters (such as U+212A KELVIN SIGN) are not matched.
- Text.SplitLines: splits at `\n` only. Python's `splitlines()` also breaks at `\r`, `\r\n`, `\v`, `\f`, `\x1c`–`\x1e`, `\x85`, U+2028 and U+2029.
- Dispatch.Step: one flag `posted` decides every `create_record` call of a step alike. A step where the notice posts but the reply fails (or the other way round) is not modelled.
- Dispatch.Step: `jwt` and `did` are assumed truthy, because they come from a successful login. So the `if jwt and did:` test in the owner branch always passes.
- Dispatch.Step: one notification at a time. What an earlier notification of the same run left behind enters only as the store and `earlier` (the notice target left in `post`). The loop over the list, and its end when a step raises, is not modelled as a whole.
- `log_ng_mention` and the mention log file are left out, because they are write-only logs.

## Findings

| source | as written | input that shows it | evidently intended | confidence | as-written member | corrected member |
|---|---|---|---|---|---|---|
| main_test.py:644-645 | a missing comma fuses `"류웡"` and `"비공식 CP"` into one keyword `"류웡비공식 CP"` | a mention saying `류웡` | two keywords, so `류웡` is refused | high, not executed | Moderation.FusedKeywordMissed | Moderation.IntendedKeywordCaught |
| main_test.py:463 | `add_to_ignored_dids` is called but never defined, so the NG path and the daily-limit path (main_test.py:492) raise `NameError` | any flagged mention, or an eleventh mention in a day | append the DIDs to the ignored file and go on | high, not executed | Dispatch.FlaggedAsWritten | Dispatch.FlaggedIntended |
| main_test.py:550 | the debug line names the undefined `notifications`; the `NameError` is caught, so every handle resolves to `None` | any text with `@x.bsky.social` | return the DID the identity service answers | high, not executed | Facets.NoMentionsAsWritten | Facets.MentionsResolved |
| main_backup.py:203-249 | with a blank head `root` stays `None`, and the reply field of the second post cannot be built | a work starting with `---` whose body has two text chunks | root the thread at the first post created | medium, not executed | Thread.HeadlessThreadBreaks | Thread.FixedThread |
| main_test.py:560-569 | facet offsets are measured on the normalized copy, but the unnormalized text is published | U+3000 followed by `https://a` | offsets measured in the published text | medium, not executed | Facets.MisalignedExample | Facets.PublishedFacetCovers |
| main_test.py:487 | a second `create_record` of `post` sits outside `if match:`: the notice is posted twice, and without a target the call reposts a stale notice or raises `UnboundLocalError` | the owner's command `블랙리스트 해제` with no `@` target, as the first notification of a run | create the notice once, inside `if match:` | high, not executed | Dispatch.OwnerNoticeAsWritten | Dispatch.OwnerNoticeIntended |
| main_test.py:471 | the first `@` token is taken as the target; in the comment's own example that is the bot's handle, so the DID stays ignored | `@wonguobot 블랙리스트 해제 @did:plc:xxxx` | unblock the `@did:` target | medium, not executed | Dispatch.HandleUnblockedAsWritten | Dispatch.DidUnblockedIntended |
