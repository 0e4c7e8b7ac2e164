/**
 * Reading a mention's intent (main_test.py): `strip_josa`, `normalize_text`,
 * `classify_request` and the ordered `QUESTION_RULES` match of
 * `question_mention`.
 *
 * Python's Unicode `\w` is approximated by `IsWordChar` (ASCII letters,
 * digits, `_` and Hangul); `\s` is `Text.IsSpace`; `lower()` is ASCII case
 * folding.
 */
module Intent {
  import opened Wrappers
  import opened Text

  /** The `\w` class, restricted to the scripts the bot deals with. */
  predicate IsWordChar(c: char) {
    || ('a' <= c <= 'z') || ('A' <= c <= 'Z') || ('0' <= c <= '9') || c == '_'
    || ('\U{AC00}' <= c <= '\U{D7A3}')
    || ('\U{1100}' <= c <= '\U{11FF}')
    || ('\U{3131}' <= c <= '\U{318E}')
  }

  // ---------------------------------------------------------------------------
  // Particles

  const JosaList: seq<string> :=
    ["은", "는", "이", "가", "을", "를", "에", "에서", "에게", "한테", "보다", "도", "만", "까지", "부터",
     "로", "으로", "와", "과", "랑", "이나", "나"]

  /** The elements of length `n`, in list order. */
  function OfLength(ps: seq<string>, n: nat): (r: seq<string>)
    decreases |ps|
  {
    if ps == [] then [] else (if |ps[0]| == n then [ps[0]] else []) + OfLength(ps[1..], n)
  }

  /**
   * `sorted(josa_list, key=len, reverse=True)`: Python's sort is stable and
   * every particle has one or two characters, so the two-character ones come
   * first, each group in list order.
   */
  function JosaByLength(): seq<string> {
    OfLength(JosaList, 2) + OfLength(JosaList, 1)
  }

  /** The first entry of `ps` that ends `word`, removed from it; the word itself if none does. */
  function StripFirst(ps: seq<string>, word: string): string
    decreases |ps|
  {
    if ps == [] then word
    else if EndsWith(word, ps[0]) then word[..|word| - |ps[0]|]
    else StripFirst(ps[1..], word)
  }

  /** `strip_josa(word)` */
  function StripJosa(word: string): string {
    StripFirst(JosaByLength(), word)
  }

  lemma {:induction false} OfLengthMember(ps: seq<string>, n: nat, x: string)
    ensures x in OfLength(ps, n) <==> x in ps && |x| == n
    decreases |ps|
  {
    if ps != [] {
      OfLengthMember(ps[1..], n, x);
      assert ps == [ps[0]] + ps[1..];
    }
  }

  lemma {:induction false} StripFirstSpec(ps: seq<string>, word: string)
    ensures || (StripFirst(ps, word) == word && forall j :: 0 <= j < |ps| ==> !EndsWith(word, ps[j]))
            || (exists i :: 0 <= i < |ps| && EndsWith(word, ps[i])
                  && StripFirst(ps, word) + ps[i] == word
                  && forall j :: 0 <= j < i ==> !EndsWith(word, ps[j]))
    decreases |ps|
  {
    if ps != [] {
      if EndsWith(word, ps[0]) {
        assert word[..|word| - |ps[0]|] + ps[0] == word;
      } else {
        StripFirstSpec(ps[1..], word);
        assert forall j :: 0 < j < |ps| ==> ps[j] == ps[1..][j - 1];
        if StripFirst(ps[1..], word) != word || exists j :: 0 <= j < |ps[1..]| && EndsWith(word, ps[1..][j]) {
          var i :| 0 <= i < |ps[1..]| && EndsWith(word, ps[1..][i])
            && StripFirst(ps[1..], word) + ps[1..][i] == word
            && forall j :: 0 <= j < i ==> !EndsWith(word, ps[1..][j]);
          assert ps[i + 1] == ps[1..][i];
        }
      }
    }
  }

  lemma OfLengthLengths(ps: seq<string>, n: nat)
    ensures forall x :: x in OfLength(ps, n) ==> |x| == n
  {
    forall x | x in OfLength(ps, n)
      ensures |x| == n
    {
      OfLengthMember(ps, n, x);
    }
  }

  /** Every particle has one or two characters. */
  lemma JosaLengths()
    ensures forall x :: x in JosaList ==> |x| == 1 || |x| == 2
  {
  }

  /** The particles, two-character ones first, are the particles. */
  lemma JosaByLengthMembers()
    ensures forall x :: x in JosaList <==> x in JosaByLength()
  {
    JosaLengths();
    forall x
      ensures x in JosaList <==> x in JosaByLength()
    {
      OfLengthMember(JosaList, 2, x);
      OfLengthMember(JosaList, 1, x);
    }
  }

  /**
   * `r` is `word` with the longest entry of `ps` that ends it removed, or
   * `word` itself when no entry ends it.
   */
  predicate LongestStripped(ps: seq<string>, word: string, r: string) {
    || (r == word && forall p :: p in ps ==> !EndsWith(word, p))
    || (exists p :: p in ps && EndsWith(word, p) && r + p == word
          && forall q :: q in ps && EndsWith(word, q) ==> |q| <= |p|)
  }

  /**
   * Trying the two-character candidates before the one-character ones strips
   * the longest candidate that ends the word.
   */
  lemma StripFirstLongest(twos: seq<string>, ones: seq<string>, word: string)
    requires forall x :: x in twos ==> |x| == 2
    requires forall x :: x in ones ==> |x| == 1
    ensures LongestStripped(twos + ones, word, StripFirst(twos + ones, word))
  {
    var ps := twos + ones;
    StripFirstSpec(ps, word);
    if exists i :: 0 <= i < |ps| && EndsWith(word, ps[i]) && StripFirst(ps, word) + ps[i] == word
                  && forall j :: 0 <= j < i ==> !EndsWith(word, ps[j]) {
      var i :| 0 <= i < |ps| && EndsWith(word, ps[i]) && StripFirst(ps, word) + ps[i] == word
                && forall j :: 0 <= j < i ==> !EndsWith(word, ps[j]);
      forall q | q in ps && EndsWith(word, q)
        ensures |q| <= |ps[i]|
      {
        var j :| 0 <= j < |ps| && ps[j] == q;
        assert i <= j;
        if i < |twos| {
          assert ps[i] in twos;
        } else {
          assert ps[i] in ones && ps[j] in ones;
        }
      }
      assert ps[i] in ps;
    } else {
      assert forall p :: p in ps ==> !EndsWith(word, p);
    }
  }

  /** Whether a strip is longest depends only on the members of the list. */
  lemma LongestStrippedMembers(ps: seq<string>, qs: seq<string>, word: string, r: string)
    requires forall x :: x in ps <==> x in qs
    requires LongestStripped(ps, word, r)
    ensures LongestStripped(qs, word, r)
  {
    if !(r == word && forall p :: p in ps ==> !EndsWith(word, p)) {
      var p :| p in ps && EndsWith(word, p) && r + p == word
          && forall q :: q in ps && EndsWith(word, q) ==> |q| <= |p|;
      assert p in qs;
    }
  }

  /**
   * `strip_josa` removes at most one particle, and then the longest one that
   * ends the word: the result followed by that particle is the word. With no
   * particle at its end the word comes back unchanged.
   */
  lemma StripJosaSpec(word: string)
    ensures || (StripJosa(word) == word && forall p :: p in JosaList ==> !EndsWith(word, p))
            || (exists p :: p in JosaList && EndsWith(word, p) && StripJosa(word) + p == word
                  && forall q :: q in JosaList && EndsWith(word, q) ==> |q| <= |p|)
  {
    OfLengthLengths(JosaList, 2);
    OfLengthLengths(JosaList, 1);
    StripFirstLongest(OfLength(JosaList, 2), OfLength(JosaList, 1), word);
    JosaByLengthMembers();
    LongestStrippedMembers(JosaByLength(), JosaList, word, StripJosa(word));
  }

  /** What `strip_josa` returns is a prefix of the word. */
  lemma {:induction false} StripFirstPrefix(ps: seq<string>, word: string)
    ensures |StripFirst(ps, word)| <= |word| && StripFirst(ps, word) == word[..|StripFirst(ps, word)|]
    decreases |ps|
  {
    if ps != [] && !EndsWith(word, ps[0]) {
      StripFirstPrefix(ps[1..], word);
    }
  }

  // ---------------------------------------------------------------------------
  // normalize_text

  /** `[\w\.\-]`, the characters of a handle after `@`. */
  predicate IsMentionChar(c: char) {
    IsWordChar(c) || c == '.' || c == '-'
  }

  /** Length of the run of handle characters starting at `j`. */
  function MentionRun(s: string, j: nat): (n: nat)
    requires j <= |s|
    ensures j + n <= |s|
    decreases |s| - j
  {
    if j < |s| && IsMentionChar(s[j]) then 1 + MentionRun(s, j + 1) else 0
  }

  /** `re.sub(r"@[\w\.\-]+", "", s)`: every `@` followed by a handle is removed with it. */
  function DropMentions(s: string): string
    decreases |s|
  {
    if s == [] then []
    else if s[0] == '@' && MentionRun(s, 1) > 0 then DropMentions(s[1 + MentionRun(s, 1)..])
    else [s[0]] + DropMentions(s[1..])
  }

  /** `s.replace("：", ":")` */
  function ReplaceColon(s: string): string {
    seq(|s|, i requires 0 <= i < |s| => if s[i] == '\U{FF1A}' then ':' else s[i])
  }

  /** The characters `[^\w\s가-힣]` does not match. */
  predicate IsKept(c: char) {
    IsWordChar(c) || IsSpace(c) || ('\U{AC00}' <= c <= '\U{D7A3}')
  }

  /** `re.sub(r"[^\w\s가-힣]", "", s)` */
  function KeepWordsAndSpaces(s: string): string
    decreases |s|
  {
    if s == [] then [] else (if IsKept(s[0]) then [s[0]] else []) + KeepWordsAndSpaces(s[1..])
  }

  /** `[strip_josa(w) for w in ws]` */
  function StripAllJosa(ws: seq<string>): (r: seq<string>)
    ensures |r| == |ws|
    ensures forall k :: 0 <= k < |ws| ==> r[k] == StripJosa(ws[k])
  {
    seq(|ws|, k requires 0 <= k < |ws| => StripJosa(ws[k]))
  }

  /** The words `normalize_text` joins: the cleaned, lower-cased words, each stripped of a particle. */
  function NormalWords(text: string): seq<string> {
    StripAllJosa(Words(Strip(Lower(KeepWordsAndSpaces(ReplaceColon(DropMentions(text)))))))
  }

  /** `normalize_text(text)` */
  function NormalizeText(text: string): string {
    Join(NormalWords(text), " ")
  }

  /** A word stripped of a particle still has no blank character. */
  lemma StripJosaNoSpace(w: string)
    requires NoSpace(w)
    ensures NoSpace(StripJosa(w))
  {
    StripFirstPrefix(JosaByLength(), w);
    var r := StripJosa(w);
    assert forall i :: 0 <= i < |r| ==> r[i] == w[i];
  }

  lemma NormalWordsNoSpace(text: string)
    ensures forall k :: 0 <= k < |NormalWords(text)| ==> NoSpace(NormalWords(text)[k])
  {
    var ws := Words(Strip(Lower(KeepWordsAndSpaces(ReplaceColon(DropMentions(text))))));
    forall k | 0 <= k < |ws|
      ensures NoSpace(StripJosa(ws[k]))
    {
      StripJosaNoSpace(ws[k]);
    }
  }

  /**
   * Splitting the normalized text again gives back its words, except those a
   * particle was the whole of: `normalize_text` can leave an empty word
   * behind (`"이"` becomes `""`), and `split()` drops it.
   */
  lemma NormalizeTextWords(text: string)
    ensures Words(NormalizeText(text)) == NonEmpty(NormalWords(text))
  {
    NormalWordsNoSpace(text);
    WordsOfJoin(NormalWords(text));
  }

  // ---------------------------------------------------------------------------
  // classify_request

  datatype Request = ReplyImage | ReplyText | ReplyQuestion | Ambiguous

  const ImageKeywords: seq<string> := ["이미지", "그림", "사진"]
  const TextKeywords: seq<string> := ["스크립트", "ss", "텍스트"]
  const QuestionKeywords: seq<string> :=
    ["질문", "궁금", "알려줘", "알려", "뭐야", "무엇", "뭐지",
     "말해줘", "말해봐", "말해", "소개해줘", "소개", "얘기해줘", "얘기해", "이야기해줘", "이야기해"]

  /** `any(k in text for k in keywords)` */
  predicate AnyIn(keywords: seq<string>, text: string) {
    exists k :: 0 <= k < |keywords| && Contains(text, keywords[k])
  }

  /** `classify_request(text)`; `None` is Python's `None`. */
  function ClassifyRequest(text: string): Option<Request> {
    var t := NormalizeText(text);
    var image := AnyIn(ImageKeywords, t);
    var txt := AnyIn(TextKeywords, t);
    var question := AnyIn(QuestionKeywords, t);
    var matched := (if image then 1 else 0) + (if txt then 1 else 0) + (if question then 1 else 0);
    if matched >= 2 then Some(Ambiguous)
    else if image then Some(ReplyImage)
    else if txt then Some(ReplyText)
    else if question then Some(ReplyQuestion)
    else None
  }

  /**
   * With the three keyword tests on the normalized text: two or more make
   * the request ambiguous, exactly one names the kind, none gives no request.
   */
  lemma ClassifySpec(text: string)
    ensures var t := NormalizeText(text);
      var image := AnyIn(ImageKeywords, t);
      var txt := AnyIn(TextKeywords, t);
      var question := AnyIn(QuestionKeywords, t);
      && (ClassifyRequest(text) == Some(Ambiguous) <==> (image && txt) || (image && question) || (txt && question))
      && (ClassifyRequest(text) == Some(ReplyImage) <==> image && !txt && !question)
      && (ClassifyRequest(text) == Some(ReplyText) <==> txt && !image && !question)
      && (ClassifyRequest(text) == Some(ReplyQuestion) <==> question && !image && !txt)
      && (ClassifyRequest(text) == None <==> !image && !txt && !question)
  {
  }

  // ---------------------------------------------------------------------------
  // question_mention

  datatype QuestionRule = QuestionRule(keywords: seq<string>, file: string)

  const QuestionRules: seq<QuestionRule> := [
    QuestionRule(["웡우오", "웡×우오즈미", "웡x우오즈미", "웡우오즈미"], "04. wonguo.txt"),
    QuestionRule(["우오즈미 테츠", "우오즈미"], "03. uozumi tetsu.txt"),
    QuestionRule(["웡 웨이", "웡"], "02. wong wei.txt"),
    QuestionRule(["오메르타", "오메르타 ~침묵의 규율~", "오메르타 code:tycoon", "오메르타 침묵", "오메르타 ct"], "01. omerta series.txt")]

  /** `any(kw == word or kw in word ...)`: some keyword of the rule is a substring of some word (equality is a special case). */
  predicate RuleHits(rule: QuestionRule, words: seq<string>) {
    exists w, k :: 0 <= w < |words| && 0 <= k < |rule.keywords| && Contains(words[w], rule.keywords[k])
  }

  /** Index of the first rule that hits. */
  function FirstRule(rules: seq<QuestionRule>, words: seq<string>): (r: Option<nat>)
    ensures r.Some? ==> r.value < |rules|
    decreases |rules|
  {
    if rules == [] then None
    else if RuleHits(rules[0], words) then Some(0)
    else match FirstRule(rules[1..], words)
      case None => None
      case Some(i) => Some(i + 1)
  }

  /** `mention_words`: the words of the normalized text, each stripped of a particle once more. */
  function MentionWords(text: string): seq<string> {
    StripAllJosa(Words(NormalizeText(text)))
  }

  const NoMatchReply: string := "질문 내용이 명확하지 않아 응답할 수 없습니다."
  const MissingFileReply: string := "해당 주제에 대한 응답 파일이 없습니다."
  const EmptyFileReply: string := "내용이 비어 있어 응답할 수 없습니다."

  /**
   * `question_mention(text, ...)`; `files` maps the answer files present in
   * the answer folder to their contents.
   */
  function QuestionMention(text: string, files: map<string, string>): string {
    match FirstRule(QuestionRules, MentionWords(text))
    case None => NoMatchReply
    case Some(r) =>
      var f := QuestionRules[r].file;
      if f !in files then MissingFileReply
      else if Strip(files[f]) == [] then EmptyFileReply
      else Strip(files[f])
  }

  /** The marker whose presence keeps `handle_mention` from posting an answer. */
  const Unanswerable: string := "응답할 수 없습니다"

  /** `reply_text and "응답할 수 없습니다" not in reply_text` */
  predicate Postable(reply: string) {
    reply != [] && !Contains(reply, Unanswerable)
  }

  /** The first rule that hits is the answer: no earlier rule hits, and no match means no rule hits. */
  lemma {:induction false} FirstRuleSpec(rules: seq<QuestionRule>, words: seq<string>)
    ensures FirstRule(rules, words).None? <==> forall q :: 0 <= q < |rules| ==> !RuleHits(rules[q], words)
    ensures FirstRule(rules, words).Some? ==>
      var r := FirstRule(rules, words).value;
      RuleHits(rules[r], words) && forall q :: 0 <= q < r ==> !RuleHits(rules[q], words)
    decreases |rules|
  {
    if rules != [] && !RuleHits(rules[0], words) {
      FirstRuleSpec(rules[1..], words);
      assert forall q :: 0 < q < |rules| ==> rules[q] == rules[1..][q - 1];
    }
  }

  lemma MentionWordsNoSpace(text: string)
    ensures forall w :: 0 <= w < |MentionWords(text)| ==> NoSpace(MentionWords(text)[w])
  {
    var ws := Words(NormalizeText(text));
    forall w | 0 <= w < |ws|
      ensures NoSpace(StripJosa(ws[w]))
    {
      StripJosaNoSpace(ws[w]);
    }
  }

  /**
   * A keyword holding a space never matches: the mention's words hold no
   * blank, so `"우오즈미 테츠"`, `"웡 웨이"` and the spaced `오메르타` titles
   * are dead entries.
   */
  lemma SpacedKeywordNeverMatches(text: string, kw: string, i: nat)
    requires i < |kw| && kw[i] == ' '
    ensures forall w :: 0 <= w < |MentionWords(text)| ==> !Contains(MentionWords(text)[w], kw)
  {
    MentionWordsNoSpace(text);
    forall w | 0 <= w < |MentionWords(text)|
      ensures !Contains(MentionWords(text)[w], kw)
    {
      if Contains(MentionWords(text)[w], kw) {
        ContainsNoSpace(MentionWords(text)[w], kw, i);
      }
    }
  }

  /** A text holding a character the candidate lacks does not contain it. */
  lemma MissingCharNotContained(s: string, sub: string, i: nat)
    requires i < |sub| && sub[i] !in s
    ensures !Contains(s, sub)
  {
    ContainsIff(s, sub);
    forall k
      ensures !OccursAt(s, sub, k)
    {
      if 0 <= k && k + |sub| <= |s| {
        assert s[k..k + |sub|][i] == s[k + i];
        assert s[k + i] in s;
      }
    }
  }

  lemma NoMatchNotPosted()
    ensures !Postable(NoMatchReply)
  {
    assert NoMatchReply[15..25] == Unanswerable;
    ContainsIff(NoMatchReply, Unanswerable);
    assert OccursAt(NoMatchReply, Unanswerable, 15);
  }

  lemma EmptyFileNotPosted()
    ensures !Postable(EmptyFileReply)
  {
    assert EmptyFileReply[10..20] == Unanswerable;
    ContainsIff(EmptyFileReply, Unanswerable);
    assert OccursAt(EmptyFileReply, Unanswerable, 10);
  }

  lemma MissingFilePosted()
    ensures Postable(MissingFileReply)
  {
    assert Unanswerable[2] !in MissingFileReply;
    MissingCharNotContained(MissingFileReply, Unanswerable, 2);
  }

  /**
   * Of the three fixed answers of `question_mention`, the no-match answer and
   * the empty-file answer are never posted; the missing-file answer is.
   */
  lemma SentinelsPosted()
    ensures !Postable(NoMatchReply) && !Postable(EmptyFileReply) && Postable(MissingFileReply)
  {
    NoMatchNotPosted();
    EmptyFileNotPosted();
    MissingFilePosted();
  }
}
