/**
 * NG-keyword moderation (`check_ng_category` over `NG_RULES`, main_test.py):
 * the categories are tried in their declared order, the keywords of each in
 * list order, each as a case-sensitive substring of the raw mention text; the
 * first keyword found decides, and the reply is one of that category's
 * messages.
 */
module Moderation {
  import opened Wrappers
  import opened Text

  /** One category of `NG_RULES`: its keywords and its refusal messages. */
  datatype Rule = Rule(category: string, keywords: seq<string>, messages: seq<string>)

  /** What `check_ng_category` returns when a keyword is found: `(message, keyword)`. */
  datatype Hit = Hit(message: string, keyword: string)

  /** Every category has a message to choose from (`random.choice` needs one). */
  predicate WellFormed(rules: seq<Rule>) {
    forall r :: 0 <= r < |rules| ==> |rules[r].messages| > 0
  }

  const CouplingMessages: seq<string> := ["봇주는 오메르타 시리즈의 비공식 커플링 관련 주제를 거부하고 있습니다."]

  const AbuseKeywords: seq<string> :=
    ["병신", "등신", "지랄", "좆", "이딴", "쓰레기", "씨발", "니미", "한남", "한녀", "한남충", "김치녀",
     "남미새", "여미새", "역겹", "토나와",
     "두창", "똥꼬충", "이딴 거", "왜 좋아해?", "왜 좋아하냐?"]

  const AbuseRule: Rule := Rule(
    "비속어 및 취향 비하",
    AbuseKeywords,
    ["저속한 표현은 삼가바랍니다.",
     "타인의 취향을 존중할 줄 아는 오타쿠가 되시길 바랍니다.",
     "불편하시면 뮤트나 차단 기능을 활용해주세요."])

  const OtherWorksKeywords: seq<string> :=
    ["단죄의 마리아", "오메가 뱀파이어", "절대미궁그림", "절대미궁",
     "절대미궁 비밀의 엄지공주", "프린세스 나이트메어", "아니마 문디"]

  const OtherWorksRule: Rule := Rule(
    "다른 카린 게임 작품",
    OtherWorksKeywords,
    ["본 봇은 오메르타 시리즈의 서브 커플링 웡우오 전용 팬봇입니다. 즉 카린 작품 통합 봇이 아닙니다."])

  /**
   * `NG_RULES` as written: the missing comma after `"류웡"` makes Python
   * concatenate it with the next literal, so the coupling list holds the one
   * keyword `"류웡비공식 CP"` instead of `"류웡"` and `"비공식 CP"`.
   */
  const CouplingKeywords: seq<string> :=
    ["우가진×우오즈미", "우가진×웡", "우가우오", "우가웡",
     "JJ×우오즈미", "J우오즈미", "웡×JJ", "웡J",
     "류×우오즈미", "류우오", "류×웡", "류웡비공식 CP",
     "비공식 커플링", "비공컾"]

  const NgRules: seq<Rule> := [
    Rule("비공식 커플링 주제", CouplingKeywords, CouplingMessages),
    AbuseRule,
    OtherWorksRule]

  /** `NG_RULES` as evidently intended, with `"류웡"` and `"비공식 CP"` as two keywords. */
  const CouplingKeywordsIntended: seq<string> :=
    ["우가진×우오즈미", "우가진×웡", "우가우오", "우가웡",
     "JJ×우오즈미", "J우오즈미", "웡×JJ", "웡J",
     "류×우오즈미", "류우오", "류×웡", "류웡",
     "비공식 CP", "비공식 커플링", "비공컾"]

  const NgRulesIntended: seq<Rule> := [
    Rule("비공식 커플링 주제", CouplingKeywordsIntended, CouplingMessages),
    AbuseRule,
    OtherWorksRule]

  /** Index of the first keyword of the list that occurs in the text. */
  function FirstKeyword(keywords: seq<string>, text: string): (r: Option<nat>)
    ensures r.Some? ==> r.value < |keywords|
    decreases |keywords|
  {
    if keywords == [] then None
    else if Contains(text, keywords[0]) then Some(0)
    else match FirstKeyword(keywords[1..], text)
      case None => None
      case Some(k) => Some(k + 1)
  }

  /**
   * `check_ng_category(text)`; `pick` stands for `random.choice` among the
   * category's messages. `None` stands for `(None, None)`.
   */
  function CheckNg(rules: seq<Rule>, text: string, pick: nat): Option<Hit>
    requires WellFormed(rules)
    decreases |rules|
  {
    if rules == [] then None
    else match FirstKeyword(rules[0].keywords, text)
      case Some(k) => Some(Hit(rules[0].messages[pick % |rules[0].messages|], rules[0].keywords[k]))
      case None => CheckNg(rules[1..], text, pick)
  }

  // ---------------------------------------------------------------------------
  // The first match, described without the search

  /** No keyword of category `r` before index `k` occurs in the text. */
  predicate NoneBefore(keywords: seq<string>, text: string, k: nat) {
    forall j :: 0 <= j < k && j < |keywords| ==> !Contains(text, keywords[j])
  }

  /** No keyword of the first `r` categories occurs in the text. */
  predicate NoneInFirst(rules: seq<Rule>, text: string, r: nat) {
    forall q :: 0 <= q < r && q < |rules| ==> NoneBefore(rules[q].keywords, text, |rules[q].keywords|)
  }

  /** Keyword `k` of category `r` is the first one found, in category order and then list order. */
  predicate FirstHit(rules: seq<Rule>, text: string, r: nat, k: nat) {
    && r < |rules| && k < |rules[r].keywords|
    && Contains(text, rules[r].keywords[k])
    && NoneBefore(rules[r].keywords, text, k)
    && NoneInFirst(rules, text, r)
  }

  lemma {:induction false} FirstKeywordSpec(keywords: seq<string>, text: string)
    ensures FirstKeyword(keywords, text).None? <==> NoneBefore(keywords, text, |keywords|)
    ensures FirstKeyword(keywords, text).Some? ==>
      var k := FirstKeyword(keywords, text).value;
      Contains(text, keywords[k]) && NoneBefore(keywords, text, k)
    decreases |keywords|
  {
    if keywords != [] && !Contains(text, keywords[0]) {
      FirstKeywordSpec(keywords[1..], text);
      assert forall j :: 0 < j < |keywords| ==> keywords[j] == keywords[1..][j - 1];
    }
  }

  /** Dropping the first category shifts the categories by one. */
  lemma NoneInFirstCons(rules: seq<Rule>, text: string, r: nat)
    requires 0 < r <= |rules|
    ensures NoneInFirst(rules, text, r) <==>
      NoneBefore(rules[0].keywords, text, |rules[0].keywords|) && NoneInFirst(rules[1..], text, r - 1)
  {
    var rest := rules[1..];
    assert forall q :: 0 <= q < |rest| ==> rest[q] == rules[q + 1];
    if NoneBefore(rules[0].keywords, text, |rules[0].keywords|) && NoneInFirst(rest, text, r - 1) {
      forall q | 0 < q < r
        ensures NoneBefore(rules[q].keywords, text, |rules[q].keywords|)
      {
        assert rules[q] == rest[q - 1];
      }
    }
  }

  /** `check_ng_category` finds nothing exactly when no keyword of any category occurs in the text. */
  lemma {:induction false} CheckNgNone(rules: seq<Rule>, text: string, pick: nat)
    requires WellFormed(rules)
    ensures CheckNg(rules, text, pick).None? <==> NoneInFirst(rules, text, |rules|)
    decreases |rules|
  {
    if rules != [] {
      FirstKeywordSpec(rules[0].keywords, text);
      NoneInFirstCons(rules, text, |rules|);
      if FirstKeyword(rules[0].keywords, text).None? {
        CheckNgNone(rules[1..], text, pick);
      }
    }
  }

  /**
   * When `check_ng_category` finds something, it reports the first keyword
   * found, in category order then list order, and a message of that
   * keyword's category.
   */
  lemma {:induction false} CheckNgFirst(rules: seq<Rule>, text: string, pick: nat)
    requires WellFormed(rules) && CheckNg(rules, text, pick).Some?
    ensures exists r: nat, k: nat ::
      (&& FirstHit(rules, text, r, k)
       && CheckNg(rules, text, pick).value.keyword == rules[r].keywords[k]
       && CheckNg(rules, text, pick).value.message in rules[r].messages)
    decreases |rules|
  {
    var hit := CheckNg(rules, text, pick).value;
    FirstKeywordSpec(rules[0].keywords, text);
    if FirstKeyword(rules[0].keywords, text).Some? {
      var k := FirstKeyword(rules[0].keywords, text).value;
      assert FirstHit(rules, text, 0, k);
    } else {
      var rest := rules[1..];
      CheckNgFirst(rest, text, pick);
      var r: nat, k: nat :| FirstHit(rest, text, r, k)
        && hit.keyword == rest[r].keywords[k] && hit.message in rest[r].messages;
      NoneInFirstCons(rules, text, r + 1);
      assert rules[r + 1] == rest[r];
      assert FirstHit(rules, text, r + 1, k);
    }
  }

  /**
   * A keyword that contains an earlier keyword of its own category is never
   * the one reported: `"이딴 거"` is always reported as `"이딴"`, and
   * `"절대미궁 비밀의 엄지공주"` as `"절대미궁"`.
   */
  lemma ShadowedKeyword(rules: seq<Rule>, text: string, pick: nat, r: nat, j: nat, k: nat)
    requires WellFormed(rules)
    requires r < |rules| && j < k < |rules[r].keywords|
    requires Contains(rules[r].keywords[k], rules[r].keywords[j])
    ensures !FirstHit(rules, text, r, k)
  {
    if Contains(text, rules[r].keywords[k]) {
      ContainsTrans(text, rules[r].keywords[k], rules[r].keywords[j]);
    }
  }

  /** A substring of a substring is a substring. */
  lemma ContainsTrans(s: string, t: string, u: string)
    requires Contains(s, t) && Contains(t, u)
    ensures Contains(s, u)
  {
    ContainsIff(s, t);
    ContainsIff(t, u);
    ContainsIff(s, u);
    var i :| OccursAt(s, t, i);
    var j :| OccursAt(t, u, j);
    forall m | 0 <= m < |u|
      ensures s[i + j + m] == u[m]
    {
      assert u[m] == t[j + m] == s[i..i + |t|][j + m];
    }
    assert OccursAt(s, u, i + j);
  }

  /** `"이딴 거"` and `"절대미궁 비밀의 엄지공주"` contain keywords listed before them. */
  lemma ShadowedInNgRules()
    ensures Contains(NgRules[1].keywords[18], NgRules[1].keywords[4])
    ensures Contains(NgRules[2].keywords[4], NgRules[2].keywords[3])
  {
    assert AbuseKeywords[18][..|AbuseKeywords[4]|] == AbuseKeywords[4];
    assert OtherWorksKeywords[4][..|OtherWorksKeywords[3]|] == OtherWorksKeywords[3];
  }

  // ---------------------------------------------------------------------------
  // The fused keyword

  lemma RulesWellFormed()
    ensures WellFormed(NgRules) && WellFormed(NgRulesIntended)
  {
  }

  /** A keyword that cannot occur in a two-character text: longer than it, or differing from each of its pieces. */
  predicate Miss(t: string, kw: string) {
    |t| == 2 && (|kw| > 2 || (|kw| > 0 && kw != t && kw != [t[0]] && kw != [t[1]]))
  }

  lemma MissNotContained(t: string, kw: string)
    requires Miss(t, kw)
    ensures !Contains(t, kw)
  {
    if |kw| <= 2 {
      assert t[..1] == [t[0]] && t[1..][..1] == [t[1]] && t[..2] == t;
      assert !Contains(t[1..][1..], kw);
    }
  }

  /** Every keyword from index `i` up to `n` misses the text. */
  predicate AllMiss(t: string, kws: seq<string>, i: nat, n: nat)
    requires n <= |kws|
    decreases n - i
  {
    i >= n || (Miss(t, kws[i]) && AllMiss(t, kws, i + 1, n))
  }

  lemma {:induction false} AllMissNone(t: string, kws: seq<string>, i: nat, n: nat)
    requires n <= |kws| && AllMiss(t, kws, i, n)
    ensures forall j :: i <= j < n ==> !Contains(t, kws[j])
    decreases n - i
  {
    if i < n {
      MissNotContained(t, kws[i]);
      AllMissNone(t, kws, i + 1, n);
    }
  }

  lemma CouplingMiss()
    ensures NoneBefore(CouplingKeywords, "류웡", |CouplingKeywords|)
  {
    assert AllMiss("류웡", CouplingKeywords, 14, 14);
    assert AllMiss("류웡", CouplingKeywords, 13, 14);
    assert AllMiss("류웡", CouplingKeywords, 12, 14);
    assert AllMiss("류웡", CouplingKeywords, 11, 14);
    assert AllMiss("류웡", CouplingKeywords, 10, 14);
    assert AllMiss("류웡", CouplingKeywords, 9, 14);
    assert AllMiss("류웡", CouplingKeywords, 8, 14);
    assert AllMiss("류웡", CouplingKeywords, 7, 14);
    assert AllMiss("류웡", CouplingKeywords, 6, 14);
    assert AllMiss("류웡", CouplingKeywords, 5, 14);
    assert AllMiss("류웡", CouplingKeywords, 4, 14);
    assert AllMiss("류웡", CouplingKeywords, 3, 14);
    assert AllMiss("류웡", CouplingKeywords, 2, 14);
    assert AllMiss("류웡", CouplingKeywords, 1, 14);
    assert AllMiss("류웡", CouplingKeywords, 0, 14);
    AllMissNone("류웡", CouplingKeywords, 0, 14);
  }

  lemma AbuseMissHigh()
    ensures AllMiss("류웡", AbuseKeywords, 11, 21)
  {
    assert AllMiss("류웡", AbuseKeywords, 21, 21);
    assert AllMiss("류웡", AbuseKeywords, 20, 21);
    assert AllMiss("류웡", AbuseKeywords, 19, 21);
    assert AllMiss("류웡", AbuseKeywords, 18, 21);
    assert AllMiss("류웡", AbuseKeywords, 17, 21);
    assert AllMiss("류웡", AbuseKeywords, 16, 21);
    assert AllMiss("류웡", AbuseKeywords, 15, 21);
    assert AllMiss("류웡", AbuseKeywords, 14, 21);
    assert AllMiss("류웡", AbuseKeywords, 13, 21);
    assert AllMiss("류웡", AbuseKeywords, 12, 21);
    assert AllMiss("류웡", AbuseKeywords, 11, 21);
  }

  lemma AbuseMiss()
    ensures NoneBefore(AbuseKeywords, "류웡", |AbuseKeywords|)
  {
    AbuseMissHigh();
    assert AllMiss("류웡", AbuseKeywords, 10, 21);
    assert AllMiss("류웡", AbuseKeywords, 9, 21);
    assert AllMiss("류웡", AbuseKeywords, 8, 21);
    assert AllMiss("류웡", AbuseKeywords, 7, 21);
    assert AllMiss("류웡", AbuseKeywords, 6, 21);
    assert AllMiss("류웡", AbuseKeywords, 5, 21);
    assert AllMiss("류웡", AbuseKeywords, 4, 21);
    assert AllMiss("류웡", AbuseKeywords, 3, 21);
    assert AllMiss("류웡", AbuseKeywords, 2, 21);
    assert AllMiss("류웡", AbuseKeywords, 1, 21);
    assert AllMiss("류웡", AbuseKeywords, 0, 21);
    AllMissNone("류웡", AbuseKeywords, 0, 21);
  }

  lemma OtherWorksMiss()
    ensures NoneBefore(OtherWorksKeywords, "류웡", |OtherWorksKeywords|)
  {
    assert AllMiss("류웡", OtherWorksKeywords, 7, 7);
    assert AllMiss("류웡", OtherWorksKeywords, 6, 7);
    assert AllMiss("류웡", OtherWorksKeywords, 5, 7);
    assert AllMiss("류웡", OtherWorksKeywords, 4, 7);
    assert AllMiss("류웡", OtherWorksKeywords, 3, 7);
    assert AllMiss("류웡", OtherWorksKeywords, 2, 7);
    assert AllMiss("류웡", OtherWorksKeywords, 1, 7);
    assert AllMiss("류웡", OtherWorksKeywords, 0, 7);
    AllMissNone("류웡", OtherWorksKeywords, 0, 7);
  }

  /** As written, a mention saying only `류웡` passes moderation. */
  lemma FusedKeywordMissed(pick: nat)
    ensures WellFormed(NgRules)
    ensures CheckNg(NgRules, "류웡", pick) == None
  {
    RulesWellFormed();
    CouplingMiss();
    AbuseMiss();
    OtherWorksMiss();
    assert NoneInFirst(NgRules, "류웡", 3);
    CheckNgNone(NgRules, "류웡", pick);
  }

  lemma IntendedCouplingMiss()
    ensures NoneBefore(CouplingKeywordsIntended, "류웡", 11)
  {
    assert AllMiss("류웡", CouplingKeywordsIntended, 11, 11);
    assert AllMiss("류웡", CouplingKeywordsIntended, 10, 11);
    assert AllMiss("류웡", CouplingKeywordsIntended, 9, 11);
    assert AllMiss("류웡", CouplingKeywordsIntended, 8, 11);
    assert AllMiss("류웡", CouplingKeywordsIntended, 7, 11);
    assert AllMiss("류웡", CouplingKeywordsIntended, 6, 11);
    assert AllMiss("류웡", CouplingKeywordsIntended, 5, 11);
    assert AllMiss("류웡", CouplingKeywordsIntended, 4, 11);
    assert AllMiss("류웡", CouplingKeywordsIntended, 3, 11);
    assert AllMiss("류웡", CouplingKeywordsIntended, 2, 11);
    assert AllMiss("류웡", CouplingKeywordsIntended, 1, 11);
    assert AllMiss("류웡", CouplingKeywordsIntended, 0, 11);
    AllMissNone("류웡", CouplingKeywordsIntended, 0, 11);
  }

  lemma IntendedHas()
    ensures Contains("류웡", CouplingKeywordsIntended[11])
  {
    assert "류웡"[..|CouplingKeywordsIntended[11]|] == CouplingKeywordsIntended[11];
  }

  /** In the intended coupling list, `"류웡"` is the first keyword found in `류웡`. */
  lemma IntendedFirst()
    ensures FirstKeyword(CouplingKeywordsIntended, "류웡") == Some(11)
  {
    var t := "류웡";
    var kws := CouplingKeywordsIntended;
    IntendedCouplingMiss();
    IntendedHas();
    FirstKeywordSpec(kws, t);
    assert !NoneBefore(kws, t, |kws|);
    var k := FirstKeyword(kws, t).value;
    assert k >= 11;
    assert k <= 11;
  }

  /** With the comma restored, the same mention is refused as a coupling topic. */
  lemma IntendedKeywordCaught(pick: nat)
    ensures WellFormed(NgRulesIntended)
    ensures CheckNg(NgRulesIntended, "류웡", pick) == Some(Hit(CouplingMessages[0], "류웡"))
  {
    RulesWellFormed();
    IntendedFirst();
    var coupling := NgRulesIntended[0];
    assert coupling.keywords == CouplingKeywordsIntended && coupling.messages == CouplingMessages;
    CheckNgHead(NgRulesIntended, "류웡", pick, 11);
    IntendedKeywordAt();
    assert pick % |CouplingMessages| == 0;
  }

  lemma IntendedKeywordAt()
    ensures |CouplingKeywordsIntended| > 11 && CouplingKeywordsIntended[11] == "류웡"
  {
  }

  /** When the first category has a keyword in the text, the first such keyword decides the hit. */
  lemma CheckNgHead(rules: seq<Rule>, text: string, pick: nat, k: nat)
    requires WellFormed(rules) && rules != [] && FirstKeyword(rules[0].keywords, text) == Some(k)
    ensures CheckNg(rules, text, pick) == Some(Hit(rules[0].messages[pick % |rules[0].messages|], rules[0].keywords[k]))
  {
  }
}
