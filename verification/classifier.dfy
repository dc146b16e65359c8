/**
  The question classifier of `RAGHandler` (src/rag/rag_handler.py): the
  keyword-priority classifier `_detect_question_type` and the benchmark phrase
  table behind `_is_exact_question`.
*/
module Classifier {
  import opened Wrappers
  import opened Text

  /** The question categories; `Content` is the catch-all. */
  datatype QuestionType =
    | Title | Lesson | Characters | Moral | Summary | Theme
    | Difficulty | AgeGroup | DifficultWords | Content

  const TitleKeywords: seq<string> :=
    ["عنوان", "نام", "کا نام", "کا عنوان", "کہانی کا عنوان", "کہانی کا نام"]
  const LessonKeywords: seq<string> :=
    ["سبق", "سیکھنا", "سیکھتے", "سیکھا", "کہانی کا سبق", "کہانی سے سبق"]
  const CharactersKeywords: seq<string> :=
    ["کردار", "کرداروں", "کون کون", "کون ہے", "کہانی کے کردار"]
  const MoralKeywords: seq<string> :=
    ["سبق", "پیغام", "مقصد", "نتیجہ", "کہانی کا پیغام"]
  const SummaryKeywords: seq<string> :=
    ["خلاصہ", "کہانی کا خلاصہ", "کہانی کا مختصر بیان"]
  const ThemeKeywords: seq<string> :=
    ["تھیم", "موضوع", "کہانی کا موضوع"]
  const DifficultyKeywords: seq<string> :=
    ["مشکل", "آسان", "کہانی کی مشکل"]
  const AgeGroupKeywords: seq<string> :=
    ["عمر", "کہانی کس عمر کے لیے ہے"]
  const DifficultWordsKeywords: seq<string> :=
    ["مشکل الفاظ", "مشکل لفظ", "لفظوں کا مطلب"]

  /** The keyword list of each category (none for `Content`). */
  function KeywordsOf(t: QuestionType): seq<string>
  {
    match t
    case Title => TitleKeywords
    case Lesson => LessonKeywords
    case Characters => CharactersKeywords
    case Moral => MoralKeywords
    case Summary => SummaryKeywords
    case Theme => ThemeKeywords
    case Difficulty => DifficultyKeywords
    case AgeGroup => AgeGroupKeywords
    case DifficultWords => DifficultWordsKeywords
    case Content => []
  }

  /** The position of a category in the classifier's order of tests. */
  function Rank(t: QuestionType): nat
  {
    match t
    case Title => 0
    case Lesson => 1
    case Characters => 2
    case Moral => 3
    case Summary => 4
    case Theme => 5
    case Difficulty => 6
    case AgeGroup => 7
    case DifficultWords => 8
    case Content => 9
  }

  /** `any(pattern in q for pattern in ks)`. */
  predicate MentionsAny(q: string, ks: seq<string>)
  {
    exists i :: 0 <= i < |ks| && Contains(q, ks[i])
  }

  /** The category a lower-cased question tests positive for. */
  predicate Hits(q: string, t: QuestionType)
  {
    MentionsAny(q, KeywordsOf(t))
  }

  /**
    `_detect_question_type`: the first category, in the order title, lesson,
    characters, moral, summary, theme, difficulty, age group, difficult words,
    one of whose keywords occurs in the lower-cased question; `Content` when
    none does.
  */
  function DetectQuestionType(question: string): (t: QuestionType)
    ensures t != Content ==> Hits(Lower(question), t)
    ensures forall u :: Rank(u) < Rank(t) ==> !Hits(Lower(question), u)
    ensures t == Content ==> forall u :: !Hits(Lower(question), u)
  {
    var q := Lower(question);
    if MentionsAny(q, TitleKeywords) then Title
    else if MentionsAny(q, LessonKeywords) then Lesson
    else if MentionsAny(q, CharactersKeywords) then Characters
    else if MentionsAny(q, MoralKeywords) then Moral
    else if MentionsAny(q, SummaryKeywords) then Summary
    else if MentionsAny(q, ThemeKeywords) then Theme
    else if MentionsAny(q, DifficultyKeywords) then Difficulty
    else if MentionsAny(q, AgeGroupKeywords) then AgeGroup
    else if MentionsAny(q, DifficultWordsKeywords) then DifficultWords
    else Content
  }

  /** The classification is determined by which categories test positive:
      two questions with the same hits get the same category. */
  lemma DetectDependsOnHits(q1: string, q2: string)
    requires forall u :: Hits(Lower(q1), u) <==> Hits(Lower(q2), u)
    ensures DetectQuestionType(q1) == DetectQuestionType(q2)
  {
    var t1, t2 := DetectQuestionType(q1), DetectQuestionType(q2);
    if t1 != Content {
      assert Hits(Lower(q2), t1);
    }
    if t2 != Content {
      assert Hits(Lower(q1), t2);
    }
  }

  /** `big` contains `small` at index `j`, so a question containing `big`
      contains `small`. */
  lemma Subsumes(q: string, big: string, small: string, j: int)
    requires OccursAt(big, small, j)
    requires Contains(q, big)
    ensures Contains(q, small)
  {
    OccursContains(big, small, j);
    ContainsTransitive(q, big, small);
  }

  /** Only the words عنوان and نام matter for titles: every longer title
      keyword contains one of them. */
  lemma TitleStems(q: string)
    ensures Hits(q, Title) <==> Contains(q, "عنوان") || Contains(q, "نام")
  {
    if Hits(q, Title) {
      var i :| 0 <= i < |TitleKeywords| && Contains(q, TitleKeywords[i]);
      if i == 2 { Subsumes(q, "کا نام", "نام", 3); }
      if i == 3 { Subsumes(q, "کا عنوان", "عنوان", 3); }
      if i == 4 { Subsumes(q, "کہانی کا عنوان", "عنوان", 9); }
      if i == 5 { Subsumes(q, "کہانی کا نام", "نام", 9); }
    }
    if Contains(q, "عنوان") { assert Contains(q, TitleKeywords[0]); }
    if Contains(q, "نام") { assert Contains(q, TitleKeywords[1]); }
  }

  /** A question mentioning سبق is never classified as moral: the lesson
      list, tested first, holds the same word. It is a lesson question
      unless a title keyword occurs too. */
  lemma LessonShadowsMoral(question: string)
    requires Contains(Lower(question), "سبق")
    ensures DetectQuestionType(question) != Moral
    ensures DetectQuestionType(question) in {Title, Lesson}
    ensures !Hits(Lower(question), Title) ==> DetectQuestionType(question) == Lesson
  {
    assert Contains(Lower(question), LessonKeywords[0]);
    assert Hits(Lower(question), Lesson);
  }

  /** A moral question mentions پیغام, مقصد or نتیجہ, and never سبق. */
  lemma MoralKeywordsReachable(question: string)
    requires DetectQuestionType(question) == Moral
    ensures !Contains(Lower(question), "سبق")
    ensures Contains(Lower(question), "پیغام") || Contains(Lower(question), "مقصد") || Contains(Lower(question), "نتیجہ")
  {
    var q := Lower(question);
    if Contains(q, "سبق") {
      LessonShadowsMoral(question);
    }
    var i :| 0 <= i < |MoralKeywords| && Contains(q, MoralKeywords[i]);
    if i == 4 { Subsumes(q, "کہانی کا پیغام", "پیغام", 9); }
  }

  /** The word مشکل sends a question to `Difficulty` before the difficult-words
      test is reached; only the phrase لفظوں کا مطلب, without مشکل, can make a
      difficult-words question. */
  lemma DifficultyShadowsDifficultWords(question: string)
    ensures Contains(Lower(question), "مشکل") ==> DetectQuestionType(question) != DifficultWords
    ensures Contains(Lower(question), "مشکل") && (forall u :: Rank(u) < Rank(Difficulty) ==> !Hits(Lower(question), u))
      ==> DetectQuestionType(question) == Difficulty
    ensures DetectQuestionType(question) == DifficultWords ==>
      !Contains(Lower(question), "مشکل") && Contains(Lower(question), "لفظوں کا مطلب")
  {
    var q := Lower(question);
    if Contains(q, "مشکل") {
      assert Contains(q, DifficultyKeywords[0]);
      assert Hits(q, Difficulty);
    }
    if DetectQuestionType(question) == DifficultWords {
      var i :| 0 <= i < |DifficultWordsKeywords| && Contains(q, DifficultWordsKeywords[i]);
      if i == 0 { Subsumes(q, "مشکل الفاظ", "مشکل", 0); }
      if i == 1 { Subsumes(q, "مشکل لفظ", "مشکل", 0); }
    }
  }

  /** The benchmark phrase table, in the order `exact_questions` lists it. */
  const ExactQuestions: seq<(QuestionType, seq<string>)> := [
    (Title, ["کہانی کا عنوان کیا ہے؟", "کہانی کا نام کیا ہے؟"]),
    (Lesson, ["کہانی سے کیا سبق ملتا ہے؟", "کہانی کا سبق کیا ہے؟"]),
    (Characters, ["کہانی کے کردار کون کون ہیں؟", "کہانی میں کون کون ہیں؟"]),
    (Moral, ["کہانی کا پیغام کیا ہے؟", "کہانی کا مقصد کیا ہے؟"]),
    (Summary, ["کہانی کا خلاصہ کیا ہے؟", "کہانی کا مختصر بیان کیا ہے؟"]),
    (DifficultWords, ["کہانی کے مشکل الفاظ کون سے ہیں؟", "مشکل لفظوں کا مطلب کیا ہے؟"])
  ]

  /** The listed phrases of a category (none for the categories the table omits). */
  function PhrasesOf(t: QuestionType): (ps: seq<string>)
    ensures forall i :: 0 <= i < |ExactQuestions| && ExactQuestions[i].0 == t ==> ps == ExactQuestions[i].1
    ensures t in {Theme, Difficulty, AgeGroup, Content} ==> ps == []
  {
    match t
    case Title => ExactQuestions[0].1
    case Lesson => ExactQuestions[1].1
    case Characters => ExactQuestions[2].1
    case Moral => ExactQuestions[3].1
    case Summary => ExactQuestions[4].1
    case DifficultWords => ExactQuestions[5].1
    case _ => []
  }

  /** The table scan of `_is_exact_question` over `table`, first category first. */
  function ScanExact(q: string, table: seq<(QuestionType, seq<string>)>): (r: Option<QuestionType>)
    ensures r.None? <==> forall i :: 0 <= i < |table| ==> q !in table[i].1
    ensures r.Some? ==> exists i :: 0 <= i < |table| && table[i].0 == r.value && q in table[i].1
    decreases |table|
  {
    if |table| == 0 then None
    else if q in table[0].1 then Some(table[0].0)
    else ScanExact(q, table[1..])
  }

  /**
    `_is_exact_question`: `Some(t)` for Python's `(True, t)` when the stripped
    question is a listed phrase of category `t`, `None` for `(False, '')`.
  */
  function IsExactQuestion(question: string): (r: Option<QuestionType>)
    ensures r.Some? ==> Strip(question) in PhrasesOf(r.value)
    ensures r.None? ==> forall t :: Strip(question) !in PhrasesOf(t)
  {
    ScanPhrases(Strip(question));
    ScanExact(Strip(question), ExactQuestions)
  }

  /** The scan of the phrase table finds a category listing `q`, or none lists it. */
  lemma ScanPhrases(q: string)
    ensures ScanExact(q, ExactQuestions).Some? ==> q in PhrasesOf(ScanExact(q, ExactQuestions).value)
    ensures ScanExact(q, ExactQuestions).None? ==> forall t :: q !in PhrasesOf(t)
  {
    var r := ScanExact(q, ExactQuestions);
    if r.Some? {
      var i :| 0 <= i < |ExactQuestions| && ExactQuestions[i].0 == r.value && q in ExactQuestions[i].1;
      assert PhrasesOf(r.value) == ExactQuestions[i].1;
    } else {
      forall t
        ensures q !in PhrasesOf(t)
      {
        assert q !in ExactQuestions[0].1 && q !in ExactQuestions[1].1;
        assert q !in ExactQuestions[2].1 && q !in ExactQuestions[3].1;
        assert q !in ExactQuestions[4].1 && q !in ExactQuestions[5].1;
      }
    }
  }

  /** A question is exact for category `t` exactly when its stripped form is
      one of `t`'s listed phrases; no phrase is listed under two categories. */
  lemma ExactIff(question: string, t: QuestionType)
    ensures IsExactQuestion(question) == Some(t) <==> Strip(question) in PhrasesOf(t)
  {
    var r := IsExactQuestion(question);
    if Strip(question) in PhrasesOf(t) && r != Some(t) {
      assert r.Some?;
      PhrasesDisjoint(Strip(question), t, r.value);
    }
  }

  /** No phrase belongs to two categories. */
  lemma PhrasesDisjoint(p: string, t: QuestionType, u: QuestionType)
    requires p in PhrasesOf(t) && p in PhrasesOf(u)
    ensures t == u
  {
  }

  /** Theme, difficulty and age-group questions are never exact, and neither
      is a content question. */
  lemma NeverExact(question: string)
    ensures IsExactQuestion(question) !in {Some(Theme), Some(Difficulty), Some(AgeGroup), Some(Content)}
  {
  }
}
