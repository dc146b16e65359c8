/**
  Story records and the direct-answer resolver `_get_direct_answer` of
  `RAGHandler` (src/rag/rag_handler.py). A story file is modelled by the
  record its JSON decodes to; an absent key is `None`.
*/
module Stories {
  import opened Wrappers
  import opened Text
  import opened Classifier

  datatype Character = Character(name: string)

  datatype WordGloss = WordGloss(word: string, meaning: string)

  /** The keys of a story file the pipeline reads. */
  datatype StoryRecord = StoryRecord(
    title: Option<string>,
    content: Option<string>,
    lesson: Option<string>,
    moral: Option<string>,
    summary: Option<string>,
    theme: Option<string>,
    difficultyLevel: Option<string>,
    ageGroup: Option<string>,
    characters: Option<seq<Character>>,
    difficultWords: Option<seq<WordGloss>>)

  /** The result record of `RAGHandler`: `{'success': True, 'response', 'context'}`
      or `{'success': False, 'error'}`. */
  datatype RagResult = Answered(response: string, context: string) | Failed(error: string)

  const StoryNotFound: string := "Story not found"
  const InvalidQuestionType: string := "Invalid question type"

  /** The separator between character names: an Arabic comma and a space. */
  const NameSeparator: string := "، "
  /** The separator between a difficult word and its meaning. */
  const GlossSeparator: string := " - "
  const Newline: string := "\n"

  /** The character names, in the order the file lists them. */
  function Names(cs: seq<Character>): (ns: seq<string>)
    ensures |ns| == |cs|
    ensures forall i :: 0 <= i < |cs| ==> ns[i] == cs[i].name
  {
    seq(|cs|, i requires 0 <= i < |cs| => cs[i].name)
  }

  /** One `"word - meaning"` line per difficult word, in file order. */
  function GlossLines(ws: seq<WordGloss>): (ls: seq<string>)
    ensures |ls| == |ws|
    ensures forall i :: 0 <= i < |ws| ==> ls[i] == ws[i].word + GlossSeparator + ws[i].meaning
  {
    seq(|ws|, i requires 0 <= i < |ws| => ws[i].word + GlossSeparator + ws[i].meaning)
  }

  /** The text a category reads from a story; `''` where the key is absent. */
  function FieldText(t: QuestionType, story: StoryRecord): string
  {
    match t
    case Title => story.title.GetOr("")
    case Lesson => story.lesson.GetOr("")
    case Characters => Join(NameSeparator, Names(story.characters.GetOr([])))
    case Moral => story.moral.GetOr("")
    case Summary => story.summary.GetOr("")
    case Theme => story.theme.GetOr("")
    case Difficulty => story.difficultyLevel.GetOr("")
    case AgeGroup => story.ageGroup.GetOr("")
    case DifficultWords => Join(Newline, GlossLines(story.difficultWords.GetOr([])))
    case Content => ""
  }

  /**
    `_get_direct_answer(question_type, story_id)` with the story file given
    as `story` (`None` when no file exists): a missing file fails with
    'Story not found'; every category but `Content` succeeds, even when the
    key is absent, with the same text as response and context; `Content`
    fails with 'Invalid question type'.
  */
  function DirectAnswer(t: QuestionType, story: Option<StoryRecord>): (r: RagResult)
    ensures r.Failed? <==> story.None? || t == Content
    ensures r.Failed? ==> r.error == (if story.None? then StoryNotFound else InvalidQuestionType)
    ensures r.Answered? ==> r.response == r.context == FieldText(t, story.value)
  {
    if story.None? then Failed(StoryNotFound)
    else if t == Content then Failed(InvalidQuestionType)
    else
      var text := FieldText(t, story.value);
      Answered(text, text)
  }

  /** The answer to a characters question splits back on '، ' into the
      character names, provided there is at least one and no name holds the
      separator; a story without characters answers `''`. */
  lemma CharactersRoundTrip(story: StoryRecord)
    ensures story.characters.GetOr([]) == [] ==> DirectAnswer(Characters, Some(story)).response == ""
    ensures
      var ns := Names(story.characters.GetOr([]));
      |ns| > 0 && (forall i :: 0 <= i < |ns| ==> !Contains(ns[i], NameSeparator)) ==>
        SplitStr(DirectAnswer(Characters, Some(story)).response, NameSeparator) == ns
  {
    var ns := Names(story.characters.GetOr([]));
    if |ns| > 0 && (forall i :: 0 <= i < |ns| ==> !Contains(ns[i], NameSeparator)) {
      assert BorderFree(NameSeparator) by {
        assert NameSeparator[1..][0] == ' ' && NameSeparator[..1][0] == '،';
      }
      SplitOfJoin(NameSeparator, ns);
    }
  }

  /** The answer to a difficult-words question splits back on newlines into
      one `"word - meaning"` line per word, provided no word or meaning holds a
      newline. */
  lemma DifficultWordsRoundTrip(story: StoryRecord)
    ensures story.difficultWords.GetOr([]) == [] ==> DirectAnswer(DifficultWords, Some(story)).response == ""
    ensures
      var ws := story.difficultWords.GetOr([]);
      |ws| > 0 && (forall i :: 0 <= i < |ws| ==> '\n' !in ws[i].word && '\n' !in ws[i].meaning) ==>
        SplitStr(DirectAnswer(DifficultWords, Some(story)).response, Newline) == GlossLines(ws)
  {
    var ws := story.difficultWords.GetOr([]);
    var ls := GlossLines(ws);
    if |ws| > 0 && (forall i :: 0 <= i < |ws| ==> '\n' !in ws[i].word && '\n' !in ws[i].meaning) {
      forall i | 0 <= i < |ls|
        ensures !Contains(ls[i], Newline)
      {
        assert '\n' !in ls[i];
        NoCharNotContained(ls[i], '\n');
      }
      SplitOfJoin(Newline, ls);
    }
  }

  /** A string without the character `c` does not contain `[c]`. */
  lemma NoCharNotContained(s: string, c: char)
    requires c !in s
    ensures !Contains(s, [c])
  {
    forall j | 0 <= j && j + 1 <= |s|
      ensures !OccursAt(s, [c], j)
    {
      assert s[j..j + 1] == [s[j]];
    }
  }
}
