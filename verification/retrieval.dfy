/**
  Context retrieval of `RAGHandler._get_relevant_context`
  (src/rag/rag_handler.py): a sentence completion if there is one, else the
  best-scoring sentences of the story, else the sentences of the nearest
  documents with near-duplicates suppressed.
*/
module Retrieval {
  import opened Wrappers
  import opened Text
  import opened Stories
  import opened External
  import opened Completion

  /** `xs` is `ys` with some elements left out, the rest in their order. */
  predicate IsSubsequence<T(==)>(xs: seq<T>, ys: seq<T>)
    decreases |ys|
  {
    if |xs| == 0 then true
    else if |ys| == 0 then false
    else if xs[0] == ys[0] then IsSubsequence(xs[1..], ys[1..])
    else IsSubsequence(xs, ys[1..])
  }

  lemma {:induction false} SubsequenceAppend<T>(xs: seq<T>, ys: seq<T>, y: T)
    requires IsSubsequence(xs, ys)
    ensures IsSubsequence(xs, ys + [y]) && IsSubsequence(xs + [y], ys + [y])
    decreases |ys|
  {
    if |xs| == 0 {
      SubsequenceOfEnd(ys, y);
      assert xs + [y] == [y];
    } else {
      assert (ys + [y])[1..] == ys[1..] + [y];
      assert (xs + [y])[1..] == xs[1..] + [y];
      if xs[0] == ys[0] {
        SubsequenceAppend(xs[1..], ys[1..], y);
      } else {
        SubsequenceAppend(xs, ys[1..], y);
      }
    }
  }

  lemma {:induction false} SubsequenceOfEnd<T>(ys: seq<T>, y: T)
    ensures IsSubsequence([y], ys + [y])
    decreases |ys|
  {
    if |ys| > 0 {
      assert (ys + [y])[1..] == ys[1..] + [y];
      SubsequenceOfEnd(ys[1..], y);
    } else {
      assert [y][1..] == [];
    }
  }

  /** Sentence `s` is similar to one already kept. */
  predicate DuplicateOfKept(s: string, kept: seq<string>, duplicate: (string, string) -> bool)
  {
    exists i :: 0 <= i < |kept| && duplicate(s, kept[i])
  }

  /** No kept sentence is similar to one kept before it. */
  predicate NoLaterDuplicate(kept: seq<string>, duplicate: (string, string) -> bool)
  {
    forall i, j :: 0 <= i < j < |kept| ==> !duplicate(kept[j], kept[i])
  }

  /** The near-duplicate loop of `_get_relevant_context`, continued from the
      sentences `kept` so far. */
  function DedupFrom(ss: seq<string>, kept: seq<string>, duplicate: (string, string) -> bool): seq<string>
    decreases |ss|
  {
    if |ss| == 0 then kept
    else if DuplicateOfKept(ss[0], kept, duplicate) then DedupFrom(ss[1..], kept, duplicate)
    else DedupFrom(ss[1..], kept + [ss[0]], duplicate)
  }

  lemma {:induction false} DedupFromShape(ss: seq<string>, seen: seq<string>, kept: seq<string>, duplicate: (string, string) -> bool)
    requires IsSubsequence(kept, seen) && NoLaterDuplicate(kept, duplicate)
    requires forall s :: s in seen && s !in kept ==> DuplicateOfKept(s, kept, duplicate)
    ensures IsSubsequence(DedupFrom(ss, kept, duplicate), seen + ss)
    ensures NoLaterDuplicate(DedupFrom(ss, kept, duplicate), duplicate)
    ensures forall s :: s in seen + ss && s !in DedupFrom(ss, kept, duplicate) ==>
      DuplicateOfKept(s, DedupFrom(ss, kept, duplicate), duplicate)
    decreases |ss|
  {
    if |ss| == 0 {
      assert seen + ss == seen;
    } else {
      var s := ss[0];
      assert seen + ss == (seen + [s]) + ss[1..];
      if DuplicateOfKept(s, kept, duplicate) {
        SubsequenceAppend(kept, seen, s);
        DedupFromShape(ss[1..], seen + [s], kept, duplicate);
      } else {
        SubsequenceAppend(kept, seen, s);
        var kept' := kept + [s];
        forall t | t in seen + [s] && t !in kept'
          ensures DuplicateOfKept(t, kept', duplicate)
        {
          var i :| 0 <= i < |kept| && duplicate(t, kept[i]);
          assert kept'[i] == kept[i];
        }
        DedupFromShape(ss[1..], seen + [s], kept', duplicate);
      }
      DedupKeepsKept(ss[1..], kept, duplicate);
      DedupKeepsKept(ss[1..], kept + [s], duplicate);
    }
  }

  /** The loop only ever appends to what it has kept. */
  lemma {:induction false} DedupKeepsKept(ss: seq<string>, kept: seq<string>, duplicate: (string, string) -> bool)
    ensures |DedupFrom(ss, kept, duplicate)| >= |kept|
    ensures DedupFrom(ss, kept, duplicate)[..|kept|] == kept
    decreases |ss|
  {
    if |ss| > 0 {
      if DuplicateOfKept(ss[0], kept, duplicate) {
        DedupKeepsKept(ss[1..], kept, duplicate);
      } else {
        DedupKeepsKept(ss[1..], kept + [ss[0]], duplicate);
        var r := DedupFrom(ss[1..], kept + [ss[0]], duplicate);
        assert r[..|kept|] == r[..|kept| + 1][..|kept|];
      }
    }
  }

  /**
    The sentences the fallback keeps: a sub-list of `ss` in retrieval order;
    no kept sentence is similar to one kept before it; and every sentence
    left out is similar to a kept one.
  */
  function Dedup(ss: seq<string>, duplicate: (string, string) -> bool): (kept: seq<string>)
    ensures IsSubsequence(kept, ss)
    ensures NoLaterDuplicate(kept, duplicate)
    ensures forall s :: s in ss && s !in kept ==> DuplicateOfKept(s, kept, duplicate)
  {
    DedupFromShape(ss, [], [], duplicate);
    assert [] + ss == ss;
    DedupFrom(ss, [], duplicate)
  }

  /** With no two sentences similar, nothing is suppressed. */
  lemma {:induction false} DedupNoDuplicates(ss: seq<string>, kept: seq<string>, duplicate: (string, string) -> bool)
    requires forall a, b :: !duplicate(a, b)
    ensures DedupFrom(ss, kept, duplicate) == kept + ss
    decreases |ss|
  {
    if |ss| == 0 {
      assert kept + ss == kept;
    } else {
      DedupNoDuplicates(ss[1..], kept + [ss[0]], duplicate);
      assert kept + [ss[0]] + ss[1..] == kept + ss;
    }
  }

  /** The sentences of every document of the first query result, in order. */
  function SentencesOf(documents: seq<seq<string>>, backend: Backend): seq<string>
  {
    DocumentSentences(documents, backend.tokenize)
  }

  /** Python truthiness of an optional string. */
  predicate Truthy(m: Option<string>)
  {
    m.Some? && m.value != ""
  }

  /**
    `_get_relevant_context(question, story_id)` with the story file given as
    `story`. With a story id, a sentence completion wins, then the best
    scoring sentences of the story's documents; otherwise (and as the
    fallback) the near-duplicate-free sentences of the two nearest documents,
    joined by spaces, or `''` when the collection returns nothing.
  */
  function GetRelevantContext(question: string, storyId: string, story: Option<StoryRecord>, backend: Backend): (ctx: string)
    ensures storyId != "" && Truthy(FindExactMatch(question, storyId, story, backend)) ==>
      ctx == FindExactMatch(question, storyId, story, backend).value
    ensures storyId == "" && |backend.query(question, 2, "")| == 0 ==> ctx == ""
    // The scored branch: the best matches among the story's documents.
    ensures var scored := backend.query(question, 3, storyId);
      storyId != "" && !Truthy(FindExactMatch(question, storyId, story, backend)) && |scored| > 0
      && |backend.bestMatches(question, SentencesOf(scored, backend))| > 0 ==>
        ctx == Join(" ", backend.bestMatches(question, SentencesOf(scored, backend)))
    // Nothing from any source gives the empty context.
    ensures var scored := backend.query(question, 3, storyId);
      ((storyId != "" ==> !Truthy(FindExactMatch(question, storyId, story, backend)))
       && (storyId != "" && |scored| > 0 ==> backend.bestMatches(question, SentencesOf(scored, backend)) == [])
       && |backend.query(question, 2, storyId)| == 0)
      ==> ctx == ""
  {
    var exact := if storyId != "" then FindExactMatch(question, storyId, story, backend) else None;
    if Truthy(exact) then exact.value
    else
      var scored := backend.query(question, 3, storyId);
      var best := if storyId != "" && |scored| > 0 then backend.bestMatches(question, SentencesOf(scored, backend)) else [];
      if |best| > 0 then Join(" ", best)
      else
        var nearest := backend.query(question, 2, storyId);
        if |nearest| == 0 then ""
        else Join(" ", Dedup(SentencesOf(nearest, backend), backend.duplicate))
  }

  /** Without a completion or a scored match, the context is the fallback:
      retrieved sentences with near-duplicates suppressed, in retrieval order. */
  lemma FallbackContext(question: string, storyId: string, story: Option<StoryRecord>, backend: Backend)
    requires storyId != "" ==> !Truthy(FindExactMatch(question, storyId, story, backend))
    requires storyId != "" && |backend.query(question, 3, storyId)| > 0 ==>
      backend.bestMatches(question, SentencesOf(backend.query(question, 3, storyId), backend)) == []
    requires |backend.query(question, 2, storyId)| > 0
    ensures GetRelevantContext(question, storyId, story, backend) ==
      Join(" ", Dedup(SentencesOf(backend.query(question, 2, storyId), backend), backend.duplicate))
  {
  }
}
