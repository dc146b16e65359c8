/**
  The sentence-completion finder `_find_exact_match` of `RAGHandler`
  (src/rag/rag_handler.py): given the start of a sentence, find the sentence
  of the story that continues it.
*/
module Completion {
  import opened Wrappers
  import opened Text
  import opened Stories
  import opened External

  /** Sentence `i` is the first of `ss` that contains `p`. */
  predicate FirstContaining(ss: seq<string>, p: string, i: int)
  {
    0 <= i < |ss| && Contains(ss[i], p) && forall j :: 0 <= j < i ==> !Contains(ss[j], p)
  }

  /** The part of `s` from the first occurrence of `p` on (`s[s.find(p):]`). */
  function FromFirst(s: string, p: string): (r: string)
    requires Contains(s, p)
    ensures IsPrefix(p, r)
    ensures |r| <= |s| && r == s[|s| - |r|..]
  {
    var k := Find(s, p).value;
    assert s[k..][..|p|] == s[k..k + |p|];
    s[k..]
  }

  /**
    The scan over sentences in `_find_exact_match`: a sentence that starts
    with `p` is returned whole, one that contains `p` further on is returned
    from the occurrence of `p`. The result is the first sentence containing
    `p`, cut to start at `p`; `None` when no sentence contains `p`.
  */
  function ScanSentences(ss: seq<string>, p: string): (r: Option<string>)
    ensures r.None? <==> forall i :: 0 <= i < |ss| ==> !Contains(ss[i], p)
    ensures r.Some? ==> exists i :: FirstContaining(ss, p, i) && r.value == FromFirst(ss[i], p)
    ensures r.Some? ==> IsPrefix(p, r.value)
    decreases |ss|
  {
    if |ss| == 0 then None
    else if IsPrefix(p, ss[0]) then
      PrefixContains(p, ss[0]);
      assert FromFirst(ss[0], p) == ss[0];
      assert FirstContaining(ss, p, 0);
      Some(ss[0])
    else if Contains(ss[0], p) then
      assert FirstContaining(ss, p, 0);
      Some(FromFirst(ss[0], p))
    else
      var r := ScanSentences(ss[1..], p);
      if r.Some? then
        var i :| FirstContaining(ss[1..], p, i) && r.value == FromFirst(ss[1..][i], p);
        assert FirstContaining(ss, p, i + 1);
        r
      else r
  }

  /** The scan returns the first sentence containing `p`, from `p` on,
      whichever of its two tests fires. */
  lemma ScanIsFirstHit(ss: seq<string>, p: string, i: int)
    requires FirstContaining(ss, p, i)
    ensures ScanSentences(ss, p) == Some(FromFirst(ss[i], p))
  {
    var r := ScanSentences(ss, p);
    var j :| FirstContaining(ss, p, j) && r.value == FromFirst(ss[j], p);
    assert i == j;
  }

  /** The sentences of the documents of the first query, in document order. */
  function DocumentSentences(documents: seq<seq<string>>, tokenize: string -> seq<string>): seq<string>
  {
    if |documents| == 0 then [] else Flatten(seq(|documents[0]|, i requires 0 <= i < |documents[0]| => tokenize(documents[0][i])))
  }

  /**
    `_find_exact_match(partial_text, story_id)`. No story id gives `None`.
    Otherwise the sentences of the story file's content (`story`, `None`
    when there is no file) are scanned for `partial`; failing that, the
    sentences of the documents the collection returns for the story are
    scanned for `partial` stripped.
  */
  function FindExactMatch(partial: string, storyId: string, story: Option<StoryRecord>, backend: Backend): (r: Option<string>)
    ensures storyId == "" ==> r.None?
    ensures r.Some? ==> IsPrefix(partial, r.value) || IsPrefix(Strip(partial), r.value)
  {
    if storyId == "" then None
    else
      var fromFile :=
        if story.Some? then ScanSentences(backend.tokenize(story.value.content.GetOr("")), partial) else None;
      if fromFile.Some? then fromFile
      else
        var documents := backend.query(partial, 3, storyId);
        if |documents| == 0 then None
        else ScanSentences(DocumentSentences(documents, backend.tokenize), Strip(partial))
  }

  /** A story file with a sentence containing the partial text decides the
      match: it is that first sentence, from the partial text on, and the
      collection is not consulted. */
  lemma FileMatchFirst(partial: string, storyId: string, story: StoryRecord, backend: Backend, i: int)
    requires storyId != ""
    requires FirstContaining(backend.tokenize(story.content.GetOr("")), partial, i)
    ensures FindExactMatch(partial, storyId, Some(story), backend) ==
      Some(FromFirst(backend.tokenize(story.content.GetOr(""))[i], partial))
  {
    ScanIsFirstHit(backend.tokenize(story.content.GetOr("")), partial, i);
  }

  /** Without a file hit the answer comes from the collection's documents,
      scanned with the partial text stripped. */
  lemma CollectionMatch(partial: string, storyId: string, story: Option<StoryRecord>, backend: Backend)
    requires storyId != ""
    requires story.Some? ==> forall i :: 0 <= i < |backend.tokenize(story.value.content.GetOr(""))| ==>
      !Contains(backend.tokenize(story.value.content.GetOr(""))[i], partial)
    ensures FindExactMatch(partial, storyId, story, backend) ==
      ScanSentences(DocumentSentences(backend.query(partial, 3, storyId), backend.tokenize), Strip(partial))
  {
  }
}
