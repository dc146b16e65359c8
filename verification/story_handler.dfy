/**
  `StoryHandler` (src/story_handler.py): story lookup by id with a cache,
  the chunk table built over every story, and question answering over the
  chunks a nearest-neighbour search returns. Story files are a map from
  their path under the data directory to what loading them gives (`None`
  for a file that exists but does not load); the search and the chat
  handler are parameters.
*/
module StoryHandler {
  import opened Wrappers
  import opened Text
  import opened Stories
  import opened Chunking
  import opened Retrieval

  // ---------------------------------------------------------------------------
  // Story ids and file names

  const PathSeparator: string := "/"
  const JsonSuffix: string := ".json"

  /**
    The story name of `get_story_content`: the second part of a two-part
    `location/name` id, the whole id otherwise, with every `_` turned into
    `-`.
  */
  function StoryName(storyId: string): (name: string)
    ensures '_' !in name
    ensures |SplitStr(storyId, PathSeparator)| != 2 ==> |name| == |storyId|
  {
    var parts := SplitStr(storyId, PathSeparator);
    var name := ReplaceChar(if |parts| == 2 then parts[1] else storyId, '_', '-');
    assert forall i :: 0 <= i < |name| ==> name[i] != '_';
    name
  }

  /** `/` never overlaps itself. */
  lemma SlashBorderFree()
    ensures BorderFree(PathSeparator)
  {
  }

  /** A `location/name` id splits on `/` into its two parts. */
  lemma TwoPartSplit(location: string, name: string)
    requires !Contains(location, PathSeparator) && !Contains(name, PathSeparator)
    ensures SplitStr(location + PathSeparator + name, PathSeparator) == [location, name]
  {
    SlashBorderFree();
    assert Join(PathSeparator, [location, name]) == location + PathSeparator + name by {
      JoinCons(PathSeparator, location, [name]);
    }
    SplitOfJoin(PathSeparator, [location, name]);
  }

  /** A `location/name` id names the story `name`, underscores turned into
      hyphens. */
  lemma StoryNameTwoParts(location: string, name: string)
    requires !Contains(location, PathSeparator) && !Contains(name, PathSeparator)
    ensures StoryName(location + PathSeparator + name) == ReplaceChar(name, '_', '-')
  {
    TwoPartSplit(location, name);
  }

  /** An id that does not split into exactly two parts (one without `/`, or
      one with two or more) is the story name itself, underscores turned into
      hyphens. */
  lemma StoryNameWholeId(storyId: string)
    requires |SplitStr(storyId, PathSeparator)| != 2
    ensures StoryName(storyId) == ReplaceChar(storyId, '_', '-')
  {
  }

  /** The path of `name.json` in the data directory (`location == ""`) or in
      its sub-directory `location`; `os.path.join` drops an empty part. */
  function FilePath(location: string, name: string): (p: string)
    ensures location == "" ==> p == name + JsonSuffix
    ensures location != "" ==> p == location + PathSeparator + name + JsonSuffix
  {
    if location == "" then name + JsonSuffix else location + PathSeparator + name + JsonSuffix
  }

  // ---------------------------------------------------------------------------
  // The alternative spelling

  const Jheel: string := "jheel"
  const Hheel: string := "hheel"

  /** The alternative name as the source computes it:
      `name.replace('jheel', 'hheel').replace('hheel', 'jheel')`. */
  function AlternativeSpellingAsWritten(name: string): string
  {
    ReplaceAll(ReplaceAll(name, Jheel, Hheel), Hheel, Jheel)
  }

  /** The second replacement undoes the first: a name spelt with `jheel`
      gets itself back as its alternative, so the spelling is never tried. */
  lemma AlternativeSpellingAsWrittenIsIdentity()
    ensures AlternativeSpellingAsWritten(Jheel) == Jheel
  {
    assert OccursAt(Jheel, Jheel, 0);
    assert ReplaceAll(Jheel, Jheel, Hheel) == Hheel by {
      assert Find(Jheel, Jheel) == Some(0);
      assert Jheel[5..] == "";
    }
    assert ReplaceAll(Hheel, Hheel, Jheel) == Jheel by {
      assert OccursAt(Hheel, Hheel, 0);
      assert Find(Hheel, Hheel) == Some(0);
      assert Hheel[5..] == "";
    }
  }

  /**
    The alternative name as intended: each `jheel` becomes `hheel` and each
    `hheel` becomes `jheel`, scanning left to right.
  */
  function AlternativeSpelling(name: string): (alt: string)
    ensures |alt| == |name|
    decreases |name|
  {
    if IsPrefix(Jheel, name) then Hheel + AlternativeSpelling(name[|Jheel|..])
    else if IsPrefix(Hheel, name) then Jheel + AlternativeSpelling(name[|Hheel|..])
    else if |name| == 0 then ""
    else [name[0]] + AlternativeSpelling(name[1..])
  }

  /** The two spellings are each other's alternative. */
  lemma AlternativeSpellingSwaps()
    ensures AlternativeSpelling(Jheel) == Hheel
    ensures AlternativeSpelling(Hheel) == Jheel
  {
    assert IsPrefix(Jheel, Jheel) && Jheel[5..] == "";
    assert !IsPrefix(Jheel, Hheel) by { assert Hheel[0] != Jheel[0]; }
    assert IsPrefix(Hheel, Hheel) && Hheel[5..] == "";
  }

  /** A name with neither spelling is its own alternative. */
  lemma {:induction false} AlternativeSpellingOtherwise(name: string)
    requires !Contains(name, Jheel) && !Contains(name, Hheel)
    ensures AlternativeSpelling(name) == name
    decreases |name|
  {
    if IsPrefix(Jheel, name) || IsPrefix(Hheel, name) {
      assert false;
    } else if |name| > 0 {
      ShiftOccurrence(name, Jheel);
      ShiftOccurrence(name, Hheel);
      AlternativeSpellingOtherwise(name[1..]);
      assert name == [name[0]] + name[1..];
    }
  }

  /** A name with either spelling differs from its alternative, so a lookup
      under the alternative is a different file. */
  lemma {:induction false} AlternativeSpellingDiffers(name: string)
    requires Contains(name, Jheel) || Contains(name, Hheel)
    ensures AlternativeSpelling(name) != name
    decreases |name|
  {
    var alt := AlternativeSpelling(name);
    if IsPrefix(Jheel, name) {
      assert alt[0] == Hheel[0] != Jheel[0] == name[0];
    } else if IsPrefix(Hheel, name) {
      assert alt[0] == Jheel[0] != Hheel[0] == name[0];
    } else {
      ShiftOccurrence(name, Jheel);
      ShiftOccurrence(name, Hheel);
      var m := if Contains(name, Jheel) then Jheel else Hheel;
      var j := Find(name, m).value;
      assert j >= 1;
      OccursContains(name[1..], m, j - 1);
      AlternativeSpellingDiffers(name[1..]);
      assert alt == [name[0]] + AlternativeSpelling(name[1..]);
      assert alt[1..] != name[1..];
    }
  }

  // ---------------------------------------------------------------------------
  // get_story_content

  /** A lookup's result and the cache after it. */
  datatype Lookup = Lookup(story: Option<StoryRecord>, cache: map<string, StoryRecord>)

  /**
    The file `get_story_content` settles on, `None` when none of its
    candidates exists: `name.json` in the data directory; failing that, for
    a two-part id, `name.json` in the id's sub-directory; failing that, the
    name under the rule `alternative`, then the name with `-` turned back
    into `_`, both in the data directory.
  */
  function CandidatePath(storyId: string, files: map<string, Option<StoryRecord>>, alternative: string -> string): (p: Option<string>)
    ensures p.Some? ==> p.value in files
    ensures FilePath("", StoryName(storyId)) in files ==> p == Some(FilePath("", StoryName(storyId)))
    ensures var sub := SubdirectoryPath(storyId);
      FilePath("", StoryName(storyId)) !in files && sub.Some? && sub.value in files ==> p == sub
    ensures var sub := SubdirectoryPath(storyId);
      var spelt := FilePath("", alternative(StoryName(storyId)));
      FilePath("", StoryName(storyId)) !in files && (sub.None? || sub.value !in files) && spelt in files ==>
        p == Some(spelt)
    ensures var sub := SubdirectoryPath(storyId);
      var spelt := FilePath("", alternative(StoryName(storyId)));
      var underscored := FilePath("", ReplaceChar(StoryName(storyId), '-', '_'));
      (FilePath("", StoryName(storyId)) !in files && (sub.None? || sub.value !in files) && spelt !in files
       && underscored in files)
      ==> p == Some(underscored)
    ensures p.None? <==>
      FilePath("", StoryName(storyId)) !in files
      && (SubdirectoryPath(storyId).None? || SubdirectoryPath(storyId).value !in files)
      && FilePath("", alternative(StoryName(storyId))) !in files
      && FilePath("", ReplaceChar(StoryName(storyId), '-', '_')) !in files
  {
    var parts := SplitStr(storyId, PathSeparator);
    var name := StoryName(storyId);
    var root := FilePath("", name);
    var first := if root !in files && |parts| == 2 then FilePath(parts[0], name) else root;
    if first in files then Some(first)
    else
      var spelt := FilePath("", alternative(name));
      var underscored := FilePath("", ReplaceChar(name, '-', '_'));
      if spelt in files then Some(spelt)
      else if underscored in files then Some(underscored)
      else None
  }

  /** For a two-part id `location/name`, the file `name.json` in the
      sub-directory `location`. */
  function SubdirectoryPath(storyId: string): (p: Option<string>)
    ensures p.Some? <==> |SplitStr(storyId, PathSeparator)| == 2
  {
    var parts := SplitStr(storyId, PathSeparator);
    if |parts| == 2 then Some(FilePath(parts[0], StoryName(storyId))) else None
  }

  /** A `location/name` id whose file is not in the data directory itself is
      found in the sub-directory `location`. */
  lemma SubdirectoryFileFound(location: string, name: string, files: map<string, Option<StoryRecord>>)
    requires !Contains(location, PathSeparator) && !Contains(name, PathSeparator)
    requires var id := location + PathSeparator + name;
      FilePath("", StoryName(id)) !in files && FilePath(location, StoryName(id)) in files
    ensures var id := location + PathSeparator + name;
      ChosenPath(id, files) == Some(FilePath(location, ReplaceChar(name, '_', '-')))
  {
    var id := location + PathSeparator + name;
    TwoPartSplit(location, name);
    assert SubdirectoryPath(id) == Some(FilePath(location, StoryName(id)));
  }

  /** The file the code chooses, with its chained replacement as the
      alternative spelling. */
  function ChosenPath(storyId: string, files: map<string, Option<StoryRecord>>): (p: Option<string>)
    ensures p.Some? ==> p.value in files
    ensures p.None? <==>
      FilePath("", StoryName(storyId)) !in files
      && (SubdirectoryPath(storyId).None? || SubdirectoryPath(storyId).value !in files)
      && FilePath("", AlternativeSpellingAsWritten(StoryName(storyId))) !in files
      && FilePath("", ReplaceChar(StoryName(storyId), '-', '_')) !in files
  {
    CandidatePath(storyId, files, AlternativeSpellingAsWritten)
  }

  /** The file chosen when the alternative spelling swaps the two
      spellings, as intended. */
  function ChosenPathCorrected(storyId: string, files: map<string, Option<StoryRecord>>): (p: Option<string>)
    ensures p.Some? ==> p.value in files
  {
    CandidatePath(storyId, files, AlternativeSpelling)
  }

  /** `jheel` is a one-part id without underscores or hyphens, so it is its
      own story name in both directions of the `_`/`-` rewriting. */
  lemma JheelName(id: string)
    requires id == Jheel
    ensures |SplitStr(id, PathSeparator)| == 1
    ensures StoryName(id) == id
    ensures ReplaceChar(id, '-', '_') == id
  {
    assert !Contains(id, PathSeparator) by {
      assert forall j :: 0 <= j < |id| ==> id[j] != '/';
      NoCharNotContained(id, '/');
    }
    assert ReplaceChar(id, '_', '-') == id;
  }

  /**
    The effect of the chained replacement: a story `jheel` whose only file
    is `hheel.json` is not found, though the corrected lookup finds that
    file.
  */
  lemma HheelFileMissed(id: string, record: StoryRecord)
    requires id == Jheel
    ensures var files := map[FilePath("", Hheel) := Some(record)];
      ChosenPath(id, files) == None && GetStoryContent(id, map[], files).story == None
    ensures var files := map[FilePath("", Hheel) := Some(record)];
      ChosenPathCorrected(id, files) == Some(FilePath("", Hheel))
  {
    JheelName(id);
    AlternativeSpellingAsWrittenIsIdentity();
    AlternativeSpellingSwaps();
    assert FilePath("", Jheel) != FilePath("", Hheel) by {
      assert FilePath("", Jheel)[0] != FilePath("", Hheel)[0];
    }
  }

  /**
    `get_story_content(story_id)`: a cached record is returned as it is;
    otherwise the chosen file is loaded and, when it loads, cached under the
    id as given.
  */
  function GetStoryContent(storyId: string, cache: map<string, StoryRecord>, files: map<string, Option<StoryRecord>>): (r: Lookup)
    ensures storyId in cache ==> r == Lookup(Some(cache[storyId]), cache)
    ensures storyId !in cache && r.story.Some? ==> r.cache == cache[storyId := r.story.value]
    ensures r.story.None? ==> r.cache == cache
    ensures storyId !in cache && r.story.Some? ==>
      ChosenPath(storyId, files).Some? && files[ChosenPath(storyId, files).value] == r.story
  {
    if storyId in cache then Lookup(Some(cache[storyId]), cache)
    else
      match ChosenPath(storyId, files)
      case None => Lookup(None, cache)
      case Some(p) =>
        match files[p]
        case None => Lookup(None, cache)
        case Some(story) => Lookup(Some(story), cache[storyId := story])
  }

  /** A story in the data directory under its normalised name wins over
      every other candidate. */
  lemma RootFileFirst(storyId: string, cache: map<string, StoryRecord>, files: map<string, Option<StoryRecord>>)
    requires storyId !in cache
    requires FilePath("", StoryName(storyId)) in files
    ensures GetStoryContent(storyId, cache, files).story == files[FilePath("", StoryName(storyId))]
  {
  }

  /** A second lookup of a story that loaded is a cache hit with the same
      record and no further change to the cache. */
  lemma LookupCached(storyId: string, cache: map<string, StoryRecord>, files: map<string, Option<StoryRecord>>)
    requires GetStoryContent(storyId, cache, files).story.Some?
    ensures var r := GetStoryContent(storyId, cache, files);
      GetStoryContent(storyId, r.cache, files) == r
  {
  }

  // ---------------------------------------------------------------------------
  // _initialize_rag

  const Untitled: string := "Untitled"
  const StoryChunkSize: int := 200

  /** A row of `story_texts`; row `i` of the index holds the embedding of
      the text of entry `i`. */
  datatype IndexEntry = IndexEntry(text: string, storyId: string, title: string)

  /** The entries of one story: one per chunk of its content, in order, all
      carrying the story's id and title. */
  function StoryEntries(storyId: string, story: StoryRecord): (es: seq<IndexEntry>)
    requires story.content.Some?
    ensures |es| == |Chunks(story.content.value, StoryChunkSize)|
    ensures forall i :: 0 <= i < |es| ==> es[i].storyId == storyId
    ensures forall i :: 0 <= i < |es| ==>
      es[i] == IndexEntry(Chunks(story.content.value, StoryChunkSize)[i], storyId, story.title.GetOr(Untitled))
  {
    var cs := Chunks(story.content.value, StoryChunkSize);
    seq(|cs|, i requires 0 <= i < |cs| => IndexEntry(cs[i], storyId, story.title.GetOr(Untitled)))
  }

  /** The chunk table and the cache after building it. */
  datatype Table = Table(entries: seq<IndexEntry>, cache: map<string, StoryRecord>)

  /**
    The loop of `_initialize_rag` over the listed story ids: each story that
    loads and has content adds its entries, in listing order; a story that
    does not load, or has no content, adds nothing.
  */
  function BuildTable(ids: seq<string>, cache: map<string, StoryRecord>, files: map<string, Option<StoryRecord>>): (t: Table)
    ensures forall i :: 0 <= i < |t.entries| ==> t.entries[i].storyId in ids
    decreases |ids|
  {
    if |ids| == 0 then Table([], cache)
    else
      var lookup := GetStoryContent(ids[0], cache, files);
      var here := if lookup.story.Some? && lookup.story.value.content.Some?
        then StoryEntries(ids[0], lookup.story.value) else [];
      var rest := BuildTable(ids[1..], lookup.cache, files);
      RowsListed(ids, here, rest.entries);
      Table(here + rest.entries, rest.cache)
  }

  /** Rows of the first story followed by rows of later stories all carry
      listed ids. */
  lemma RowsListed(ids: seq<string>, here: seq<IndexEntry>, rest: seq<IndexEntry>)
    requires |ids| > 0
    requires forall i :: 0 <= i < |here| ==> here[i].storyId == ids[0]
    requires forall i :: 0 <= i < |rest| ==> rest[i].storyId in ids[1..]
    ensures forall i :: 0 <= i < |here + rest| ==> (here + rest)[i].storyId in ids
  {
    forall i | 0 <= i < |here + rest|
      ensures (here + rest)[i].storyId in ids
    {
      if i >= |here| {
        assert (here + rest)[i] == rest[i - |here|];
        var j :| 0 <= j < |ids[1..]| && ids[1..][j] == rest[i - |here|].storyId;
        assert ids[j + 1] == ids[1..][j];
      }
    }
  }

  /** The first listed story's entries, when it loads with content, open
      the table. */
  lemma FirstStoryRows(ids: seq<string>, cache: map<string, StoryRecord>, files: map<string, Option<StoryRecord>>, story: StoryRecord)
    requires |ids| > 0
    requires GetStoryContent(ids[0], cache, files).story == Some(story) && story.content.Some?
    ensures StoryEntries(ids[0], story) <= BuildTable(ids, cache, files).entries
  {
    var lookup := GetStoryContent(ids[0], cache, files);
    var rest := BuildTable(ids[1..], lookup.cache, files);
    assert BuildTable(ids, cache, files).entries == StoryEntries(ids[0], story) + rest.entries;
  }

  /** `_initialize_rag`: the chunk table, and whether an index was built,
      which happens exactly when the table is not empty. */
  datatype RagState = RagState(entries: seq<IndexEntry>, ready: bool, cache: map<string, StoryRecord>)

  function InitializeRag(ids: seq<string>, cache: map<string, StoryRecord>, files: map<string, Option<StoryRecord>>): (s: RagState)
    ensures s.ready <==> |s.entries| > 0
    ensures forall i :: 0 <= i < |s.entries| ==> s.entries[i].storyId in ids
  {
    var t := BuildTable(ids, cache, files);
    RagState(t.entries, |t.entries| > 0, t.cache)
  }

  /** The cache holds only what loading the files gives: the handler's
      cache starts empty and `get_story_content` only ever adds a loaded
      record under its id. */
  predicate CacheFaithful(cache: map<string, StoryRecord>, files: map<string, Option<StoryRecord>>)
  {
    forall id {:trigger cache[id]} :: id in cache ==> GetStoryContent(id, map[], files).story == Some(cache[id])
  }

  /** Loading the story's file gives a record with content. */
  predicate LoadsWithContent(storyId: string, files: map<string, Option<StoryRecord>>)
  {
    var s := GetStoryContent(storyId, map[], files).story;
    s.Some? && s.value.content.Some?
  }

  /** A lookup through a faithful cache gives what loading the file gives,
      and leaves the cache faithful. */
  lemma LookupKeepsFaithful(storyId: string, cache: map<string, StoryRecord>, files: map<string, Option<StoryRecord>>)
    requires CacheFaithful(cache, files)
    ensures GetStoryContent(storyId, cache, files).story == GetStoryContent(storyId, map[], files).story
    ensures CacheFaithful(GetStoryContent(storyId, cache, files).cache, files)
  {
  }

  /** Every loaded story with content contributes at least one row, so the
      index is built as soon as any listed story loads with content. */
  lemma {:induction false} ContentMakesReady(ids: seq<string>, cache: map<string, StoryRecord>,
                                              files: map<string, Option<StoryRecord>>, storyId: string)
    requires CacheFaithful(cache, files)
    requires storyId in ids && LoadsWithContent(storyId, files)
    ensures InitializeRag(ids, cache, files).ready
    decreases |ids|, 1
  {
    LookupKeepsFaithful(ids[0], cache, files);
    if ids[0] == storyId {
      FirstContentReady(ids, cache, files);
    } else {
      LaterContentReady(ids, cache, files, storyId);
    }
  }

  /** A story after the first that loads with content makes the index ready. */
  lemma {:induction false} LaterContentReady(ids: seq<string>, cache: map<string, StoryRecord>,
                                              files: map<string, Option<StoryRecord>>, storyId: string)
    requires |ids| > 0 && CacheFaithful(GetStoryContent(ids[0], cache, files).cache, files)
    requires storyId in ids && storyId != ids[0] && LoadsWithContent(storyId, files)
    ensures InitializeRag(ids, cache, files).ready
    decreases |ids|, 0
  {
    ContentMakesReady(ids[1..], GetStoryContent(ids[0], cache, files).cache, files, storyId);
    LaterRowsKept(ids, cache, files);
  }

  /** A first story that loads with content makes the index ready. */
  lemma FirstContentReady(ids: seq<string>, cache: map<string, StoryRecord>, files: map<string, Option<StoryRecord>>)
    requires |ids| > 0
    requires var s := GetStoryContent(ids[0], cache, files).story; s.Some? && s.value.content.Some?
    ensures InitializeRag(ids, cache, files).ready
  {
    var story := GetStoryContent(ids[0], cache, files).story.value;
    FirstStoryRows(ids, cache, files, story);
    assert |Chunks(story.content.value, StoryChunkSize)| >= 1;
  }

  /** The rows of the stories after the first are all in the table, so the
      index is ready when they alone would make it so. */
  lemma LaterRowsKept(ids: seq<string>, cache: map<string, StoryRecord>, files: map<string, Option<StoryRecord>>)
    requires |ids| > 0
    requires InitializeRag(ids[1..], GetStoryContent(ids[0], cache, files).cache, files).ready
    ensures InitializeRag(ids, cache, files).ready
  {
  }

  // ---------------------------------------------------------------------------
  // answer_question

  const NotInitialized: string := "RAG system not initialized"
  const NoRelevantContent: string := "No relevant content found in the story"
  const GenerationFailed: string := "Failed to generate response"
  /** `str(e)` of the `IndexError` a position outside the table raises. */
  const IndexOutOfRange: string := "list index out of range"
  /** The response that comes with any exception. */
  const Unavailable: string := "معذرت، میں اس وقت سوالات کا جواب نہیں دے سکتا۔"

  /** What the chat handler gives back: its reply dictionary, or an exception. */
  datatype ChatOutcome = Replied(response: string, success: bool) | Raised(message: string)

  /** The dictionary `answer_question` returns. */
  datatype QaResult = QaResult(success: bool, found: bool, error: Option<string>,
                               response: Option<string>, storyTitle: Option<string>)

  /** Every position names a row of the table, as Python indexes it. */
  predicate HitsInRange(entries: seq<IndexEntry>, hits: seq<int>)
  {
    forall i :: 0 <= i < |hits| ==> -|entries| <= hits[i] < |entries|
  }

  /** The texts of the hits that belong to `storyId`, in retrieval order. */
  function StoryHits(entries: seq<IndexEntry>, hits: seq<int>, storyId: string): (texts: seq<string>)
    requires HitsInRange(entries, hits)
    ensures |texts| <= |hits|
    decreases |hits|
  {
    if |hits| == 0 then []
    else
      var e := PyIndex(entries, hits[0]).value;
      var rest := StoryHits(entries, hits[1..], storyId);
      if e.storyId == storyId then [e.text] + rest else rest
  }

  /** The entries the hits name, in retrieval order. */
  function HitEntries(entries: seq<IndexEntry>, hits: seq<int>): (es: seq<IndexEntry>)
    requires HitsInRange(entries, hits)
    ensures |es| == |hits|
    ensures forall i :: 0 <= i < |hits| ==> Some(es[i]) == PyIndex(entries, hits[i])
  {
    seq(|hits|, i requires 0 <= i < |hits| => PyIndex(entries, hits[i]).value)
  }

  /** A text is kept exactly when some hit from the story has it. */
  lemma {:induction false} StoryHitsExact(entries: seq<IndexEntry>, hits: seq<int>, storyId: string)
    requires HitsInRange(entries, hits)
    ensures var es := HitEntries(entries, hits);
      forall t :: t in StoryHits(entries, hits, storyId) <==>
        exists i :: 0 <= i < |es| && es[i].storyId == storyId && es[i].text == t
    decreases |hits|
  {
    var es := HitEntries(entries, hits);
    if |hits| > 0 {
      var tail := hits[1..];
      StoryHitsExact(entries, tail, storyId);
      var es' := HitEntries(entries, tail);
      assert forall i :: 0 <= i < |es'| ==> es'[i] == es[i + 1];
      forall t
        ensures t in StoryHits(entries, hits, storyId) <==>
          exists i :: 0 <= i < |es| && es[i].storyId == storyId && es[i].text == t
      {
        if exists i :: 0 <= i < |es| && es[i].storyId == storyId && es[i].text == t {
          var i :| 0 <= i < |es| && es[i].storyId == storyId && es[i].text == t;
          if i > 0 {
            assert es'[i - 1] == es[i];
          }
        }
        if t in StoryHits(entries, tail, storyId) {
          var i :| 0 <= i < |es'| && es'[i].storyId == storyId && es'[i].text == t;
          assert es[i + 1] == es'[i];
        }
      }
    }
  }

  /** The texts kept keep the retrieval order of the hits. */
  lemma {:induction false} StoryHitsInOrder(entries: seq<IndexEntry>, hits: seq<int>, storyId: string)
    requires HitsInRange(entries, hits)
    ensures IsSubsequence(StoryHits(entries, hits, storyId), TextsOf(HitEntries(entries, hits)))
    decreases |hits|
  {
    if |hits| > 0 {
      var tail := hits[1..];
      StoryHitsInOrder(entries, tail, storyId);
      var e := PyIndex(entries, hits[0]).value;
      var ts := TextsOf(HitEntries(entries, tail));
      HitTextsUnfold(entries, hits);
      var kept := StoryHits(entries, tail, storyId);
      if e.storyId == storyId {
        SubsequenceBoth(kept, ts, e.text);
      } else {
        SubsequenceCons(kept, ts, e.text);
      }
    }
  }

  /** The texts of the hits: the first hit's text, then the rest's. */
  lemma HitTextsUnfold(entries: seq<IndexEntry>, hits: seq<int>)
    requires HitsInRange(entries, hits) && |hits| > 0
    ensures TextsOf(HitEntries(entries, hits)) ==
      [PyIndex(entries, hits[0]).value.text] + TextsOf(HitEntries(entries, hits[1..]))
  {
    var ts := TextsOf(HitEntries(entries, hits));
    var ts' := TextsOf(HitEntries(entries, hits[1..]));
    var front := [PyIndex(entries, hits[0]).value.text];
    forall i | 0 <= i < |ts|
      ensures ts[i] == (front + ts')[i]
    {
      if i > 0 {
        assert hits[1..][i - 1] == hits[i];
      }
    }
  }

  /** A common first element extends a subsequence. */
  lemma SubsequenceBoth(xs: seq<string>, ys: seq<string>, y: string)
    requires IsSubsequence(xs, ys)
    ensures IsSubsequence([y] + xs, [y] + ys)
  {
    assert ([y] + xs)[1..] == xs;
    assert ([y] + ys)[1..] == ys;
  }

  /** Skipping a leading element keeps a subsequence a subsequence. */
  lemma SubsequenceCons(xs: seq<string>, ys: seq<string>, y: string)
    requires IsSubsequence(xs, ys)
    ensures IsSubsequence(xs, [y] + ys)
  {
    assert ([y] + ys)[1..] == ys;
    SubsequenceSkip(xs, [y] + ys);
  }

  /** A subsequence of `ys` without its first element is one of `ys`. */
  lemma {:induction false} SubsequenceSkip(xs: seq<string>, ys: seq<string>)
    requires |ys| > 0 && IsSubsequence(xs, ys[1..])
    ensures IsSubsequence(xs, ys)
    decreases |ys|, 0
  {
    if |xs| > 0 && xs[0] == ys[0] {
      SubsequenceDropHead(xs, ys[1..]);
    }
  }

  /** Dropping the first element of a subsequence leaves a subsequence. */
  lemma {:induction false} SubsequenceDropHead(xs: seq<string>, ys: seq<string>)
    requires |xs| > 0 && IsSubsequence(xs, ys)
    ensures IsSubsequence(xs[1..], ys)
    decreases |ys|, 1
  {
    if xs[0] == ys[0] {
      SubsequenceSkip(xs[1..], ys);
    } else {
      SubsequenceDropHead(xs, ys[1..]);
      SubsequenceSkip(xs[1..], ys);
    }
  }

  /** The texts of a list of entries. */
  function TextsOf(es: seq<IndexEntry>): (ts: seq<string>)
    ensures |ts| == |es|
    ensures forall i :: 0 <= i < |es| ==> ts[i] == es[i].text
  {
    seq(|es|, i requires 0 <= i < |es| => es[i].text)
  }

  /**
    `answer_question(story_id, question)` over the chunk table, given the
    positions `hits` the index returns for the question and the chat
    handler `chat` (story text, question). In order: no index fails
    unfound; a position outside the table raises; no hit from the story
    fails found; a failed chat fails found; otherwise the chat's response,
    titled with the top hit's story.
  */
  function AnswerQuestion(state: RagState, storyId: string, question: string,
                          hits: seq<int>, chat: (string, string) -> ChatOutcome): (r: QaResult)
    ensures !state.ready ==> r == QaResult(false, false, Some(NotInitialized), None, None)
    ensures r.success ==> r.found
    ensures !r.found && state.ready ==> r.response == Some(Unavailable)
    ensures state.ready && !HitsInRange(state.entries, hits) ==>
      r == QaResult(false, false, Some(IndexOutOfRange), Some(Unavailable), None)
    ensures state.ready && HitsInRange(state.entries, hits) && StoryHits(state.entries, hits, storyId) == [] ==>
      r == QaResult(false, true, Some(NoRelevantContent), None, None)
    ensures state.ready && HitsInRange(state.entries, hits) && StoryHits(state.entries, hits, storyId) != [] ==>
      var outcome := chat(Join(" ", StoryHits(state.entries, hits, storyId)), question);
      && (outcome.Replied? && !outcome.success ==> r == QaResult(false, true, Some(GenerationFailed), None, None))
      && (outcome.Raised? ==> r == QaResult(false, false, Some(outcome.message), Some(Unavailable), None))
      && (outcome.Replied? && outcome.success ==>
            r == QaResult(true, true, None, Some(outcome.response), Some(HitEntries(state.entries, hits)[0].title)))
  {
    if !state.ready then QaResult(false, false, Some(NotInitialized), None, None)
    else if !HitsInRange(state.entries, hits) then
      QaResult(false, false, Some(IndexOutOfRange), Some(Unavailable), None)
    else
      var relevant := StoryHits(state.entries, hits, storyId);
      if |relevant| == 0 then QaResult(false, true, Some(NoRelevantContent), None, None)
      else
        match chat(Join(" ", relevant), question)
        case Raised(message) => QaResult(false, false, Some(message), Some(Unavailable), None)
        case Replied(response, success) =>
          if !success then QaResult(false, true, Some(GenerationFailed), None, None)
          else QaResult(true, true, None, Some(response), Some(PyIndex(state.entries, hits[0]).value.title))
  }

  /** A successful answer used only the requested story's hits, joined in
      retrieval order, and is titled after the top hit overall. */
  lemma AnswerUsesStoryHits(state: RagState, storyId: string, question: string,
                            hits: seq<int>, chat: (string, string) -> ChatOutcome)
    requires AnswerQuestion(state, storyId, question, hits, chat).success
    ensures HitsInRange(state.entries, hits)
    ensures var relevant := StoryHits(state.entries, hits, storyId);
      |relevant| > 0 && chat(Join(" ", relevant), question).Replied?
      && AnswerQuestion(state, storyId, question, hits, chat).response == Some(chat(Join(" ", relevant), question).response)
    ensures AnswerQuestion(state, storyId, question, hits, chat).storyTitle == Some(HitEntries(state.entries, hits)[0].title)
  {
  }

  /** The title comes from the top hit even when that hit is another
      story's: with rows of stories `a` and `b`, a question about `b` whose
      top hit is `a`'s row is titled after `a`. */
  lemma TitleFromTopHit(chat: (string, string) -> ChatOutcome)
    requires chat("b-text", "q") == Replied("answer", true)
    ensures var state := RagState([IndexEntry("a-text", "a", "A"), IndexEntry("b-text", "b", "B")], true, map[]);
      AnswerQuestion(state, "b", "q", [0, 1], chat) == QaResult(true, true, None, Some("answer"), Some("A"))
  {
    var entries := [IndexEntry("a-text", "a", "A"), IndexEntry("b-text", "b", "B")];
    assert StoryHits(entries, [0, 1][1..], "b") == ["b-text"];
    assert StoryHits(entries, [0, 1], "b") == ["b-text"];
    assert Join(" ", ["b-text"]) == "b-text";
  }
}
