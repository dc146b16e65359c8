/**
  The sentence-bounded chunker shared by `StoryHandler._split_into_chunks`
  (src/story_handler.py) and `RAGHandler._chunk_text` (src/llm_utils/rag_handler.py):
  split on the Urdu full stop, strip each piece and give it its full stop back,
  then pack the pieces greedily, in order, into chunks of at most `chunk_size`
  words.
*/
module Chunking {
  import opened Wrappers
  import opened Text

  /** The Urdu full stop '۔' (U+06D4). */
  const FullStop: char := '۔'

  /** The `chunk_size` default of both chunkers. */
  const DefaultChunkSize: int := 200

  /** The sentence pieces: each part of `text.split('۔')`, stripped, with '۔' appended. */
  function Pieces(text: string): seq<string>
  {
    PiecesOf(SplitStr(text, [FullStop]))
  }

  /** Each part stripped and closed with a full stop, in order. */
  function PiecesOf(parts: seq<string>): (ps: seq<string>)
    ensures |ps| == |parts|
    ensures forall i :: 0 <= i < |ps| ==> ps[i] == Strip(parts[i]) + [FullStop]
  {
    seq(|parts|, i requires 0 <= i < |parts| => Strip(parts[i]) + [FullStop])
  }

  /** There is one piece more than there are full stops; each piece is a
      trimmed full-stop-free sentence followed by exactly one full stop, and the
      parts the pieces come from join back to the text. A text that ends in a
      full stop gets a trailing lone '۔' piece. */
  lemma PiecesShape(text: string)
    ensures |Pieces(text)| == multiset(text)[FullStop] + 1
    ensures forall i :: 0 <= i < |Pieces(text)| ==> PieceForm(Pieces(text)[i])
    ensures Join([FullStop], SplitStr(text, [FullStop])) == text
    ensures |text| > 0 && text[|text| - 1] == FullStop ==> Last(Pieces(text)) == [FullStop]
  {
    SplitCharCount(text, FullStop);
    SplitJoin(text, [FullStop]);
    SplitPiecesFree(text, [FullStop]);
    forall i | 0 <= i < |Pieces(text)|
      ensures PieceForm(Pieces(text)[i])
    {
      PieceFormOf(SplitStr(text, [FullStop])[i]);
    }
    if |text| > 0 && text[|text| - 1] == FullStop {
      TrailingPiece(text);
    }
  }

  /** A trimmed sentence without full stops followed by one full stop. */
  predicate PieceForm(p: string)
  {
    |p| > 0 && p[|p| - 1] == FullStop && FullStop !in p[..|p| - 1] && Trimmed(p[..|p| - 1])
  }

  lemma PieceFormOf(part: string)
    requires !Contains(part, [FullStop])
    ensures PieceForm(Strip(part) + [FullStop])
  {
    var p := Strip(part) + [FullStop];
    CharAbsent(part, FullStop);
    StripKeepsAbsent(part, FullStop);
    assert p[..|p| - 1] == Strip(part);
  }

  lemma TrailingPiece(text: string)
    requires |text| > 0 && text[|text| - 1] == FullStop
    ensures Last(Pieces(text)) == [FullStop]
  {
    EndsInFullStop(text);
    EmptyLastPiece(text);
  }

  lemma EmptyLastPiece(text: string)
    requires LastPiece(text, [FullStop]) == ""
    ensures Last(Pieces(text)) == [FullStop]
  {
    var parts := SplitStr(text, [FullStop]);
    assert Last(parts) == "";
    LastOfPieces(parts);
    assert Strip("") == "";
  }

  /** The last piece comes from the last part. */
  lemma LastOfPieces(parts: seq<string>)
    requires |parts| > 0
    ensures Last(PiecesOf(parts)) == Strip(Last(parts)) + [FullStop]
  {
  }

  /** The text after the last full stop of a text ending in one is empty. */
  lemma EndsInFullStop(text: string)
    requires |text| > 0 && text[|text| - 1] == FullStop
    ensures LastPiece(text, [FullStop]) == ""
  {
    var a := text[..|text| - 1];
    assert text == a + [FullStop] + "";
    LastPieceAfter(a, [FullStop], "");
  }

  /** The number of `split()` words over a sequence of pieces. */
  function WordTotal(ps: seq<string>): nat
  {
    |WordsOfEach(ps)|
  }

  lemma WordTotalAppend(ps: seq<string>, p: string)
    ensures WordTotal(ps + [p]) == WordTotal(ps) + |Words(p)|
  {
    WordsOfEachAppend(ps, [p]);
    assert WordsOfEach([p]) == Words(p) + WordsOfEach([]);
  }

  /** A chunk joined from a group has exactly the group's words. */
  lemma ChunkWords(g: seq<string>)
    ensures |Words(Join(" ", g))| == WordTotal(g)
  {
    WordsOfJoinEach(g);
  }

  /**
    The greedy packing loop of the chunkers, continued from a state where
    `done` holds the finished groups, `current` the open one and `curLen` the
    running word count of `current`: a piece opens a new group when it would
    take a non-empty open group over `size` words, and joins the open group
    otherwise.
  */
  function PackFrom(rest: seq<string>, size: int, done: seq<seq<string>>, current: seq<string>, curLen: int): seq<seq<string>>
    decreases |rest|
  {
    if |rest| == 0 then
      if |current| > 0 then done + [current] else done
    else
      var n := |Words(rest[0])|;
      if curLen + n > size && |current| > 0 then
        PackFrom(rest[1..], size, done + [current], [rest[0]], n)
      else
        PackFrom(rest[1..], size, done, current + [rest[0]], curLen + n)
  }

  /** Groups are non-empty; a group over budget is a single piece; and every
      group after the first was opened because its first piece did not fit
      into the group before it. */
  predicate WellPacked(gs: seq<seq<string>>, size: int)
  {
    && (forall i :: 0 <= i < |gs| ==> |gs[i]| > 0)
    && (forall i :: 0 <= i < |gs| ==> |gs[i]| == 1 || WordTotal(gs[i]) <= size)
    && (forall i :: 1 <= i < |gs| ==> WordTotal(gs[i - 1]) + |Words(gs[i][0])| > size)
  }

  lemma WellPackedExtend(gs: seq<seq<string>>, g: seq<string>, size: int)
    requires WellPacked(gs, size)
    requires |g| > 0 && (|g| == 1 || WordTotal(g) <= size)
    requires |gs| > 0 ==> WordTotal(Last(gs)) + |Words(g[0])| > size
    ensures WellPacked(gs + [g], size)
  {
    var hs := gs + [g];
    forall i | 1 <= i < |hs|
      ensures WordTotal(hs[i - 1]) + |Words(hs[i][0])| > size
    {
      if i < |gs| {
        assert hs[i - 1] == gs[i - 1] && hs[i] == gs[i];
      }
    }
  }

  /** The conditions under which the packing loop keeps its groups well packed. */
  predicate PackState(size: int, done: seq<seq<string>>, current: seq<string>, curLen: int)
  {
    && WellPacked(done, size)
    && curLen == WordTotal(current)
    && (|current| == 0 ==> |done| == 0)
    && (|current| > 1 ==> WordTotal(current) <= size)
    && (|done| > 0 ==> WordTotal(Last(done)) + |Words(current[0])| > size)
  }

  lemma PackFromEnd(size: int, done: seq<seq<string>>, current: seq<string>, curLen: int)
    requires PackState(size, done, current, curLen)
    ensures WellPacked(PackFrom([], size, done, current, curLen), size)
    ensures Flatten(PackFrom([], size, done, current, curLen)) == Flatten(done) + current
    ensures |current| > 0 ==> |PackFrom([], size, done, current, curLen)| > 0
  {
    if |current| > 0 {
      WellPackedExtend(done, current, size);
      FlattenAppend(done, [current]);
      FlattenSingle(current);
    }
  }

  lemma PackFlushStep(size: int, done: seq<seq<string>>, current: seq<string>, curLen: int, p: string)
    requires PackState(size, done, current, curLen)
    requires curLen + |Words(p)| > size && |current| > 0
    ensures PackState(size, done + [current], [p], |Words(p)|)
    ensures Flatten(done + [current]) + [p] == Flatten(done) + current + [p]
  {
    WellPackedExtend(done, current, size);
    FlattenAppend(done, [current]);
    FlattenSingle(current);
    WordTotalAppend([], p);
    assert [] + [p] == [p];
  }

  lemma PackAppendStep(size: int, done: seq<seq<string>>, current: seq<string>, curLen: int, p: string)
    requires PackState(size, done, current, curLen)
    requires !(curLen + |Words(p)| > size && |current| > 0)
    ensures PackState(size, done, current + [p], curLen + |Words(p)|)
  {
    WordTotalAppend(current, p);
    assert |current| > 0 ==> (current + [p])[0] == current[0];
  }

  /** The packing loop keeps its groups well packed. */
  lemma {:induction false} PackFromWellPacked(rest: seq<string>, size: int, done: seq<seq<string>>, current: seq<string>, curLen: int)
    requires PackState(size, done, current, curLen)
    ensures WellPacked(PackFrom(rest, size, done, current, curLen), size)
    decreases |rest|
  {
    if |rest| == 0 {
      PackFromEnd(size, done, current, curLen);
    } else {
      var p := rest[0];
      var n := |Words(p)|;
      if curLen + n > size && |current| > 0 {
        PackFlushStep(size, done, current, curLen, p);
        PackFromWellPacked(rest[1..], size, done + [current], [p], n);
      } else {
        PackAppendStep(size, done, current, curLen, p);
        PackFromWellPacked(rest[1..], size, done, current + [p], curLen + n);
      }
    }
  }

  /** The packing loop neither loses, repeats nor reorders a piece. */
  lemma {:induction false} PackFromCovers(rest: seq<string>, size: int, done: seq<seq<string>>, current: seq<string>, curLen: int)
    ensures Flatten(PackFrom(rest, size, done, current, curLen)) == Flatten(done) + current + rest
    decreases |rest|
  {
    if |rest| == 0 {
      FlattenClose(done, current);
    } else {
      var p := rest[0];
      var n := |Words(p)|;
      if curLen + n > size && |current| > 0 {
        PackFromCovers(rest[1..], size, done + [current], [p], n);
        FlattenClose(done, current);
      } else {
        PackFromCovers(rest[1..], size, done, current + [p], curLen + n);
      }
      ConsRegroup(Flatten(done) + current, p, rest);
    }
  }

  /** Closing a group appends its pieces to the flattened groups. */
  lemma FlattenClose(done: seq<seq<string>>, current: seq<string>)
    ensures Flatten(done + [current]) == Flatten(done) + current
  {
    FlattenAppend(done, [current]);
    FlattenSingle(current);
  }

  /** Moving the first element of `rest` to the front part changes nothing. */
  lemma ConsRegroup(front: seq<string>, p: string, rest: seq<string>)
    requires |rest| > 0 && rest[0] == p
    ensures front + [p] + rest[1..] == front + rest
  {
    assert rest == [p] + rest[1..];
  }

  /** The groups the chunkers form from the pieces `ps`: together they are
      exactly `ps` in order, and they are well packed. */
  function Pack(ps: seq<string>, size: int): (gs: seq<seq<string>>)
    ensures Flatten(gs) == ps
    ensures WellPacked(gs, size)
    ensures |ps| > 0 ==> |gs| > 0
  {
    PackFromWellPacked(ps, size, [], [], 0);
    PackFromCovers(ps, size, [], [], 0);
    assert Flatten<string>([]) + [] + ps == ps;
    PackFrom(ps, size, [], [], 0)
  }

  /**
    The chunks of `text` for a budget of `size` words. There is at least one
    chunk, even for empty text; joining the chunks with spaces gives the pieces
    joined with spaces, so nothing is lost, repeated or reordered; a chunk has
    at most `size` words unless it is one oversized piece; and a chunk was
    closed only because the next piece would not fit into it.
  */
  function Chunks(text: string, size: int): (cs: seq<string>)
    ensures |cs| >= 1
    ensures Join(" ", cs) == Join(" ", Pieces(text))
    ensures |cs| == |Pack(Pieces(text), size)|
    ensures forall i :: 0 <= i < |cs| ==> cs[i] == Join(" ", Pack(Pieces(text), size)[i])
    ensures forall i :: 0 <= i < |cs| ==>
      |Words(cs[i])| <= size || (|Pack(Pieces(text), size)[i]| == 1 && cs[i] in Pieces(text))
    ensures forall i :: 1 <= i < |cs| ==>
      |Words(cs[i - 1])| + |Words(Pack(Pieces(text), size)[i][0])| > size
  {
    var ps := Pieces(text);
    var gs := Pack(ps, size);
    JoinFlatten(" ", gs);
    forall i | 0 <= i < |gs|
      ensures |Words(Join(" ", gs[i]))| == WordTotal(gs[i])
    {
      ChunkWords(gs[i]);
    }
    forall i | 0 <= i < |gs| && |gs[i]| == 1
      ensures gs[i][0] in ps
    {
      FlattenMember(gs, i, 0);
    }
    JoinEach(" ", gs)
  }

  /** An element of a group is an element of the flattened groups. */
  lemma {:induction false} FlattenMember<T>(gs: seq<seq<T>>, i: nat, j: nat)
    requires i < |gs| && j < |gs[i]|
    ensures gs[i][j] in Flatten(gs)
    decreases i
  {
    if i > 0 {
      FlattenMember(gs[1..], i - 1, j);
    }
  }

  lemma ChunksArePackedGroups(text: string, size: int)
    ensures Chunks(text, size) == JoinEach(" ", Pack(Pieces(text), size))
  {
  }

  /** One turn of the packing loop. */
  lemma PackFromStep(rest: seq<string>, size: int, done: seq<seq<string>>, current: seq<string>, curLen: int)
    requires |rest| > 0
    ensures PackFrom(rest, size, done, current, curLen) ==
      if curLen + |Words(rest[0])| > size && |current| > 0
      then PackFrom(rest[1..], size, done + [current], [rest[0]], |Words(rest[0])|)
      else PackFrom(rest[1..], size, done, current + [rest[0]], curLen + |Words(rest[0])|)
  {
  }

  /**
    `_split_into_chunks` as written: split the text on full stops, then make
    one pass over the pieces with a running word count. It computes exactly
    the chunks `Chunks(text, chunkSize)`.
  */
  method SplitIntoChunks(text: string, chunkSize: int) returns (chunks: seq<string>)
    ensures chunks == Chunks(text, chunkSize)
    ensures |chunks| >= 1
    ensures Join(" ", chunks) == Join(" ", Pieces(text))
  {
    var sentences := SplitStr(text, [FullStop]);
    chunks := PackSentences(sentences, chunkSize);
    ChunksArePackedGroups(text, chunkSize);
  }

  /** One turn of the packing loop: the sentence `rest[0]` closes the open
      group or joins it, and what is left to pack is unchanged. */
  method PackTurn(sentence: string, chunkSize: int, chunks: seq<string>, current: seq<string>, curLen: int,
                  ghost done: seq<seq<string>>, ghost rest: seq<string>)
    returns (chunks1: seq<string>, current1: seq<string>, curLen1: int, ghost done1: seq<seq<string>>)
    requires |rest| > 0 && rest[0] == sentence
    requires chunks == JoinEach(" ", done)
    ensures chunks1 == JoinEach(" ", done1)
    ensures PackFrom(rest[1..], chunkSize, done1, current1, curLen1) == PackFrom(rest, chunkSize, done, current, curLen)
  {
    var sentenceLength := |Words(sentence)|;
    PackFromStep(rest, chunkSize, done, current, curLen);
    if curLen + sentenceLength > chunkSize && |current| > 0 {
      JoinEachAppend(" ", done, current);
      chunks1 := chunks + [Join(" ", current)];
      done1 := done + [current];
      current1 := [sentence];
      curLen1 := sentenceLength;
    } else {
      chunks1 := chunks;
      done1 := done;
      current1 := current + [sentence];
      curLen1 := curLen + sentenceLength;
    }
  }

  /** The packing loop of `_split_into_chunks` over the split parts. */
  method PackSentences(sentences: seq<string>, chunkSize: int) returns (chunks: seq<string>)
    ensures chunks == JoinEach(" ", Pack(PiecesOf(sentences), chunkSize))
  {
    ghost var pieces := PiecesOf(sentences);
    ghost var groups := PackFrom(pieces, chunkSize, [], [], 0);
    ghost var done: seq<seq<string>> := [];
    ghost var rest := pieces;
    chunks := [];
    var currentChunk: seq<string> := [];
    var currentLength := 0;
    var i := 0;
    while i < |sentences|
      invariant 0 <= i <= |sentences| == |pieces|
      invariant rest == pieces[i..]
      invariant chunks == JoinEach(" ", done)
      invariant PackFrom(rest, chunkSize, done, currentChunk, currentLength) == groups
    {
      var sentence := Strip(sentences[i]) + [FullStop];
      assert rest[0] == sentence;
      chunks, currentChunk, currentLength, done := PackTurn(sentence, chunkSize, chunks, currentChunk, currentLength, done, rest);
      rest := rest[1..];
      i := i + 1;
    }
    if |currentChunk| > 0 {
      JoinEachAppend(" ", done, currentChunk);
      chunks := chunks + [Join(" ", currentChunk)];
      done := done + [currentChunk];
    }
  }
}
