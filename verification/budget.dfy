/**
  Token counting, context truncation and response validation of `RAGHandler`
  (src/rag/rag_handler.py).
*/
module Budget {
  import opened Text

  /** The characters `_count_tokens` counts as tokens of their own. */
  const Punctuation: string := ".,!?;:"

  /** The number of characters of `s` in `Punctuation`. */
  function PunctuationCount(s: string): (n: nat)
    ensures n <= |s|
    decreases |s|
  {
    if |s| == 0 then 0
    else (if s[0] in Punctuation then 1 else 0) + PunctuationCount(s[1..])
  }

  lemma {:induction false} PunctuationCountAppend(a: string, b: string)
    ensures PunctuationCount(a + b) == PunctuationCount(a) + PunctuationCount(b)
    decreases |a|
  {
    if |a| == 0 {
      assert a + b == b;
    } else {
      assert (a + b)[1..] == a[1..] + b;
      PunctuationCountAppend(a[1..], b);
    }
  }

  /** `_count_tokens`: the `split()` words plus the punctuation characters. */
  function CountTokens(text: string): (n: nat)
    ensures n >= |Words(text)|
    ensures n - |Words(text)| <= |text|
  {
    |Words(text)| + PunctuationCount(text)
  }

  /** Token counts add up over text joined by whitespace: a whitespace
      character is neither a word nor punctuation. */
  lemma CountTokensAdditive(a: string, c: char, b: string)
    requires IsSpace(c)
    ensures CountTokens(a + [c] + b) == CountTokens(a) + CountTokens(b)
  {
    WordsAroundSpace(a, c, b);
    PunctuationCountAppend(a + [c], b);
    PunctuationCountAppend(a, [c]);
    assert [c][1..] == [];
  }

  /** The end of the Python slice `xs[:m]` of a list of length `n`; a negative
      `m` counts from the end. */
  function SliceEnd(n: nat, m: int): (e: nat)
    ensures e <= n
    ensures 0 <= m <= n ==> e == m
    ensures m < 0 && n + m >= 0 ==> e == n + m
  {
    if m >= 0 then (if m <= n then m else n)
    else if n + m >= 0 then n + m
    else 0
  }

  /**
    `_truncate_context(context, max_tokens)`: the context itself when it has
    at most `max_tokens` words, otherwise its first `max_tokens` words (as
    Python slices them) joined by single spaces.
  */
  function TruncateContext(context: string, maxTokens: int): (r: string)
    ensures |Words(context)| <= maxTokens ==> r == context
    ensures |Words(context)| > maxTokens ==>
      Words(r) == Words(context)[..SliceEnd(|Words(context)|, maxTokens)] && Trimmed(r) && NoDoubleSpace(r)
    ensures |Words(context)| > maxTokens ==>
      r == Join(" ", Words(context)[..SliceEnd(|Words(context)|, maxTokens)])
    ensures maxTokens >= 0 ==> |Words(r)| <= maxTokens
  {
    var ws := Words(context);
    if |ws| <= maxTokens then context
    else
      var kept := ws[..SliceEnd(|ws|, maxTokens)];
      WordsOfJoin(kept);
      JoinWordsShape(kept);
      Join(" ", kept)
  }

  /** Truncating to `a` words and then to `b <= a` words is truncating to `b`
      words, so the pipeline's cut to 100 and then 50 and 25 words is the
      same as cutting straight to 50 or 25. */
  lemma TruncateTwice(context: string, a: int, b: int)
    requires 0 <= b <= a
    ensures TruncateContext(TruncateContext(context, a), b) == TruncateContext(context, b)
  {
    var ws := Words(context);
    if |ws| > a {
      var t := TruncateContext(context, a);
      assert Words(t) == ws[..a];
      if a > b {
        assert Words(t)[..b] == ws[..b];
      }
    }
  }

  /** Truncation to a non-negative budget is idempotent. */
  lemma TruncateIdempotent(context: string, m: int)
    requires m >= 0
    ensures TruncateContext(TruncateContext(context, m), m) == TruncateContext(context, m)
  {
    TruncateTwice(context, m, m);
  }

  /** `self.min_response_length`. */
  const MinResponseLength: nat := 10

  /** The distinct lower-cased `split()` words two texts share. */
  function SharedWords(response: string, context: string): set<string>
  {
    set w | w in Words(Lower(response)) && w in Words(Lower(context))
  }

  lemma SharedWordsSymmetric(response: string, context: string)
    ensures SharedWords(response, context) == SharedWords(context, response)
  {
  }

  /**
    `_validate_response`: a response shorter than 10 characters is rejected;
    one sharing more than 3 distinct lower-cased words with the context is
    accepted without consulting the embedder; otherwise `similar` decides.
  */
  function ValidateResponse(response: string, context: string, similar: (string, string) -> bool): (ok: bool)
    ensures ok ==> |response| >= MinResponseLength
    ensures |response| >= MinResponseLength && |SharedWords(response, context)| > 3 ==> ok
    ensures ok && |SharedWords(response, context)| <= 3 ==> similar(response, context)
    ensures |response| >= MinResponseLength && |SharedWords(response, context)| <= 3 ==>
      (ok <==> similar(response, context))
  {
    if |response| < MinResponseLength then false
    else if |SharedWords(response, context)| > 3 then true
    else similar(response, context)
  }

  /** The similarity check matters only for responses of at least 10
      characters with at most 3 shared words: elsewhere any two similarity
      functions give the same verdict. */
  lemma SimilarityOnlyDecidesLowOverlap(response: string, context: string, s1: (string, string) -> bool, s2: (string, string) -> bool)
    requires |response| < MinResponseLength || |SharedWords(response, context)| > 3
    ensures ValidateResponse(response, context, s1) == ValidateResponse(response, context, s2)
  {
  }

  /** A response of at least 10 characters built from more than 3 distinct
      words of the context is accepted. */
  lemma WordsFromContextAccepted(response: string, context: string, similar: (string, string) -> bool)
    requires |response| >= MinResponseLength
    requires forall w :: w in Words(Lower(response)) ==> w in Words(Lower(context))
    requires |set w | w in Words(Lower(response))| > 3
    ensures ValidateResponse(response, context, similar)
  {
    assert SharedWords(response, context) == set w | w in Words(Lower(response));
  }
}
