/**
  The capabilities the story question-answering code takes from libraries
  whose behaviour is not part of this model: NLTK's sentence splitter, the
  sentence embedder and its cosine similarities, the Chroma collection, the
  language model and the response formatter of `RAGHandler`
  (src/rag/rag_handler.py). Each is an uninterpreted function.
*/
module External {

  /** What a call of the language model gives: generated text, or an
      exception with its message. */
  datatype Generation = Generated(text: string) | Raised(message: string)

  datatype Backend = Backend(
    /** `sent_tokenize(text)`. */
    tokenize: string -> seq<string>,
    /** `collection.query(...)['documents']` for the embedding of a text,
        a number of results and a story filter (`""` for no filter). */
    query: (string, nat, string) -> seq<seq<string>>,
    /** The sentences `_get_relevant_context` keeps from its weighted
        word-overlap and similarity scoring: the best two scoring over 0.3. */
    bestMatches: (string, seq<string>) -> seq<string>,
    /** Cosine similarity of two sentences above `context_overlap_threshold`. */
    duplicate: (string, string) -> bool,
    /** Cosine similarity of a response and its context at least
        `similarity_threshold`. */
    similar: (string, string) -> bool,
    /** `self.llm(prompt)`. */
    llm: string -> Generation,
    /** `_format_response`. */
    format: string -> string)
}
