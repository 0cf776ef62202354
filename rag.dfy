/**
 * The document store of the backend: the list of `{text, source}` records
 * kept in step with the vector index, the operations that reset it, append
 * to it and answer a question from it, and the summary helper.
 */
module Rag {
  import opened Wrappers
  import opened Builtins
  import opened Retrieval

  /** Characters of a document the summary prompt looks at (`max_chars`). */
  const SummaryChars: nat := 3000

  /** `[{"text": t, "source": source} for t in texts]`. */
  function Tagged(texts: seq<string>, source: string): (ds: seq<Doc>)
    ensures |ds| == |texts|
    ensures forall k :: 0 <= k < |texts| ==> ds[k] == Doc(texts[k], source)
    decreases |texts|
  {
    if texts == [] then []
    else Tagged(texts[..|texts| - 1], source) + [Doc(texts[|texts| - 1], source)]
  }

  /** The fixed text of the summary prompt that comes before the snippet. */
  const SummaryLead: string :=
    "\nSummarize what this document is about in 2\U{2013}3 sentences.\n"
    + "Do NOT add assumptions.\n\nDocument:\n"

  /** The summary prompt for a snippet of a document: the snippet appears verbatim after the fixed lead. */
  function SummaryPrompt(snippet: string): (p: string)
    ensures SummaryLead <= p && OccursAt(p, snippet, |SummaryLead|)
    ensures |p| == |SummaryLead| + |snippet| + 1 && p[|p| - 1] == '\n'
  {
    SummaryLead + snippet + "\n"
  }

  /**
   * `summarize_document(text, max_chars)`: the chat model's reply to the
   * summary prompt built from `text[:max_chars]`, stripped: a piece of that
   * reply with only whitespace around it and none at either end.
   */
  function Summarize(text: string, maxChars: nat, chat: string -> string): (r: string)
    ensures var reply := chat(SummaryPrompt(Prefix(text, maxChars)));
      OccursAt(reply, r, LeadingSpace(reply)) &&
      IsBlank(reply[..LeadingSpace(reply)]) && IsBlank(reply[LeadingSpace(reply) + |r|..])
    ensures r == [] || (!IsSpace(r[0]) && !IsSpace(r[|r| - 1]))
  {
    var reply := chat(SummaryPrompt(Prefix(text, maxChars)));
    Strip(reply)
  }

  /**
   * The module-level state: `docs` and the vector `index`, of which only the
   * number of stored vectors matters here.
   */
  class Store {
    var docs: seq<Doc>
    var indexSize: nat

    /** The index holds one vector per stored document. */
    ghost predicate Valid()
      reads this
    {
      indexSize == |docs|
    }

    /** A fresh process with nothing persisted: an empty index and no docs. */
    constructor ()
      ensures Valid() && docs == [] && indexSize == 0
    {
      docs := [];
      indexSize := 0;
    }

    /** `reset_index()`: a new empty index and an empty document list. */
    method Reset()
      modifies this
      ensures Valid() && docs == [] && indexSize == 0
    {
      indexSize := 0;
      docs := [];
    }

    /**
     * `add_documents(texts, source)`: nothing happens for an empty list;
     * otherwise the index gains one vector per text and the docs gain one
     * record per text, in order, after the old ones.
     */
    method AddDocuments(texts: seq<string>, source: string) returns (added: bool)
      requires Valid()
      modifies this
      ensures Valid()
      ensures added <==> texts != []
      ensures indexSize == old(indexSize) + |texts|
      ensures docs == old(docs) + Tagged(texts, source)
    {
      if texts == [] {
        return false;
      }
      indexSize := indexSize + |texts|;
      for i := 0 to |texts|
        invariant indexSize == old(indexSize) + |texts|
        invariant docs == old(docs) + Tagged(texts[..i], source)
      {
        assert texts[..i + 1][..i] == texts[..i];
        docs := docs + [Doc(texts[i], source)];
      }
      assert texts[..|texts|] == texts;
      assert |Tagged(texts, source)| == |texts|;
      added := true;
    }

    /**
     * `ask(question, source, top_k)`: asks the index for min(2 * topK, |docs|)
     * neighbours, keeps the first topK hits that pass the source filter,
     * records per source the least distance among them, and asks the chat
     * model with the kept blocks as context; the two early exits answer
     * without asking.
     */
    method Ask(question: string, filter: Option<string>, topK: nat,
               search: nat -> seq<Hit>, chat: string -> string) returns (r: AskReply)
      requires Valid()
      requires topK >= 1
      requires docs != [] ==> SearchContract(search, Min(2 * topK, |docs|), indexSize)
      ensures r == AskSpec(docs, question, filter, topK, search, chat)
    {
      if docs == [] {
        return AskReply(NoDocumentsAnswer, []);
      }
      var hits := search(Min(2 * topK, |docs|));
      var blocks, scores := SelectBlocks(docs, hits, filter, topK);
      AskSpecOfKept(docs, question, filter, topK, search, chat, blocks, scores);
      if blocks == [] {
        r := AskReply(DontKnowAnswer, []);
      } else {
        var context := Join(blocks, BlockSeparator);
        r := AskReply(chat(AskPrompt(context, question)), scores.Items());
      }
    }
  }

  /**
   * The loop of `ask` over the hits: skips the hits the source filter
   * rejects, appends each other hit's text to the blocks and records its
   * distance under its source, and stops once topK blocks are kept. The
   * blocks are the texts of the kept hits and the table is built from them.
   */
  method SelectBlocks(docs: seq<Doc>, hits: seq<Hit>, filter: Option<string>, topK: nat)
    returns (blocks: seq<string>, scores: ScoreTable)
    requires HitsWithin(hits, |docs|)
    requires topK >= 1
    ensures blocks == Texts(Selected(docs, hits, filter, topK))
    ensures scores == Aggregate(Selected(docs, hits, filter, topK))
  {
    blocks := [];
    scores := EmptyTable;
    ghost var kept: seq<Match> := [];
    var i := 0;
    while i < |hits|
      invariant SelectInvariant(docs, hits, filter, topK, i, kept, blocks, scores)
    {
      var h := hits[i];
      var d := docs[h.idx];
      if filter.Some? && filter.value != "" && d.source != filter.value {
        SelectSkip(docs, hits, filter, topK, i, kept, blocks, scores);
        i := i + 1;
        continue;
      }
      var m := Match(d, h.distance);
      SelectKeep(docs, hits, filter, topK, i, kept, blocks, scores, m);
      blocks := blocks + [d.text];
      kept := kept + [m];
      scores := Record(scores, m);
      i := i + 1;
      if |blocks| >= topK {
        return;
      }
    }
    SelectDone(docs, hits, filter, topK, kept, blocks, scores);
  }
}
