/**
 * What `ask` computes from a nearest-neighbour hit list, stated without loops:
 * which hits survive the source filter, which of them are kept under the
 * `top_k` cap, and the per-source minimum distance table built from the kept
 * hits. Rag.Store.Ask, through the loop in Rag.SelectBlocks, is proved to
 * compute exactly AskSpec.
 */
module Retrieval {
  import opened Wrappers
  import opened Builtins

  /** One entry of the document store: `{"text": ..., "source": ...}`. */
  datatype Doc = Doc(text: string, source: string)

  /** One row of the index search: an L2 distance and a position in the store. */
  datatype Hit = Hit(distance: real, idx: int)

  /** A hit resolved against the store. */
  datatype Match = Match(doc: Doc, distance: real)

  /** One entry of the reply's `sources` list, before the score transform. */
  datatype Citation = Citation(source: string, distance: real)

  /** The reply of `ask`: `{"answer": ..., "sources": [...]}`. */
  datatype AskReply = AskReply(answer: string, sources: seq<Citation>)

  const NoDocumentsAnswer: string := "No documents indexed yet."
  const DontKnowAnswer: string := "I don't know."
  const BlockSeparator: string := "\n\n"

  /** The fixed text of the `ask` prompt before the context. */
  const AskLead: string :=
    "\nYou are a helpful assistant answering questions about documents.\n"
    + "Use the context below to answer the question.\n"
    + "If the context contains relevant information, provide a clear and helpful answer.\n"
    + "Only say \"I don't know\" if the context is completely unrelated to the question.\n"
    + "\nContext:\n"

  /** The fixed text between the context and the question. */
  const QuestionLead: string := "\n\nQuestion:\n"

  /**
   * The prompt sent to the chat model: the context appears verbatim after
   * the fixed lead, and the question verbatim after it.
   */
  function AskPrompt(context: string, question: string): (p: string)
    ensures AskLead <= p && OccursAt(p, context, |AskLead|)
    ensures OccursAt(p, QuestionLead, |AskLead| + |context|)
    ensures OccursAt(p, question, |AskLead| + |context| + |QuestionLead|)
  {
    AskLead + context + QuestionLead + question + "\n\nAnswer:\n"
  }

  /** `not (source and d["source"] != source)`: no filter, an empty filter, or the doc's own source. */
  predicate Admits(filter: Option<string>, d: Doc): (ok: bool)
    ensures filter.None? || filter.value == "" ==> ok
    ensures filter.Some? && filter.value != "" ==> (ok <==> d.source == filter.value)
  {
    filter.None? || filter.value == "" || d.source == filter.value
  }

  /** Every hit points at a position below n. */
  predicate HitsWithin(hits: seq<Hit>, n: int) {
    forall j :: 0 <= j < |hits| ==> 0 <= hits[j].idx < n
  }

  /** What the index search promises when asked for k neighbours of an index holding n vectors. */
  predicate SearchContract(search: nat -> seq<Hit>, k: nat, n: int) {
    |search(k)| <= k && HitsWithin(search(k), n)
  }

  /** The hits that pass the source filter, resolved against docs, in hit order. */
  function Matching(docs: seq<Doc>, hits: seq<Hit>, filter: Option<string>): (ms: seq<Match>)
    requires HitsWithin(hits, |docs|)
    ensures |ms| <= |hits|
    ensures forall k :: 0 <= k < |ms| ==> Admits(filter, ms[k].doc)
    decreases |hits|
  {
    if hits == [] then []
    else
      var h := hits[|hits| - 1];
      var rest := Matching(docs, hits[..|hits| - 1], filter);
      if Admits(filter, docs[h.idx]) then rest + [Match(docs[h.idx], h.distance)] else rest
  }

  /** The kept hits: the first topK of the matching ones. */
  function Selected(docs: seq<Doc>, hits: seq<Hit>, filter: Option<string>, topK: nat): (kept: seq<Match>)
    requires HitsWithin(hits, |docs|)
    ensures kept <= Matching(docs, hits, filter)
    ensures |kept| == Min(topK, |Matching(docs, hits, filter)|)
  {
    var ms := Matching(docs, hits, filter);
    if |ms| <= topK then ms else ms[..topK]
  }

  /** The texts of the kept hits: the `blocks` list. */
  function Texts(ms: seq<Match>): (ts: seq<string>)
    ensures |ts| == |ms|
    ensures forall k :: 0 <= k < |ms| ==> ts[k] == ms[k].doc.text
  {
    seq(|ms|, k requires 0 <= k < |ms| => ms[k].doc.text)
  }

  /** The hit that sits at position p of hits, resolved against docs. */
  function Resolve(docs: seq<Doc>, hits: seq<Hit>, p: nat): Match
    requires HitsWithin(hits, |docs|) && p < |hits|
  {
    Match(docs[hits[p].idx], hits[p].distance)
  }

  /**
   * Matching keeps exactly the admitted hits, in hit order: its k-th entry is
   * the hit at position pos[k], the positions increase, and every admitted
   * hit has its position in pos.
   */
  lemma {:induction false} MatchingPositions(docs: seq<Doc>, hits: seq<Hit>, filter: Option<string>)
    returns (pos: seq<nat>)
    requires HitsWithin(hits, |docs|)
    ensures |pos| == |Matching(docs, hits, filter)|
    ensures forall k :: 0 <= k < |pos| ==>
      pos[k] < |hits| && Matching(docs, hits, filter)[k] == Resolve(docs, hits, pos[k])
    ensures forall k, l :: 0 <= k < l < |pos| ==> pos[k] < pos[l]
    ensures forall p :: 0 <= p < |hits| && Admits(filter, docs[hits[p].idx]) ==> p in pos
    decreases |hits|
  {
    if hits == [] {
      pos := [];
    } else {
      var n := |hits| - 1;
      var front := hits[..n];
      assert HitsWithin(front, |docs|);
      var pos0 := MatchingPositions(docs, front, filter);
      var ms0 := Matching(docs, front, filter);
      var ms := Matching(docs, hits, filter);
      forall q | 0 <= q < n ensures front[q] == hits[q] && Resolve(docs, front, q) == Resolve(docs, hits, q) {
      }
      if Admits(filter, docs[hits[n].idx]) {
        pos := pos0 + [n];
        assert ms == ms0 + [Resolve(docs, hits, n)];
        forall k | 0 <= k < |pos| ensures pos[k] < |hits| && ms[k] == Resolve(docs, hits, pos[k]) {
          if k < |pos0| {
            assert pos[k] == pos0[k] && ms[k] == ms0[k];
          }
        }
        forall k, l | 0 <= k < l < |pos| ensures pos[k] < pos[l] {
          if l == |pos0| {
            assert pos[k] == pos0[k] < n;
          }
        }
      } else {
        pos := pos0;
        assert ms == ms0;
      }
    }
  }

  /** The matching hits of a prefix of the hit list are a prefix of the matching hits. */
  lemma {:induction false} MatchingPrefix(docs: seq<Doc>, hits: seq<Hit>, filter: Option<string>, i: nat)
    requires HitsWithin(hits, |docs|) && i <= |hits|
    ensures HitsWithin(hits[..i], |docs|)
    ensures Matching(docs, hits[..i], filter) <= Matching(docs, hits, filter)
    decreases |hits| - i
  {
    if i < |hits| {
      var n := |hits| - 1;
      assert hits[..n][..i] == hits[..i];
      MatchingPrefix(docs, hits[..n], filter, i);
    } else {
      assert hits[..i] == hits;
    }
  }

  /** One more hit extends the matching hits by that hit when it is admitted. */
  lemma MatchingSnoc(docs: seq<Doc>, hits: seq<Hit>, filter: Option<string>, i: nat)
    requires HitsWithin(hits, |docs|) && i < |hits|
    ensures HitsWithin(hits[..i], |docs|) && HitsWithin(hits[..i + 1], |docs|)
    ensures Matching(docs, hits[..i + 1], filter) ==
      Matching(docs, hits[..i], filter) +
      (if Admits(filter, docs[hits[i].idx]) then [Resolve(docs, hits, i)] else [])
  {
    assert hits[..i + 1][..i] == hits[..i];
    assert hits[..i + 1][i] == hits[i];
  }

  /**
   * The state of the selection loop after the first i hits: the kept hits
   * are the matching ones among them, fewer than topK, and the blocks and
   * the table are built from them.
   */
  ghost predicate SelectInvariant(docs: seq<Doc>, hits: seq<Hit>, filter: Option<string>, topK: nat,
                                  i: nat, kept: seq<Match>, blocks: seq<string>, scores: ScoreTable) {
    HitsWithin(hits, |docs|) && i <= |hits| && HitsWithin(hits[..i], |docs|) &&
    kept == Matching(docs, hits[..i], filter) && |kept| < topK &&
    blocks == Texts(kept) && scores == Aggregate(kept)
  }

  /** A hit the filter rejects leaves the loop state as it was. */
  lemma SelectSkip(docs: seq<Doc>, hits: seq<Hit>, filter: Option<string>, topK: nat,
                   i: nat, kept: seq<Match>, blocks: seq<string>, scores: ScoreTable)
    requires SelectInvariant(docs, hits, filter, topK, i, kept, blocks, scores)
    requires i < |hits| && !Admits(filter, docs[hits[i].idx])
    ensures SelectInvariant(docs, hits, filter, topK, i + 1, kept, blocks, scores)
  {
    MatchingSnoc(docs, hits, filter, i);
  }

  /**
   * An admitted hit joins the kept hits, its text the blocks and its distance
   * the table; once that makes topK kept hits, they are the selected ones.
   */
  lemma SelectKeep(docs: seq<Doc>, hits: seq<Hit>, filter: Option<string>, topK: nat,
                   i: nat, kept: seq<Match>, blocks: seq<string>, scores: ScoreTable, m: Match)
    requires SelectInvariant(docs, hits, filter, topK, i, kept, blocks, scores)
    requires i < |hits| && Admits(filter, docs[hits[i].idx])
    requires m == Match(docs[hits[i].idx], hits[i].distance)
    ensures scores.Valid()
    ensures |blocks + [m.doc.text]| < topK ==>
      SelectInvariant(docs, hits, filter, topK, i + 1, kept + [m], blocks + [m.doc.text], Record(scores, m))
    ensures |blocks + [m.doc.text]| >= topK ==>
      blocks + [m.doc.text] == Texts(Selected(docs, hits, filter, topK)) &&
      Record(scores, m) == Aggregate(Selected(docs, hits, filter, topK))
  {
    MatchingSnoc(docs, hits, filter, i);
    TextsSnoc(kept, m);
    AggregateSnoc(kept, m);
    if |blocks + [m.doc.text]| >= topK {
      SelectedAtCap(docs, hits, filter, topK, i + 1);
    }
  }

  /** After the last hit the kept hits are the selected ones. */
  lemma SelectDone(docs: seq<Doc>, hits: seq<Hit>, filter: Option<string>, topK: nat,
                   kept: seq<Match>, blocks: seq<string>, scores: ScoreTable)
    requires SelectInvariant(docs, hits, filter, topK, |hits|, kept, blocks, scores)
    ensures blocks == Texts(Selected(docs, hits, filter, topK))
    ensures scores == Aggregate(Selected(docs, hits, filter, topK))
  {
    assert hits[..|hits|] == hits;
  }

  /** Once topK hits of a prefix match, the kept hits are exactly those. */
  lemma SelectedAtCap(docs: seq<Doc>, hits: seq<Hit>, filter: Option<string>, topK: nat, i: nat)
    requires HitsWithin(hits, |docs|) && i <= |hits|
    requires HitsWithin(hits[..i], |docs|)
    requires |Matching(docs, hits[..i], filter)| == topK
    ensures Selected(docs, hits, filter, topK) == Matching(docs, hits[..i], filter)
  {
    MatchingPrefix(docs, hits, filter, i);
  }

  /** With no filter, or an empty one, every hit is kept as a match. */
  lemma {:induction false} NoFilterKeepsAll(docs: seq<Doc>, hits: seq<Hit>, filter: Option<string>)
    requires HitsWithin(hits, |docs|)
    requires filter.None? || filter.value == ""
    ensures |Matching(docs, hits, filter)| == |hits|
    ensures forall p :: 0 <= p < |hits| ==> Matching(docs, hits, filter)[p] == Resolve(docs, hits, p)
    decreases |hits|
  {
    if hits != [] {
      var n := |hits| - 1;
      var front := hits[..n];
      assert HitsWithin(front, |docs|);
      NoFilterKeepsAll(docs, front, filter);
      forall p | 0 <= p < n ensures Resolve(docs, front, p) == Resolve(docs, hits, p) {
        assert front[p] == hits[p];
      }
    }
  }

  /**
   * The kept blocks: at most topK of them, each one from an admitted hit, and
   * in hit order (a subsequence of the hits, given by increasing positions).
   */
  lemma SelectedIsSubsequence(docs: seq<Doc>, hits: seq<Hit>, filter: Option<string>, topK: nat)
    returns (pos: seq<nat>)
    requires HitsWithin(hits, |docs|)
    ensures |Selected(docs, hits, filter, topK)| <= topK
    ensures |Selected(docs, hits, filter, topK)| <= |hits|
    ensures |pos| == |Selected(docs, hits, filter, topK)|
    ensures forall k :: 0 <= k < |pos| ==>
      pos[k] < |hits| && Selected(docs, hits, filter, topK)[k] == Resolve(docs, hits, pos[k])
    ensures forall k, l :: 0 <= k < l < |pos| ==> pos[k] < pos[l]
    ensures forall k :: 0 <= k < |pos| ==> Admits(filter, Selected(docs, hits, filter, topK)[k].doc)
  {
    var all := MatchingPositions(docs, hits, filter);
    var kept := Selected(docs, hits, filter, topK);
    pos := all[..|kept|];
  }

  /** A non-empty filter keeps only documents of that source. */
  lemma SourceFilter(docs: seq<Doc>, hits: seq<Hit>, source: string, topK: nat)
    requires HitsWithin(hits, |docs|) && source != ""
    ensures forall k :: 0 <= k < |Selected(docs, hits, Some(source), topK)| ==>
      Selected(docs, hits, Some(source), topK)[k].doc.source == source
  {
  }

  /**
   * Python's dict from source to best distance: the keys in insertion order,
   * and the mapping itself.
   */
  datatype ScoreTable = ScoreTable(keys: seq<string>, best: map<string, real>) {

    /** Keys are distinct and are exactly the mapped sources. */
    ghost predicate Valid() {
      (forall i, j :: 0 <= i < j < |keys| ==> keys[i] != keys[j]) &&
      (forall s :: s in best <==> s in keys)
    }

    /** `table.get(s)`. */
    function Get(s: string): Option<real> {
      if s in best then Some(best[s]) else None
    }

    /** `table[s] = v`: a new key goes to the end of the order, an existing one keeps its place. */
    function Put(s: string, v: real): (t: ScoreTable)
      requires Valid()
      ensures t.Valid()
      ensures keys <= t.keys && s in t.best && t.best[s] == v
      ensures t.keys == if s in best then keys else keys + [s]
      ensures t.best.Keys == best.Keys + {s}
      ensures forall k :: k in best && k != s ==> k in t.best && t.best[k] == best[k]
    {
      ScoreTable(if s in best then keys else keys + [s], best[s := v])
    }

    /** `[{"source": k, ...} for k, v in table.items()]`, before the score transform. */
    function Items(): (cs: seq<Citation>)
      requires Valid()
      ensures |cs| == |keys|
      ensures forall i :: 0 <= i < |cs| ==> cs[i].source == keys[i] && keys[i] in best && cs[i].distance == best[keys[i]]
    {
      seq(|keys|, i requires 0 <= i < |keys| => Citation(keys[i], best[keys[i]]))
    }
  }

  const EmptyTable: ScoreTable := ScoreTable([], map[])

  /** The table after one kept hit: `table[src] = min(table.get(src, inf), distance)`. */
  function Record(t: ScoreTable, m: Match): (r: ScoreTable)
    requires t.Valid()
    ensures r.Valid()
    ensures m.doc.source in r.best && r.best[m.doc.source] <= m.distance
    ensures m.doc.source in t.best ==> r.best[m.doc.source] <= t.best[m.doc.source]
    ensures r.best[m.doc.source] == m.distance ||
      (m.doc.source in t.best && r.best[m.doc.source] == t.best[m.doc.source])
    ensures r.best.Keys == t.best.Keys + {m.doc.source}
    ensures forall k :: k in t.best && k != m.doc.source ==> k in r.best && r.best[k] == t.best[k]
    ensures r.keys == if m.doc.source in t.best then t.keys else t.keys + [m.doc.source]
  {
    var d := match t.Get(m.doc.source)
      case Some(v) => MinReal(v, m.distance)
      case None => m.distance;
    t.Put(m.doc.source, d)
  }

  /** The table built by recording every kept hit in order. */
  function Aggregate(ms: seq<Match>): (t: ScoreTable)
    ensures t.Valid()
    ensures |t.keys| <= |ms|
    decreases |ms|
  {
    if ms == [] then EmptyTable
    else Record(Aggregate(ms[..|ms| - 1]), ms[|ms| - 1])
  }

  /** One more kept hit is one more block. */
  lemma TextsSnoc(ms: seq<Match>, m: Match)
    ensures Texts(ms + [m]) == Texts(ms) + [m.doc.text]
  {
  }

  /** One more kept hit is one more recorded entry. */
  lemma AggregateSnoc(ms: seq<Match>, m: Match)
    ensures Aggregate(ms + [m]) == Record(Aggregate(ms), m)
  {
    assert (ms + [m])[..|ms|] == ms;
  }

  /** The sources of the kept hits. */
  ghost function SourcesOf(ms: seq<Match>): set<string> {
    set k | 0 <= k < |ms| :: ms[k].doc.source
  }

  /** The position of the first hit from source s, or |ms| when there is none. */
  function FirstIndex(ms: seq<Match>, s: string): (r: nat)
    ensures r <= |ms|
    ensures r < |ms| ==> ms[r].doc.source == s
    ensures forall j :: 0 <= j < r ==> ms[j].doc.source != s
  {
    if ms == [] then 0
    else if ms[0].doc.source == s then 0
    else 1 + FirstIndex(ms[1..], s)
  }

  /** v is the least distance among the hits of ms from source s, and some such hit has it. */
  ghost predicate IsMinFor(ms: seq<Match>, s: string, v: real) {
    (exists j :: 0 <= j < |ms| && ms[j].doc.source == s && ms[j].distance == v) &&
    (forall j :: 0 <= j < |ms| && ms[j].doc.source == s ==> v <= ms[j].distance)
  }

  /** Appending one hit leaves the first position of every earlier source unchanged. */
  lemma FirstIndexSnoc(ms: seq<Match>, m: Match, s: string)
    ensures FirstIndex(ms + [m], s) ==
      if FirstIndex(ms, s) < |ms| then FirstIndex(ms, s)
      else if m.doc.source == s then |ms| else |ms| + 1
  {
    var r := FirstIndex(ms, s);
    var r' := FirstIndex(ms + [m], s);
    if r < |ms| {
      assert (ms + [m])[r] == ms[r];
    } else if m.doc.source == s {
      assert (ms + [m])[|ms|] == m;
    } else {
      assert forall j :: 0 <= j < |ms| ==> (ms + [m])[j] == ms[j];
    }
  }

  /** The sources of a non-empty hit list are those of all but its last hit, plus the last one's. */
  lemma SourcesLast(ms: seq<Match>)
    requires ms != []
    ensures SourcesOf(ms) == SourcesOf(ms[..|ms| - 1]) + {ms[|ms| - 1].doc.source}
  {
    var front := ms[..|ms| - 1];
    forall s | s in SourcesOf(ms) ensures s in SourcesOf(front) + {ms[|ms| - 1].doc.source} {
      var k :| 0 <= k < |ms| && ms[k].doc.source == s;
      if k < |front| {
        assert front[k] == ms[k];
      }
    }
    forall s | s in SourcesOf(front) ensures s in SourcesOf(ms) {
      var k :| 0 <= k < |front| && front[k].doc.source == s;
      assert ms[k] == front[k];
    }
  }

  /** The keys of the table are exactly the sources of the kept hits. */
  lemma {:induction false} AggregateKeys(ms: seq<Match>)
    ensures Aggregate(ms).best.Keys == SourcesOf(ms)
    decreases |ms|
  {
    if ms != [] {
      AggregateKeys(ms[..|ms| - 1]);
      SourcesLast(ms);
    }
  }

  /** Every entry of t is the least distance among the hits of ms from its source. */
  ghost predicate MinTable(ms: seq<Match>, t: ScoreTable) {
    forall s :: s in t.best ==> IsMinFor(ms, s, t.best[s])
  }

  /** Recording hit m keeps every entry minimal over the extended hit list. */
  lemma RecordMin(front: seq<Match>, m: Match, t0: ScoreTable, s: string)
    requires t0.Valid() && t0.best.Keys == SourcesOf(front) && MinTable(front, t0)
    requires s in Record(t0, m).best
    ensures IsMinFor(front + [m], s, Record(t0, m).best[s])
  {
    var ms := front + [m];
    var n := |front|;
    var v := Record(t0, m).best[s];
    assert forall j :: 0 <= j < n ==> ms[j] == front[j];
    assert ms[n] == m;
    if s in t0.best {
      var v0 := t0.best[s];
      assert IsMinFor(front, s, v0);
      var j :| 0 <= j < n && front[j].doc.source == s && front[j].distance == v0;
      assert v == v0 || (s == m.doc.source && v == MinReal(v0, m.distance));
    } else {
      assert s == m.doc.source && v == m.distance;
      forall j | 0 <= j < n ensures front[j].doc.source != s {
        assert front[j].doc.source in SourcesOf(front);
      }
    }
  }

  /** Each table entry is the least distance among the kept hits of that source. */
  lemma {:induction false} AggregateMin(ms: seq<Match>)
    ensures MinTable(ms, Aggregate(ms))
    decreases |ms|
  {
    if ms != [] {
      var front := ms[..|ms| - 1];
      var m := ms[|ms| - 1];
      assert ms == front + [m];
      AggregateMin(front);
      AggregateKeys(front);
      var t0 := Aggregate(front);
      assert Aggregate(ms) == Record(t0, m);
      forall s | s in Record(t0, m).best ensures IsMinFor(ms, s, Record(t0, m).best[s]) {
        RecordMin(front, m, t0, s);
      }
    }
  }

  /** A source occurs among the hits exactly when its first position is inside the list. */
  lemma FirstIndexOccurs(ms: seq<Match>, s: string)
    ensures FirstIndex(ms, s) < |ms| <==> s in SourcesOf(ms)
  {
    var r := FirstIndex(ms, s);
    if r < |ms| {
      assert ms[r].doc.source == s;
    }
    if s in SourcesOf(ms) {
      var k :| 0 <= k < |ms| && ms[k].doc.source == s;
      assert r <= k;
    }
  }

  /** Every key occurs in ms, and the keys are ordered by where their sources first appear. */
  ghost predicate FirstSeenOrder(ms: seq<Match>, keys: seq<string>) {
    (forall i, j :: 0 <= i < j < |keys| ==> FirstIndex(ms, keys[i]) < FirstIndex(ms, keys[j])) &&
    (forall i :: 0 <= i < |keys| ==> FirstIndex(ms, keys[i]) < |ms|)
  }

  /** Recording hit m keeps the key order: an old key keeps its place, a new one comes last. */
  lemma RecordOrder(front: seq<Match>, m: Match, keys0: seq<string>, isNew: bool)
    requires FirstSeenOrder(front, keys0)
    requires isNew ==> m.doc.source !in SourcesOf(front)
    ensures FirstSeenOrder(front + [m], if isNew then keys0 + [m.doc.source] else keys0)
  {
    var ms := front + [m];
    forall i | 0 <= i < |keys0|
      ensures FirstIndex(ms, keys0[i]) == FirstIndex(front, keys0[i])
    {
      FirstIndexSnoc(front, m, keys0[i]);
    }
    if isNew {
      var keys := keys0 + [m.doc.source];
      FirstIndexSnoc(front, m, m.doc.source);
      FirstIndexOccurs(front, m.doc.source);
      assert FirstIndex(ms, m.doc.source) == |front|;
      assert forall i :: 0 <= i < |keys0| ==> keys[i] == keys0[i];
    }
  }

  /** The table's keys are ordered by the position where each source first appears. */
  lemma {:induction false} AggregateOrder(ms: seq<Match>)
    ensures FirstSeenOrder(ms, Aggregate(ms).keys)
    decreases |ms|
  {
    if ms != [] {
      var front := ms[..|ms| - 1];
      var m := ms[|ms| - 1];
      assert ms == front + [m];
      AggregateOrder(front);
      AggregateKeys(front);
      var t0 := Aggregate(front);
      var isNew := m.doc.source !in t0.best;
      assert Aggregate(ms).keys == if isNew then t0.keys + [m.doc.source] else t0.keys;
      RecordOrder(front, m, t0.keys, isNew);
    }
  }

  /** The sources named by a table's items are exactly its keys. */
  lemma ItemSources(t: ScoreTable)
    requires t.Valid()
    ensures (set c | c in t.Items() :: c.source) == t.best.Keys
  {
    var cs := t.Items();
    forall s | s in t.best.Keys ensures s in (set c | c in cs :: c.source) {
      var i :| 0 <= i < |t.keys| && t.keys[i] == s;
      assert cs[i] in cs;
    }
  }

  /** Item i of a table cites key i with its entry. */
  lemma ItemAt(t: ScoreTable, i: nat)
    requires t.Valid() && i < |t.keys|
    ensures t.keys[i] in t.best
    ensures t.Items()[i] == Citation(t.keys[i], t.best[t.keys[i]])
  {
  }

  /** The citations of a table whose keys, entries and order are those of Aggregate(ms). */
  lemma TableCitations(ms: seq<Match>, t: ScoreTable)
    requires t.Valid() && t.best.Keys == SourcesOf(ms) && MinTable(ms, t)
    requires FirstSeenOrder(ms, t.keys)
    ensures forall i, j :: 0 <= i < j < |t.Items()| ==> t.Items()[i].source != t.Items()[j].source
    ensures (set c | c in t.Items() :: c.source) == SourcesOf(ms)
    ensures forall i :: 0 <= i < |t.Items()| ==> IsMinFor(ms, t.Items()[i].source, t.Items()[i].distance)
    ensures forall i, j :: 0 <= i < j < |t.Items()| ==>
      FirstIndex(ms, t.Items()[i].source) < FirstIndex(ms, t.Items()[j].source)
    ensures t.Items() == [] <==> ms == []
  {
    var cs := t.Items();
    forall i | 0 <= i < |cs| ensures cs[i] == Citation(t.keys[i], t.best[t.keys[i]]) {
      ItemAt(t, i);
    }
    ItemSources(t);
    if ms != [] {
      assert ms[0].doc.source in SourcesOf(ms);
    }
    if t.keys != [] {
      assert t.keys[0] in t.best.Keys;
    }
  }

  /**
   * The `sources` list built from the kept hits: one entry per source (no
   * source twice), exactly the sources of the kept hits, each with the least
   * distance among that source's kept hits, in order of first appearance;
   * it is empty only when nothing was kept.
   */
  lemma CitationsCorrect(ms: seq<Match>)
    ensures forall i, j :: 0 <= i < j < |Aggregate(ms).Items()| ==>
      Aggregate(ms).Items()[i].source != Aggregate(ms).Items()[j].source
    ensures (set c | c in Aggregate(ms).Items() :: c.source) == SourcesOf(ms)
    ensures forall i :: 0 <= i < |Aggregate(ms).Items()| ==>
      IsMinFor(ms, Aggregate(ms).Items()[i].source, Aggregate(ms).Items()[i].distance)
    ensures forall i, j :: 0 <= i < j < |Aggregate(ms).Items()| ==>
      FirstIndex(ms, Aggregate(ms).Items()[i].source) < FirstIndex(ms, Aggregate(ms).Items()[j].source)
    ensures Aggregate(ms).Items() == [] <==> ms == []
  {
    AggregateKeys(ms);
    AggregateMin(ms);
    AggregateOrder(ms);
    TableCitations(ms, Aggregate(ms));
  }

  /**
   * The reply of `ask` for a store holding docs, given the index search and
   * the chat model; it never cites more sources than topK or than there are
   * docs.
   */
  function AskSpec(docs: seq<Doc>, question: string, filter: Option<string>, topK: nat,
                   search: nat -> seq<Hit>, chat: string -> string): (r: AskReply)
    requires docs != [] ==> SearchContract(search, Min(2 * topK, |docs|), |docs|)
    ensures |r.sources| <= Min(topK, |docs|)
  {
    if docs == [] then AskReply(NoDocumentsAnswer, [])
    else
      var kept := Selected(docs, search(Min(2 * topK, |docs|)), filter, topK);
      if kept == [] then AskReply(DontKnowAnswer, [])
      else AskReply(chat(AskPrompt(Join(Texts(kept), BlockSeparator), question)), Aggregate(kept).Items())
  }

  /** AskSpec for a non-empty store, in terms of the blocks and the table of the kept hits. */
  lemma AskSpecOfKept(docs: seq<Doc>, question: string, filter: Option<string>, topK: nat,
                      search: nat -> seq<Hit>, chat: string -> string,
                      blocks: seq<string>, scores: ScoreTable)
    requires docs != [] && SearchContract(search, Min(2 * topK, |docs|), |docs|)
    requires blocks == Texts(Selected(docs, search(Min(2 * topK, |docs|)), filter, topK))
    requires scores == Aggregate(Selected(docs, search(Min(2 * topK, |docs|)), filter, topK))
    ensures blocks == [] ==> AskSpec(docs, question, filter, topK, search, chat) == AskReply(DontKnowAnswer, [])
    ensures scores.Valid()
    ensures blocks != [] ==>
      AskSpec(docs, question, filter, topK, search, chat) ==
        AskReply(chat(AskPrompt(Join(blocks, BlockSeparator), question)), scores.Items())
  {
    var kept := Selected(docs, search(Min(2 * topK, |docs|)), filter, topK);
    assert blocks == [] <==> kept == [];
  }

  /**
   * The two early exits: with no docs the answer is the "nothing indexed"
   * text, with no kept block it is "I don't know."; `sources` is empty in
   * exactly these two cases, and otherwise cites the kept hits.
   */
  lemma AskEarlyExits(docs: seq<Doc>, question: string, filter: Option<string>, topK: nat,
                      search: nat -> seq<Hit>, chat: string -> string)
    requires docs != [] ==> SearchContract(search, Min(2 * topK, |docs|), |docs|)
    ensures docs == [] ==> AskSpec(docs, question, filter, topK, search, chat).answer == NoDocumentsAnswer
    ensures docs != [] && Selected(docs, search(Min(2 * topK, |docs|)), filter, topK) == [] ==>
      AskSpec(docs, question, filter, topK, search, chat).answer == DontKnowAnswer
    ensures AskSpec(docs, question, filter, topK, search, chat).sources == [] <==>
      docs == [] || Selected(docs, search(Min(2 * topK, |docs|)), filter, topK) == []
  {
    if docs != [] {
      CitationsCorrect(Selected(docs, search(Min(2 * topK, |docs|)), filter, topK));
    }
  }

  /** At most min(2 * topK, |docs|) hits are considered and at most topK blocks are kept. */
  lemma AskLimits(docs: seq<Doc>, filter: Option<string>, topK: nat, search: nat -> seq<Hit>)
    requires docs != [] && SearchContract(search, Min(2 * topK, |docs|), |docs|)
    ensures |Selected(docs, search(Min(2 * topK, |docs|)), filter, topK)| <= Min(topK, |docs|)
  {
  }
}
