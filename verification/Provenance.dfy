// Where the text of every document comes from: from a chunk of a file that was read, the same
// chunk whose embedding is the vector of the document's row, or from an older document.

module Provenance {
  import opened Wrappers
  import opened Records
  import opened Bytes
  import opened StoreView
  import opened Lexical
  import opened Agreement
  import opened Pass
  import opened Fusion
  import opened Search

  /** Row and text are a chunk of one of these files: its record, its embedding and its body. */
  ghost predicate TextOf(embed: string -> Vector, items: seq<WorkItem>, row: StoredRow, text: string) {
    exists item, c :: item in items && item.parse.Parsed? && c in item.parse.chunks
      && row == StoredRow(c.rec, true, embed(c.body)) && text == c.body
  }

  /** Row and document stood together, the row live, in an earlier state. */
  ghost predicate KeptFrom(v: View, docs: map<RowId, LexicalDoc>, row: StoredRow, doc: LexicalDoc) {
    exists r :: r in docs && LiveAt(v, r) && row == v[r] && doc == docs[r]
  }

  /** Every live row of the later state, with its document, was there before or comes from a file. */
  ghost predicate Traced(embed: string -> Vector, v: View, docs: map<RowId, LexicalDoc>, items: seq<WorkItem>,
                         v': View, docs': map<RowId, LexicalDoc>) {
    forall r | r in docs' && LiveAt(v', r) :: KeptFrom(v, docs, v'[r], docs'[r]) || TextOf(embed, items, v'[r], docs'[r].body)
  }

  /** Every live row holds the embedding of its document's text. */
  ghost predicate Embodied(embed: string -> Vector, v: View, docs: map<RowId, LexicalDoc>) {
    forall r | r in docs && LiveAt(v, r) :: v[r].vec == embed(docs[r].body)
  }

  lemma TracedStart(embed: string -> Vector, v: View, docs: map<RowId, LexicalDoc>, items: seq<WorkItem>)
    ensures Traced(embed, v, docs, items, v, docs)
  {
  }

  lemma TracedMore(embed: string -> Vector, v: View, docs: map<RowId, LexicalDoc>, items: seq<WorkItem>, more: seq<WorkItem>,
                   cur: View, now: map<RowId, LexicalDoc>)
    requires Traced(embed, v, docs, items, cur, now) && forall item | item in items :: item in more
    ensures Traced(embed, v, docs, more, cur, now)
  {
  }

  lemma TracedTombstone(embed: string -> Vector, v: View, docs: map<RowId, LexicalDoc>, items: seq<WorkItem>,
                        cur: View, now: map<RowId, LexicalDoc>, cur': View, now': map<RowId, LexicalDoc>, rows: seq<RowId>)
    requires Traced(embed, v, docs, items, cur, now)
    requires Marked(cur, cur', rows) && Unlisted(now, now', rows)
    ensures Traced(embed, v, docs, items, cur', now')
  {
    hide KeptFrom, TextOf;
    forall r | r in now' && LiveAt(cur', r)
      ensures cur'[r] == cur[r] && LiveAt(cur, r) && r in now
    {
    }
  }

  lemma ChunkText(embed: string -> Vector, items: seq<WorkItem>, c: Chunk)
    requires FromItems(items, c)
    ensures TextOf(embed, items, StoredRow(c.rec, true, embed(c.body)), c.body)
  {
  }

  lemma AppendedAt(embed: string -> Vector, chunks: seq<Chunk>, k: nat)
    ensures |Appended(Embedded(embed, chunks))| == |chunks|
    ensures k < |chunks| ==> Appended(Embedded(embed, chunks))[k] == StoredRow(chunks[k].rec, true, embed(chunks[k].body))
  {
  }

  lemma WrittenBefore(docs: map<RowId, LexicalDoc>, w: map<RowId, LexicalDoc>, first: RowId, chunks: seq<Chunk>, r: RowId)
    requires Written(docs, w, first, chunks) && r in w && r < first
    ensures r in docs && w[r] == docs[r]
  {
  }

  lemma WrittenAt(docs: map<RowId, LexicalDoc>, w: map<RowId, LexicalDoc>, first: RowId, chunks: seq<Chunk>, k: nat)
    requires Written(docs, w, first, chunks) && k < |chunks|
    ensures first + k in w && w[first + k].body == chunks[k].body
  {
  }

  lemma TracedFlush(embed: string -> Vector, v: View, docs: map<RowId, LexicalDoc>, items: seq<WorkItem>,
                    cur: View, now: map<RowId, LexicalDoc>, now': map<RowId, LexicalDoc>, chunks: seq<Chunk>)
    requires Traced(embed, v, docs, items, cur, now) && Agree(cur, now)
    requires forall k | 0 <= k < |chunks| :: FromItems(items, chunks[k])
    requires Written(now, now', |cur|, chunks)
    ensures Traced(embed, v, docs, items, cur + Appended(Embedded(embed, chunks)), now')
  {
    hide KeptFrom, TextOf, FromItems, Written, Agree, Embedded, Appended;
    var after := cur + Appended(Embedded(embed, chunks));
    assert |Appended(Embedded(embed, chunks))| == |chunks| by {
      AppendedAt(embed, chunks, 0);
    }
    forall r | r in now' && LiveAt(after, r)
      ensures KeptFrom(v, docs, after[r], now'[r]) || TextOf(embed, items, after[r], now'[r].body)
    {
      if r < |cur| {
        WrittenBefore(now, now', |cur|, chunks, r);
      } else {
        var k := r - |cur|;
        AppendedAt(embed, chunks, k);
        WrittenAt(now, now', |cur|, chunks, k);
        ChunkText(embed, items, chunks[k]);
      }
    }
  }

  lemma TracedCompact(embed: string -> Vector, v: View, docs: map<RowId, LexicalDoc>, items: seq<WorkItem>,
                      cur: View, now: map<RowId, LexicalDoc>)
    requires Traced(embed, v, docs, items, cur, now) && Agree(cur, now)
    ensures Traced(embed, v, docs, items, Compact(cur), Substitute(now, RowMapping(cur)))
  {
    hide KeptFrom, TextOf, Compact, RowMapping, Substitute, LiveCount;
    var m := RowMapping(cur);
    CompactionMapping(cur);
    MappingMoves(cur, now);
    forall r: RowId | r in Substitute(now, m) && LiveAt(Compact(cur), r)
      ensures m[r].0 in now && LiveAt(cur, m[r].0) && Compact(cur)[r] == cur[m[r].0] && Substitute(now, m)[r] == now[m[r].0]
    {
      SubstituteAt(now, m, r);
    }
  }

  /** A run keeps every vector the embedding of its document's text. */
  lemma TracedEmbodied(embed: string -> Vector, v: View, docs: map<RowId, LexicalDoc>, items: seq<WorkItem>,
                       v': View, docs': map<RowId, LexicalDoc>)
    requires Traced(embed, v, docs, items, v', docs') && Embodied(embed, v, docs)
    ensures Embodied(embed, v', docs')
  {
    forall r | r in docs' && LiveAt(v', r)
      ensures v'[r].vec == embed(docs'[r].body)
    {
      if KeptFrom(v, docs, v'[r], docs'[r]) {
        var r0 :| r0 in docs && LiveAt(v, r0) && v'[r] == v[r0] && docs'[r] == docs[r0];
        assert v[r0].vec == embed(docs[r0].body);
      }
    }
  }

  // ---------- What a search shows of it ----------

  /** The result repeats this record, and its preview is the longest beginning of this text that
      fits. */
  ghost predicate Shows(x: SearchResult, rec: ChunkRecord, text: string) {
    && x.file == rec.file && x.symbol == rec.symbol && x.signature == rec.signature && x.doc == rec.docFirstLine
    && x.lineStart == rec.lineStart && x.lineEnd == rec.lineEnd
    && x.preview <= text && |Utf8(x.preview)| <= 320
    && (|x.preview| < |text| ==> |Utf8(x.preview + [text[|x.preview|]])| > 320)
  }

  /** The result shows a chunk of one of these files. */
  ghost predicate ShowsChunk(items: seq<WorkItem>, x: SearchResult) {
    exists item, c :: item in items && item.parse.Parsed? && c in item.parse.chunks && Shows(x, c.rec, c.body)
  }

  /** The result shows a live row of this state with the text of its document. */
  ghost predicate ShowsRow(v: View, docs: map<RowId, LexicalDoc>, x: SearchResult) {
    exists r :: r in docs && LiveAt(v, r) && Shows(x, v[r].rec, docs[r].body)
  }

  lemma ResultsShown(engine: Engine, v: View, docs: map<RowId, LexicalDoc>, dims: nat, model: string,
                     text: string, topK: nat, config: FusionConfig, role: Role, runLexical: bool, x: SearchResult)
      returns (row: RowId)
    requires Sane(config) && Agree(v, docs)
    requires var r := RunSpec(engine, v, docs, dims, model, text, topK, config, role, runLexical); r.Ok? && x in r.value.results
    ensures row in docs && LiveAt(v, row) && Shows(x, v[row].rec, docs[row].body)
  {
    hide Agree, LexicalAnswer, Dense.SearchSpec, FusionOf, Assemble;
    var query := engine.embed(text, role).value;
    var lexical := if runLexical then LexicalAnswer(engine, docs, |v|, text, config.lexicalDepth) else Ok([]);
    var dense := Dense.SearchSpec(VectorsOf(v), MaskOf(v), dims, model, query, engine.modelId, config.denseDepth, engine.similarity);
    AnswersLive(engine, v, docs, dims, model, text, config, query);
    var rows := AnswerShape(v, docs, config, RowsOrNone(lexical), RowsOrNone(dense), topK);
    var results := RunSpec(engine, v, docs, dims, model, text, topK, config, role, runLexical).value.results;
    var i :| 0 <= i < |results| && results[i] == x;
    row := rows[i];
    PreviewMeaning(docs[row].body);
  }

  /** After an index run, every result of every search shows a chunk of an indexed file, its
      record and a beginning of its text, or a row that was there before the run. */
  lemma SearchShowsIndexed(embed: string -> Vector, v: View, docs: map<RowId, LexicalDoc>, items: seq<WorkItem>,
                           v': View, docs': map<RowId, LexicalDoc>, engine: Engine, dims: nat, model: string,
                           text: string, topK: nat, config: FusionConfig, role: Role, runLexical: bool, x: SearchResult)
    requires Sane(config) && Agree(v', docs') && Traced(embed, v, docs, items, v', docs')
    requires var r := RunSpec(engine, v', docs', dims, model, text, topK, config, role, runLexical); r.Ok? && x in r.value.results
    ensures ShowsChunk(items, x) || ShowsRow(v, docs, x)
  {
    hide RunSpec, Agree, Shows;
    var row := ResultsShown(engine, v', docs', dims, model, text, topK, config, role, runLexical, x);
    if KeptFrom(v, docs, v'[row], docs'[row]) {
      var r :| r in docs && LiveAt(v, r) && v'[row] == v[r] && docs'[row] == docs[r];
      assert ShowsRow(v, docs, x);
    } else {
      var item, c :| item in items && item.parse.Parsed? && c in item.parse.chunks
        && v'[row] == StoredRow(c.rec, true, embed(c.body)) && docs'[row].body == c.body;
      assert ShowsChunk(items, x);
    }
  }
}
