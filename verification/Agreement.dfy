// Store and lexical index as two copies of one fact: which rows are live and what they are called.

module Agreement {
  import opened Wrappers
  import opened Records
  import opened StoreView
  import opened Lexical

  predicate Mirrors(doc: LexicalDoc, rec: ChunkRecord) {
    doc.symbol == rec.symbol && doc.signature == rec.signature && doc.docFirstLine == rec.docFirstLine && doc.file == rec.file
  }

  /** The documents are exactly the live rows, and each one repeats its record. */
  ghost predicate Agree(v: View, docs: map<RowId, LexicalDoc>) {
    && (forall r :: r in docs <==> LiveAt(v, r))
    && (forall r | r in docs :: Mirrors(docs[r], v[r].rec))
  }

  /** In agreement, the document count equals the live count, so the check made on reopening
      an index cannot fire. */
  lemma AgreeCount(v: View, docs: map<RowId, LexicalDoc>)
    requires Agree(v, docs)
    ensures |docs| == LiveCount(v)
  {
    LiveCountIsCardinality(v);
    LiveRowsMeaning(v);
    assert docs.Keys == RowSet(LiveRows(v));
  }

  lemma AgreeTombstone(v: View, docs: map<RowId, LexicalDoc>, rows: seq<RowId>)
    requires Agree(v, docs)
    ensures Agree(Tombstone(v, rows), RemoveAll(docs, rows))
  {
    TombstoneMeaning(v, rows);
  }

  // ---------- Batches ----------

  function DocOf(c: Chunk): LexicalDoc {
    LexicalDoc(c.rec.symbol, c.rec.signature, c.rec.docFirstLine, c.rec.file, c.body)
  }

  /** New rows `first`, `first + 1`, ... with the documents of `chunks`. */
  function NumberedDocs(first: RowId, chunks: seq<Chunk>): seq<(RowId, LexicalDoc)> {
    seq(|chunks|, k requires 0 <= k < |chunks| => (first + k, DocOf(chunks[k])))
  }

  function Embedded(embed: string -> Vector, chunks: seq<Chunk>): seq<(ChunkRecord, Vector)> {
    seq(|chunks|, k requires 0 <= k < |chunks| => (chunks[k].rec, embed(chunks[k].body)))
  }

  lemma AppendedSnoc(v: View, embed: string -> Vector, chunks: seq<Chunk>)
    requires chunks != []
    ensures var last := |chunks| - 1;
      v + Appended(Embedded(embed, chunks))
      == v + Appended(Embedded(embed, chunks[..last])) + [StoredRow(chunks[last].rec, true, embed(chunks[last].body))]
    ensures |v + Appended(Embedded(embed, chunks[..|chunks| - 1]))| == |v| + |chunks| - 1
  {
  }

  lemma AddedSnoc(first: RowId, docs: map<RowId, LexicalDoc>, chunks: seq<Chunk>)
    requires chunks != []
    ensures var last := |chunks| - 1;
      AddAll(docs, NumberedDocs(first, chunks)) == AddAll(docs, NumberedDocs(first, chunks[..last]))[first + last := DocOf(chunks[last])]
  {
    var last := |chunks| - 1;
    assert NumberedDocs(first, chunks)[..last] == NumberedDocs(first, chunks[..last]);
  }

  lemma AgreeSnoc(v: View, docs: map<RowId, LexicalDoc>, embed: string -> Vector, c: Chunk)
    requires Agree(v, docs)
    ensures Agree(v + [StoredRow(c.rec, true, embed(c.body))], docs[|v| := DocOf(c)])
  {
  }

  lemma {:induction false} AgreeAppend(v: View, docs: map<RowId, LexicalDoc>, embed: string -> Vector, chunks: seq<Chunk>)
    requires Agree(v, docs)
    ensures Agree(v + Appended(Embedded(embed, chunks)), AddAll(docs, NumberedDocs(|v|, chunks)))
  {
    if chunks == [] {
      assert v + Appended(Embedded(embed, chunks)) == v;
    } else {
      hide Agree, Appended, Embedded, AddAll, NumberedDocs;
      var last := |chunks| - 1;
      AgreeAppend(v, docs, embed, chunks[..last]);
      AppendedSnoc(v, embed, chunks);
      AddedSnoc(|v|, docs, chunks);
      AgreeSnoc(v + Appended(Embedded(embed, chunks[..last])), AddAll(docs, NumberedDocs(|v|, chunks[..last])), embed, chunks[last]);
    }
  }

  /** `w` is `docs` with one document for each chunk, from row `first` on: its fields are those of
      the chunk's record and its text is the chunk's text. Every other document is as it was. */
  ghost predicate Written(docs: map<RowId, LexicalDoc>, w: map<RowId, LexicalDoc>, first: RowId, chunks: seq<Chunk>) {
    && (forall r :: r in w <==> r in docs || first <= r < first + |chunks|)
    && (forall r | r in w && !(first <= r < first + |chunks|) :: w[r] == docs[r])
    && (forall k | 0 <= k < |chunks| :: Mirrors(w[first + k], chunks[k].rec) && w[first + k].body == chunks[k].body)
  }

  lemma WrittenSnoc(docs: map<RowId, LexicalDoc>, w: map<RowId, LexicalDoc>, first: RowId, chunks: seq<Chunk>)
    requires chunks != [] && Written(docs, w, first, chunks[..|chunks| - 1])
    ensures var last := |chunks| - 1;
      Written(docs, w[first + last := DocOf(chunks[last])], first, chunks)
  {
    var last := |chunks| - 1;
    assert forall k | 0 <= k < last :: chunks[k] == chunks[..last][k];
  }

  lemma {:induction false} AddedWritten(docs: map<RowId, LexicalDoc>, first: RowId, chunks: seq<Chunk>)
    ensures Written(docs, AddAll(docs, NumberedDocs(first, chunks)), first, chunks)
  {
    if chunks == [] {
      assert AddAll(docs, NumberedDocs(first, chunks)) == docs;
    } else {
      hide AddAll, NumberedDocs, Written;
      var last := |chunks| - 1;
      AddedWritten(docs, first, chunks[..last]);
      AddedSnoc(first, docs, chunks);
      WrittenSnoc(docs, AddAll(docs, NumberedDocs(first, chunks[..last])), first, chunks);
    }
  }

  /** `w` is `docs` without the documents of the given rows. */
  ghost predicate Unlisted(docs: map<RowId, LexicalDoc>, w: map<RowId, LexicalDoc>, rows: seq<RowId>) {
    forall r :: (r in w <==> r in docs && r !in rows) && (r in w ==> w[r] == docs[r])
  }

  // ---------- Renames ----------

  /** `w` is `docs` with exactly the documents of rows of `from` under the path `to`. */
  ghost predicate Redirected(v: View, docs: map<RowId, LexicalDoc>, w: map<RowId, LexicalDoc>, from: string, to: string) {
    && w.Keys == docs.Keys
    && forall r | r in w :: LiveAt(v, r) && w[r] == if v[r].rec.file == from then docs[r].(file := to) else docs[r]
  }

  function PathsTo(rows: seq<RowId>, to: string): seq<(RowId, string)> {
    seq(|rows|, k requires 0 <= k < |rows| => (rows[k], to))
  }

  lemma {:induction false} RepathMeaning(m: map<RowId, LexicalDoc>, rows: seq<RowId>, to: string)
    requires forall r | r in rows :: r in m
    ensures var n := RepathStepwise(m, m, PathsTo(rows, to));
      n.Keys == m.Keys && forall r | r in m :: n[r] == if r in rows then m[r].(file := to) else m[r]
  {
    if rows != [] {
      var last := |rows| - 1;
      assert PathsTo(rows, to)[..last] == PathsTo(rows[..last], to);
      RepathMeaning(m, rows[..last], to);
    }
  }

  lemma RekeyRedirects(v: View, docs: map<RowId, LexicalDoc>, from: string, to: string)
    requires Agree(v, docs)
    ensures Redirected(v, docs, RepathStepwise(docs, docs, PathsTo(RowsForFile(v, from), to)), from, to)
  {
    hide RowsForFile, RepathStepwise, PathsTo;
    RowsForFileMeaning(v, from);
    RepathMeaning(docs, RowsForFile(v, from), to);
  }

  lemma RedirectedAgrees(v: View, docs: map<RowId, LexicalDoc>, v': View, docs': map<RowId, LexicalDoc>, from: string, to: string)
    requires Agree(v, docs) && Repathed(v, v', from, to) && Redirected(v, docs, docs', from, to)
    ensures Agree(v', docs')
  {
    forall r | r in docs'
      ensures LiveAt(v', r) && Mirrors(docs'[r], v'[r].rec)
    {
      var was := v[r].rec;
      assert LiveAt(v, r) && Mirrors(docs[r], was);
      assert v'[r].rec.(file := was.file) == was && v'[r].rec.file == if was.file == from then to else was.file;
      assert v'[r].rec.symbol == v'[r].rec.(file := was.file).symbol;
    }
    forall r | LiveAt(v', r)
      ensures r in docs'
    {
      assert LiveAt(v, r) && r in docs.Keys;
    }
  }

  lemma AgreeRekey(v: View, docs: map<RowId, LexicalDoc>, from: string, to: string)
    requires Agree(v, docs)
    ensures Agree(Rekey(v, from, to), RepathStepwise(docs, docs, PathsTo(RowsForFile(v, from), to)))
    ensures Redirected(v, docs, RepathStepwise(docs, docs, PathsTo(RowsForFile(v, from), to)), from, to)
  {
    hide RowsForFile, LiveRows, RepathStepwise, PathsTo, UniqueLive, Rekey, Redirected, Agree, Repathed;
    RekeyRedirects(v, docs, from, to);
    RekeyMeaning(v, from, to);
    RedirectedAgrees(v, docs, Rekey(v, from, to), RepathStepwise(docs, docs, PathsTo(RowsForFile(v, from), to)), from, to);
  }

  // ---------- Compaction ----------

  lemma MappingMoves(v: View, docs: map<RowId, LexicalDoc>)
    requires Agree(v, docs)
    ensures Downward(RowMapping(v)) && forall r | r in docs :: Moved(RowMapping(v), r)
  {
    hide RowMapping, Compact, LiveRows, LiveCount;
    CompactionMapping(v);
    forall r | r in docs
      ensures Moved(RowMapping(v), r)
    {
      assert LiveAt(v, r);
    }
  }

  lemma SubstituteAgrees(v: View, docs: map<RowId, LexicalDoc>, r: RowId)
    requires Agree(v, docs)
    ensures var n := Substitute(docs, RowMapping(v));
      && (r in n <==> LiveAt(Compact(v), r))
      && (r in n ==> Mirrors(n[r], Compact(v)[r].rec))
  {
    hide RowMapping, Compact, LiveRows, LiveCount, LiveHashes, Substitute;
    var mapping := RowMapping(v);
    CompactionMapping(v);
    CompactPreserves(v);
    MappingMoves(v, docs);
    if r in Substitute(docs, mapping) {
      SubstituteKeys(docs, mapping, r);
    }
    if r < |mapping| {
      SubstituteAt(docs, mapping, r);
      assert LiveAt(v, mapping[r].0);
    }
  }

  lemma AgreeCompact(v: View, docs: map<RowId, LexicalDoc>)
    requires Agree(v, docs)
    ensures RenumberStepwise(docs, docs, RowMapping(v)) == Substitute(docs, RowMapping(v))
    ensures Agree(Compact(v), Substitute(docs, RowMapping(v)))
  {
    hide RowMapping, Compact, Substitute, RenumberStepwise, Downward, Moved;
    MappingMoves(v, docs);
    RenumberIsSubstitution(docs, RowMapping(v));
    forall r: RowId
      ensures var n := Substitute(docs, RowMapping(v));
        && (r in n <==> LiveAt(Compact(v), r))
        && (r in n ==> Mirrors(n[r], Compact(v)[r].rec))
    {
      SubstituteAgrees(v, docs, r);
    }
  }
}
