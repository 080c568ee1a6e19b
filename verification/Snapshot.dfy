// The resident search state and the frozen copy of it that answers while an index run owns
// the store: when the copy and the original give the same answer, and when they do not.

module Snapshot {
  import opened Wrappers
  import opened Records
  import opened StoreView
  import StoreDir
  import Crash
  import opened Store
  import opened Lexical
  import opened Agreement
  import opened Ranking
  import opened Dense
  import opened Fusion
  import opened Search

  datatype SymbolAnswer =
    | Symbol(file: string, name: string, language: string, signature: string, lineStart: nat, lineEnd: nat, body: string)
    | SymbolNotFound(file: string, name: string)
    | SymbolAmbiguous(file: string, name: string, candidates: seq<string>)

  function Describe(rec: ChunkRecord, body: string): SymbolAnswer {
    Symbol(rec.file, rec.symbol, rec.language, rec.signature, rec.lineStart, rec.lineEnd, body)
  }

  function Candidate(rec: ChunkRecord): string {
    rec.file + ":" + rec.signature
  }

  function CandidatesOf(v: View, rows: seq<RowId>): seq<string> {
    MapSeq(rows, (r: RowId) => if r < |v| then Candidate(v[r].rec) else "")
  }

  /** The live rows of `file` that carry `symbol`, ascending. */
  function WithSymbol(v: View, rows: seq<RowId>, symbol: string): seq<RowId> {
    if rows == [] then []
    else
      var last := rows[|rows| - 1];
      WithSymbol(v, rows[..|rows| - 1], symbol) + if LiveAt(v, last) && v[last].rec.symbol == symbol then [last] else []
  }

  function SymbolRows(v: View, file: string, symbol: string): seq<RowId> {
    WithSymbol(v, RowsForFile(v, file), symbol)
  }

  function BodyAt(docs: map<RowId, LexicalDoc>, row: RowId): string {
    if row in docs then docs[row].body else ""
  }

  /** What a symbol lookup answers, on the store and the index alone. */
  function SymbolSpec(v: View, docs: map<RowId, LexicalDoc>, file: string, symbol: string): SymbolAnswer {
    var rows := SymbolRows(v, file, symbol);
    if rows == [] then SymbolNotFound(file, symbol)
    else if |rows| == 1 && LiveAt(v, rows[0]) then Describe(v[rows[0]].rec, BodyAt(docs, rows[0]))
    else SymbolAmbiguous(file, symbol, CandidatesOf(v, rows))
  }

  predicate CarriesSymbol(v: View, r: RowId, file: string, symbol: string) {
    LiveAt(v, r) && v[r].rec.file == file && v[r].rec.symbol == symbol
  }

  /** Each of the rows that carry the symbol is named once. */
  ghost predicate NamesEach(v: View, file: string, symbol: string, rows: seq<RowId>, candidates: seq<string>) {
    && |rows| == |candidates| && AllDistinct(rows)
    && (forall r :: r in rows <==> CarriesSymbol(v, r, file, symbol))
    && forall i | 0 <= i < |rows| && rows[i] < |v| :: candidates[i] == v[rows[i]].rec.file + ":" + v[rows[i]].rec.signature
  }

  /** The answer is row `r`, the only one that carries the symbol: its record and its text. */
  ghost predicate IsTheRow(v: View, docs: map<RowId, LexicalDoc>, file: string, symbol: string, r: RowId, a: SymbolAnswer) {
    && a.Symbol? && CarriesSymbol(v, r, file, symbol) && (forall other | CarriesSymbol(v, other, file, symbol) :: other == r)
    && a.file == v[r].rec.file && a.name == v[r].rec.symbol && a.language == v[r].rec.language && a.signature == v[r].rec.signature
    && a.lineStart == v[r].rec.lineStart && a.lineEnd == v[r].rec.lineEnd && r in docs && a.body == docs[r].body
  }

  /** The lookup answers with the one live row of that file and symbol, its record and its text;
      without one it says so, and with several it names each of them once. */
  ghost predicate Finds(v: View, docs: map<RowId, LexicalDoc>, file: string, symbol: string, a: SymbolAnswer) {
    match a
    case SymbolNotFound(f, name) => f == file && name == symbol && forall r :: !CarriesSymbol(v, r, file, symbol)
    case Symbol(_, _, _, _, _, _, _) => exists r :: IsTheRow(v, docs, file, symbol, r, a)
    case SymbolAmbiguous(f, name, candidates) =>
      f == file && name == symbol && |candidates| > 1 && exists rows :: NamesEach(v, file, symbol, rows, candidates)
  }

  lemma FindsTheRow(v: View, docs: map<RowId, LexicalDoc>, file: string, symbol: string, r: RowId, a: SymbolAnswer)
    requires IsTheRow(v, docs, file, symbol, r, a)
    ensures Finds(v, docs, file, symbol, a)
  {
  }

  /** What a lookup makes of the rows that carry the symbol, in whatever order it finds them. */
  lemma LookupFinds(v: View, docs: map<RowId, LexicalDoc>, file: string, symbol: string, matches: seq<RowId>)
    requires Agree(v, docs) && AllDistinct(matches)
    requires forall r :: r in matches <==> LiveAt(v, r) && v[r].rec.file == file && v[r].rec.symbol == symbol
    ensures matches == [] ==> Finds(v, docs, file, symbol, SymbolNotFound(file, symbol))
    ensures |matches| == 1 ==> matches[0] < |v| && Finds(v, docs, file, symbol, Describe(v[matches[0]].rec, BodyAt(docs, matches[0])))
    ensures |matches| > 1 ==> Finds(v, docs, file, symbol, SymbolAmbiguous(file, symbol, CandidatesOf(v, matches)))
  {
    hide AllDistinct;
    forall i | 0 <= i < |matches|
      ensures matches[i] in matches && matches[i] < |v|
    {
      assert matches[i] in matches;
      assert LiveAt(v, matches[i]);
    }
    if |matches| == 1 {
      FindsTheRow(v, docs, file, symbol, matches[0], Describe(v[matches[0]].rec, BodyAt(docs, matches[0])));
    } else if |matches| > 1 {
      assert NamesEach(v, file, symbol, matches, CandidatesOf(v, matches));
    }
  }

  /** Equal, except that candidates may be listed in another order. */
  ghost predicate SameUpToOrder(a: SymbolAnswer, b: SymbolAnswer) {
    || a == b
    || (a.SymbolAmbiguous? && b.SymbolAmbiguous? && a.file == b.file && a.name == b.name
        && multiset(a.candidates) == multiset(b.candidates))
  }

  lemma {:induction false} WithSymbolMeaning(v: View, rows: seq<RowId>, symbol: string)
    requires Ascending(rows)
    ensures Ascending(WithSymbol(v, rows, symbol))
    ensures forall r :: r in WithSymbol(v, rows, symbol) <==> r in rows && LiveAt(v, r) && v[r].rec.symbol == symbol
  {
    if rows != [] {
      var last := |rows| - 1;
      WithSymbolMeaning(v, rows[..last], symbol);
      AscendingSnoc(WithSymbol(v, rows[..last], symbol), rows[last]);
      assert rows == rows[..last] + [rows[last]];
    }
  }

  lemma SymbolRowsMeaning(v: View, file: string, symbol: string)
    ensures AllDistinct(SymbolRows(v, file, symbol))
    ensures forall r :: r in SymbolRows(v, file, symbol) <==> LiveAt(v, r) && v[r].rec.file == file && v[r].rec.symbol == symbol
  {
    RowsForFileMeaning(v, file);
    WithSymbolMeaning(v, RowsForFile(v, file), symbol);
  }

  function Remove<T>(s: seq<T>, k: nat): seq<T>
    requires k < |s|
  {
    s[..k] + s[k + 1..]
  }

  lemma MapRemove<T, U>(s: seq<T>, k: nat, f: T -> U)
    requires k < |s|
    ensures multiset(s) == multiset(Remove(s, k)) + multiset{s[k]}
    ensures multiset(MapSeq(s, f)) == multiset(MapSeq(Remove(s, k), f)) + multiset{f(s[k])}
  {
    assert s == s[..k] + [s[k]] + s[k + 1..];
    assert MapSeq(s, f) == MapSeq(s[..k], f) + [f(s[k])] + MapSeq(s[k + 1..], f);
    assert MapSeq(Remove(s, k), f) == MapSeq(s[..k], f) + MapSeq(s[k + 1..], f);
  }

  lemma {:induction false} MapPermutation<T, U>(a: seq<T>, b: seq<T>, f: T -> U)
    requires multiset(a) == multiset(b)
    ensures |a| == |b|
    ensures multiset(MapSeq(a, f)) == multiset(MapSeq(b, f))
  {
    assert |multiset(a)| == |multiset(b)|;
    if a != [] {
      var last := |a| - 1;
      assert a[last] in multiset(b);
      var k :| 0 <= k < |b| && b[k] == a[last];
      MapRemove(a, last, f);
      MapRemove(b, k, f);
      assert multiset(Remove(a, last)) == multiset(a) - multiset{a[last]} == multiset(Remove(b, k));
      MapPermutation(Remove(a, last), Remove(b, k), f);
    }
  }

  function LiveRecords(v: View): map<RowId, ChunkRecord> {
    map r: RowId | r < |v| && v[r].live :: v[r].rec
  }

  function LiveBodies(v: View, docs: map<RowId, LexicalDoc>): map<RowId, string> {
    map r: RowId | r < |v| && v[r].live && r in docs :: docs[r].body
  }

  lemma FrozenLengths(v: View)
    ensures |MaskOf(v)| == |v|
  {
  }

  lemma SameCandidates(v: View, a: seq<RowId>, b: seq<RowId>)
    requires multiset(a) == multiset(b)
    ensures |a| == |b|
    ensures |a| == 1 ==> a == b
    ensures multiset(CandidatesOf(v, a)) == multiset(CandidatesOf(v, b))
  {
    assert |multiset(a)| == |multiset(b)|;
    if |a| == 1 {
      assert a[0] in multiset(b);
    }
    MapPermutation(a, b, (r: RowId) => if r < |v| then Candidate(v[r].rec) else "");
  }

  /** What the daemon tells a client whose search failed. */
  datatype SearchFailure = NoGpu(detail: string) | Internal(detail: string)

  function Decimal(n: nat): string {
    (if n < 10 then "" else Decimal(n / 10)) + ["0123456789"[n % 10]]
  }

  function InferMessage(e: InferError): string {
    match e
    case GpuUnavailable(detail) => "GPU unavailable: " + detail
    case OtherInference(detail) => detail
  }

  function Message(e: RetrievalError): string {
    match e
    case Inference(cause) => "inference error: " + InferMessage(cause)
    case Tantivy(detail) => "tantivy error: " + detail
    case DimensionMismatch(expected, got) =>
      "embedding dimension mismatch: expected " + Decimal(expected) + ", got " + Decimal(got)
    case ModelMismatch(expected, got) => "model identity mismatch: expected " + expected + ", got " + got
    case DenseError(detail) => "dense index error: " + detail
    case NonFiniteScore(row) => "dense index error: non-finite score for row " + Decimal(row)
    case BothRetrieversFailed(lexical, dense) => "both retrievers failed: lexical=" + Message(lexical) + "; dense=" + Message(dense)
  }

  /** How the copy reports an embedder's failure. */
  function MapInferError(e: InferError): SearchFailure {
    match e
    case GpuUnavailable(detail) => NoGpu(detail)
    case OtherInference(detail) => Internal(InferMessage(e))
  }

  /** How the original reports any failure of a search. */
  function MapRetrievalError(e: RetrievalError): SearchFailure {
    match e
    case Inference(GpuUnavailable(detail)) => NoGpu(detail)
    case _ => Internal(Message(e))
  }

  function Reported(r: Result<SearchResponse, RetrievalError>): Result<SearchResponse, SearchFailure> {
    match r
    case Ok(response) => Ok(response)
    case Err(e) => Err(MapRetrievalError(e))
  }

  /** A search of the original, as its client sees it. */
  ghost function ResidentSpec(engine: Engine, v: View, docs: map<RowId, LexicalDoc>, dims: nat, model: string,
                              text: string, topK: nat, config: FusionConfig, role: Role, runLexical: bool):
      Result<SearchResponse, SearchFailure>
    requires Sane(config)
  {
    Reported(RunSpec(engine, v, docs, dims, model, text, topK, config, role, runLexical))
  }

  /** A search of the frozen copy: it always runs the lexical path, and it answers even when
      both retrievers fail. */
  ghost function FrozenSpec(engine: Engine, v: View, docs: map<RowId, LexicalDoc>, dims: nat, model: string,
                            text: string, topK: nat, config: FusionConfig, role: Role):
      Result<SearchResponse, SearchFailure>
    requires Sane(config)
  {
    var embedded := engine.embed(text, role);
    if embedded.Err? then Err(MapInferError(embedded.error))
    else
      var lexical := LexicalAnswer(engine, docs, |v|, text, config.lexicalDepth);
      var dense := SearchSpec(VectorsOf(v), MaskOf(v), dims, model, embedded.value, engine.modelId, config.denseDepth, engine.similarity);
      var fused := FusionOf(config, RowsOrNone(lexical), RowsOrNone(dense));
      Ok(SearchResponse(Assemble(v, docs, Take(fused, topK)), ErrorOf(lexical), ErrorOf(dense)))
  }

  class FrozenSearch {
    const dense: DenseIndex
    const lexical: seq<seq<Posting>>
    const records: map<RowId, ChunkRecord>
    const bodies: map<RowId, string>
    const chunksLive: nat
    const indexedCommit: Option<string>

    constructor (dense: DenseIndex, lexical: seq<seq<Posting>>, records: map<RowId, ChunkRecord>, bodies: map<RowId, string>,
                 chunksLive: nat, indexedCommit: Option<string>)
      ensures this.dense == dense && this.lexical == lexical && this.records == records && this.bodies == bodies
      ensures this.chunksLive == chunksLive && this.indexedCommit == indexedCommit
    {
      this.dense, this.lexical := dense, lexical;
      this.records, this.bodies := records, bodies;
      this.chunksLive, this.indexedCommit := chunksLive, indexedCommit;
    }

    /** This is a copy of the store view `v` and the documents `docs`. It reads neither the
        store nor the index, so it stays one whatever an index run does to them. */
    ghost predicate Freezes(v: View, docs: map<RowId, LexicalDoc>)
      reads dense
    {
      && Agree(v, docs) && Represents(Concat(lexical), docs)
      && dense.PreparedFrom(VectorsOf(v), MaskOf(v))
      && records == LiveRecords(v) && bodies == LiveBodies(v, docs)
    }

    method AssembleFrozen(selected: seq<FusedRow>, ghost v: View, ghost docs: map<RowId, LexicalDoc>) returns (results: seq<SearchResult>)
      requires records == LiveRecords(v) && bodies == LiveBodies(v, docs)
      ensures results == Assemble(v, docs, selected)
    {
      results := [];
      for i := 0 to |selected|
        invariant results == Assemble(v, docs, selected[..i])
      {
        assert selected[..i + 1][..i] == selected[..i];
        var row := selected[i].row;
        if row in records {
          var body := if row in bodies then bodies[row] else "";
          results := results + [Render(records[row], body, selected[i])];
        }
      }
      assert selected[..|selected|] == selected;
    }

    method SearchWithParts(engine: Engine, text: string, topK: nat, config: FusionConfig, role: Role,
                           ghost v: View, ghost docs: map<RowId, LexicalDoc>)
        returns (r: Result<SearchResponse, SearchFailure>)
      requires Sane(config) && Freezes(v, docs)
      ensures r == FrozenSpec(engine, v, docs, dense.dims, dense.modelId, text, topK, config, role)
    {
      var embedded := engine.embed(text, role);
      if embedded.Err? {
        return Err(MapInferError(embedded.error));
      }
      FrozenLengths(v);
      var found := SearchLexical(engine, docs, lexical, |dense.live|, text, config.lexicalDepth);
      var near := dense.Search(embedded.value, engine.modelId, config.denseDepth, engine.similarity, VectorsOf(v));
      var fused := Fuse(RowsOrNone(found), RowsOrNone(near), config);
      FusionUnique(config, Take(RowsOrNone(found), config.lexicalDepth), Take(RowsOrNone(near), config.denseDepth),
        fused, FusionOf(config, RowsOrNone(found), RowsOrNone(near)));
      var results := AssembleFrozen(Take(fused, topK), v, docs);
      return Ok(SearchResponse(results, ErrorOf(found), ErrorOf(near)));
    }

    method Search(engine: Engine, query: string, topK: nat, config: FusionConfig, ghost v: View, ghost docs: map<RowId, LexicalDoc>)
        returns (r: Result<SearchResponse, SearchFailure>)
      requires Sane(config) && Freezes(v, docs)
      ensures r == FrozenSpec(engine, v, docs, dense.dims, dense.modelId, query, topK, config, Query)
    {
      r := SearchWithParts(engine, query, topK, config, Query, v, docs);
    }

    method SearchSimilar(engine: Engine, code: string, topK: nat, config: FusionConfig, ghost v: View, ghost docs: map<RowId, LexicalDoc>)
        returns (r: Result<SearchResponse, SearchFailure>)
      requires Sane(config) && Freezes(v, docs)
      ensures r == FrozenSpec(engine, v, docs, dense.dims, dense.modelId, code, topK, config, Document)
    {
      r := SearchWithParts(engine, code, topK, config, Document, v, docs);
    }

    lemma RecordsAt(v: View, matches: seq<RowId>, row: RowId)
      requires records == LiveRecords(v) && row in matches
      requires forall r :: r in matches ==> LiveAt(v, r)
      ensures row in records && records[row] == v[row].rec
      ensures forall r | r in matches :: r in records && records[r] == v[r].rec
    {
    }

    method MatchingRows(file: string, symbol: string, ghost v: View) returns (matches: seq<RowId>)
      requires records == LiveRecords(v)
      ensures AllDistinct(matches)
      ensures forall r :: r in matches <==> LiveAt(v, r) && v[r].rec.file == file && v[r].rec.symbol == symbol
    {
      matches := [];
      var left := records.Keys;
      while left != {}
        invariant left <= records.Keys && AllDistinct(matches)
        invariant forall r :: r in matches <==> r in records && r !in left && records[r].file == file && records[r].symbol == symbol
        decreases left
      {
        var r :| r in left;
        left := left - {r};
        if records[r].file == file && records[r].symbol == symbol {
          matches := matches + [r];
        }
      }
    }

    /** Filters a hash map, so the matches come in no particular order. */
    method GetSymbol(file: string, symbol: string, ghost v: View, ghost docs: map<RowId, LexicalDoc>) returns (a: SymbolAnswer)
      requires Freezes(v, docs)
      ensures SameUpToOrder(a, SymbolSpec(v, docs, file, symbol)) && Finds(v, docs, file, symbol, a)
    {
      hide Agree, Represents, SymbolRows, AllDistinct, Finds;
      var matches := MatchingRows(file, symbol, v);
      ghost var rows := SymbolRows(v, file, symbol);
      SymbolRowsMeaning(v, file, symbol);
      SameElements(matches, rows);
      SameCandidates(v, matches, rows);
      LookupFinds(v, docs, file, symbol, matches);
      if matches == [] {
        return SymbolNotFound(file, symbol);
      }
      RecordsAt(v, matches, matches[0]);
      if |matches| == 1 {
        var row := matches[0];
        return Describe(records[row], if row in bodies then bodies[row] else "");
      }
      var candidates := seq(|matches|, i requires 0 <= i < |matches| => if matches[i] in records then Candidate(records[matches[i]]) else "");
      assert candidates == CandidatesOf(v, matches);
      return SymbolAmbiguous(file, symbol, candidates);
    }
  }

  // ---------- The resident state ----------

  ghost predicate Copied(v: View, docs: map<RowId, LexicalDoc>, rows: seq<RowId>,
                         records: map<RowId, ChunkRecord>, bodies: map<RowId, string>) {
    && (forall r :: r in records <==> r in rows)
    && (forall r | r in records :: LiveAt(v, r) && records[r] == v[r].rec)
    && (forall r :: r in bodies <==> r in rows && r in docs)
    && (forall r | r in bodies :: bodies[r] == docs[r].body)
  }

  lemma CopiedNone(v: View, docs: map<RowId, LexicalDoc>)
    ensures Copied(v, docs, [], map[], map[])
  {
  }

  lemma CopiedOne(v: View, docs: map<RowId, LexicalDoc>, rows: seq<RowId>, row: RowId,
                  records: map<RowId, ChunkRecord>, bodies: map<RowId, string>)
    requires Copied(v, docs, rows, records, bodies) && LiveAt(v, row)
    ensures Copied(v, docs, rows + [row], records[row := v[row].rec], if row in docs then bodies[row := docs[row].body] else bodies)
  {
  }

  lemma CopiedAll(v: View, docs: map<RowId, LexicalDoc>, records: map<RowId, ChunkRecord>, bodies: map<RowId, string>)
    requires Copied(v, docs, LiveRows(v), records, bodies)
    ensures records == LiveRecords(v) && bodies == LiveBodies(v, docs)
  {
    LiveRowsMeaning(v);
  }

  lemma OneSegment(ps: seq<Posting>)
    ensures Concat([ps]) == ps
  {
    assert [ps][..0] == [];
  }

  class Resident {
    const store: ChunkStore
    const lexical: LexicalIndex
    const dense: DenseIndex

    constructor (store: ChunkStore, lexical: LexicalIndex, dense: DenseIndex)
      ensures this.store == store && this.lexical == lexical && this.dense == dense
    {
      this.store, this.lexical, this.dense := store, lexical, dense;
    }

    ghost predicate Valid()
      reads store, lexical, dense
    {
      && store.Valid() && lexical.Valid() && lexical.pending == []
      && Agree(store.View(), lexical.Docs())
      && dense.PreparedFrom(VectorsOf(store.View()), MaskOf(store.View()))
    }

    method Search(engine: Engine, query: string, topK: nat, config: FusionConfig) returns (r: Result<SearchResponse, SearchFailure>)
      requires Sane(config) && Valid()
      ensures r == ResidentSpec(engine, store.View(), lexical.Docs(), dense.dims, dense.modelId, query, topK, config, Query, true)
    {
      OneSegment(lexical.committed);
      var found := Run(engine, store.View(), lexical.Docs(), [lexical.committed], dense, query, topK, config, Query, true);
      return Reported(found);
    }

    method SearchSimilar(engine: Engine, code: string, topK: nat, config: FusionConfig) returns (r: Result<SearchResponse, SearchFailure>)
      requires Sane(config) && Valid()
      ensures r == ResidentSpec(engine, store.View(), lexical.Docs(), dense.dims, dense.modelId, code, topK, config, Document, false)
    {
      OneSegment(lexical.committed);
      var found := Run(engine, store.View(), lexical.Docs(), [lexical.committed], dense, code, topK, config, Document, false);
      return Reported(found);
    }

    method GetSymbol(file: string, symbol: string) returns (a: SymbolAnswer)
      requires Valid()
      ensures a == SymbolSpec(store.View(), lexical.Docs(), file, symbol) && Finds(store.View(), lexical.Docs(), file, symbol, a)
    {
      hide Agree, Represents, AllDistinct, Finds;
      var v := store.View();
      var rows := RowsForFile(v, file);
      var matches: seq<RowId> := [];
      for i := 0 to |rows|
        invariant matches == WithSymbol(v, rows[..i], symbol)
      {
        assert rows[..i + 1][..i] == rows[..i];
        if LiveAt(v, rows[i]) && v[rows[i]].rec.symbol == symbol {
          matches := matches + [rows[i]];
        }
      }
      assert rows[..|rows|] == rows;
      SymbolRowsMeaning(v, file, symbol);
      LookupFinds(v, lexical.Docs(), file, symbol, matches);
      if matches == [] {
        return SymbolNotFound(file, symbol);
      }
      if |matches| == 1 {
        var row := matches[0];
        assert row in SymbolRows(v, file, symbol);
        RepresentsLookup(lexical.committed, lexical.Docs(), row);
        var document := FirstDoc(lexical.committed, row);
        return Describe(v[row].rec, if document.Some? then document.value.body else "");
      }
      return SymbolAmbiguous(file, symbol, CandidatesOf(v, matches));
    }

    method CopyRows(rows: seq<RowId>) returns (records: map<RowId, ChunkRecord>, bodies: map<RowId, string>)
      requires Valid() && rows == LiveRows(store.View())
      ensures records == LiveRecords(store.View()) && bodies == LiveBodies(store.View(), lexical.Docs())
    {
      hide Agree, Represents, LiveRecords, LiveBodies, Copied;
      var v := store.View();
      ghost var docs := lexical.Docs();
      records, bodies := map[], map[];
      CopiedNone(v, docs);
      assert rows[..0] == [];
      for i := 0 to |rows|
        invariant Copied(v, docs, rows[..i], records, bodies)
      {
        var row := rows[i];
        LiveRowsMeaning(v);
        assert row in rows && LiveAt(v, row);
        assert rows[..i + 1] == rows[..i] + [row];
        CopiedOne(v, docs, rows[..i], row, records, bodies);
        RepresentsLookup(lexical.committed, docs, row);
        var document := FirstDoc(lexical.committed, row);
        if document.Some? {
          bodies := bodies[row := document.value.body];
        }
        records := records[row := v[row].rec];
      }
      assert rows[..|rows|] == rows;
      CopiedAll(v, docs, records, bodies);
    }

    /** Copies every live row's record and body, and keeps the dense index and the lexical
        reader: what the copy freezes is the resident state at this moment. */
    method SplitForIndex(commit: Option<string>) returns (frozen: FrozenSearch)
      requires Valid()
      ensures fresh(frozen) && frozen.Freezes(store.View(), lexical.Docs()) && frozen.dense == dense
      ensures frozen.chunksLive == LiveCount(store.View()) && frozen.indexedCommit == commit
    {
      hide Agree, Represents, LiveRecords, LiveBodies;
      var rows := LiveRows(store.View());
      var records, bodies := CopyRows(rows);
      OneSegment(lexical.committed);
      frozen := new FrozenSearch(dense, [lexical.committed], records, bodies, |rows|, commit);
    }
  }

  lemma UniformWidth(c: Crash.Contents)
    requires Crash.Uniform(c)
    ensures AllWidth(VectorsOf(c.view), c.dims) && |VectorsOf(c.view)| == |MaskOf(c.view)| == |c.view|
  {
  }

  /** Puts a store and an index back into service: a dense index is prepared from the store's
      matrix and live mask, and refreshed against them. On a valid store neither is refused. */
  method RebuildResident(store: ChunkStore, lexical: LexicalIndex) returns (resident: Resident)
    requires store.Valid() && lexical.Valid() && lexical.pending == [] && Agree(store.View(), lexical.Docs())
    requires store.Contents().dims > 0
    ensures fresh(resident) && fresh(resident.dense) && resident.Valid()
    ensures resident.store == store && resident.lexical == lexical
    ensures resident.dense.dims == store.Contents().dims && resident.dense.modelId == store.Contents().modelId
  {
    hide Agree, StoreDir.Consistent, StoreDir.ViewOf, Flatten, Represents, AsMap, CarryAll;
    var v, dims, model := store.View(), store.Contents().dims, store.Contents().modelId;
    var vectors, mask := VectorsOf(v), MaskOf(v);
    UniformWidth(store.Contents());
    FlattenLength(vectors, dims);
    var slice := Flatten(vectors);
    var prepared := DenseIndex.PrepareSlice(slice, |v|, dims, model, mask);
    var dense := prepared.value;
    var error := dense.Refresh(slice, |v|, dims, model, mask, vectors, vectors);
    assert error.None?;
    resident := new Resident(store, lexical, dense);
  }

  // ---------- When the copy answers as the original ----------

  ghost predicate BothFail(engine: Engine, v: View, docs: map<RowId, LexicalDoc>, dims: nat, model: string,
                           text: string, config: FusionConfig, role: Role) {
    && engine.embed(text, role).Ok?
    && LexicalAnswer(engine, docs, |v|, text, config.lexicalDepth).Err?
    && SearchSpec(VectorsOf(v), MaskOf(v), dims, model, engine.embed(text, role).value, engine.modelId,
         config.denseDepth, engine.similarity).Err?
  }

  lemma FuseNothing(config: FusionConfig, fused: seq<FusedRow>)
    requires Sane(config) && IsFusion(config, [], [], fused)
    ensures fused == []
  {
    FusionUnique(config, [], [], fused, []);
  }

  /** The embedding succeeds, or fails in the one way that copy and original report alike. */
  predicate EmbedsAlike(engine: Engine, text: string, role: Role) {
    engine.embed(text, role).Ok? || engine.embed(text, role).error.GpuUnavailable?
  }

  lemma InferReportsDiffer(e: InferError)
    ensures MapInferError(e) == MapRetrievalError(Inference(e)) <==> e.GpuUnavailable?
  {
    if e.OtherInference? {
      assert |Message(Inference(e))| == |"inference error: "| + |e.detail|;
    }
  }

  /** A query gets the same response from the copy as from the original exactly when not both
      retrievers fail, and the embedding succeeds or fails for want of a GPU. When both
      retrievers fail the original refuses and the copy answers with no results. */
  lemma FrozenSearchIff(engine: Engine, v: View, docs: map<RowId, LexicalDoc>, dims: nat, model: string,
                        text: string, topK: nat, config: FusionConfig)
    requires Sane(config)
    ensures FrozenSpec(engine, v, docs, dims, model, text, topK, config, Query)
        == ResidentSpec(engine, v, docs, dims, model, text, topK, config, Query, true)
      <==> !BothFail(engine, v, docs, dims, model, text, config, Query) && EmbedsAlike(engine, text, Query)
    ensures BothFail(engine, v, docs, dims, model, text, config, Query) ==>
      FrozenSpec(engine, v, docs, dims, model, text, topK, config, Query).Ok?
    ensures BothFail(engine, v, docs, dims, model, text, config, Query) ==>
      FrozenSpec(engine, v, docs, dims, model, text, topK, config, Query).value.results == []
  {
    hide LexicalAnswer, SearchSpec, Message, IsFusion;
    if BothFail(engine, v, docs, dims, model, text, config, Query) {
      FuseNothing(config, FusionOf(config, [], []));
    }
    if engine.embed(text, Query).Err? {
      InferReportsDiffer(engine.embed(text, Query).error);
    }
  }

  /** An engine whose lexical search fails and whose similarities are not finite. */
  function BrokenEngine(vec: Vector): Engine {
    Engine("m", (text: string, role: Role) => Ok(vec), (text: string) => Some("segment missing"),
      (text: string, corpus: multiset<LexicalDoc>, doc: LexicalDoc) => None, (a: Vector, b: Vector) => NonFinite)
  }

  /** Over one row, the original refuses and the copy answers. */
  lemma BothFailExists(rec: ChunkRecord, doc: LexicalDoc, value: Half, text: string, topK: nat)
    requires Mirrors(doc, rec)
    ensures var v, docs, engine := [StoredRow(rec, true, [value])], map[0 := doc], BrokenEngine([value]);
      && Agree(v, docs) && AllWidth(VectorsOf(v), 1)
      && BothFail(engine, v, docs, 1, "m", text, DEFAULT_CONFIG, Query)
      && ResidentSpec(engine, v, docs, 1, "m", text, topK, DEFAULT_CONFIG, Query, true).Err?
      && FrozenSpec(engine, v, docs, 1, "m", text, topK, DEFAULT_CONFIG, Query).Ok?
  {
    var v, docs, engine := [StoredRow(rec, true, [value])], map[0 := doc], BrokenEngine([value]);
    var scores := ScoreAll(VectorsOf(v), [value], engine.similarity);
    assert scores[..0] == [] && FirstBad(scores[..0], MaskOf(v)).None?;
    assert FirstBad(scores, MaskOf(v)) == Some(0);
    FrozenSearchIff(engine, v, docs, 1, "m", text, topK, DEFAULT_CONFIG);
  }

  /** An engine whose embedder fails. */
  function MuteEngine(detail: string): Engine {
    Engine("m", (text: string, role: Role) => Err(OtherInference(detail)), (text: string) => None,
      (text: string, corpus: multiset<LexicalDoc>, doc: LexicalDoc) => None, (a: Vector, b: Vector) => Finite(0.0))
  }

  /** A failure of the tokenizer, say, reaches the client in two wordings. */
  lemma WordingDiffers(v: View, docs: map<RowId, LexicalDoc>, dims: nat, detail: string, text: string, topK: nat)
    ensures FrozenSpec(MuteEngine(detail), v, docs, dims, "m", text, topK, DEFAULT_CONFIG, Query) == Err(Internal(detail))
    ensures ResidentSpec(MuteEngine(detail), v, docs, dims, "m", text, topK, DEFAULT_CONFIG, Query, true)
      == Err(Internal("inference error: " + detail))
  {
  }

  // ---------- Similar code ----------

  /** Results with a lexical score come only from fused rows with one. */
  lemma {:induction false} AssembleScores(v: View, docs: map<RowId, LexicalDoc>, fused: seq<FusedRow>)
    requires forall x | x in fused :: x.lexical.score.None?
    ensures forall r | r in Assemble(v, docs, fused) :: r.lexicalScore.None?
  {
    if fused != [] {
      assert forall x | x in fused[..|fused| - 1] :: x in fused;
      AssembleScores(v, docs, fused[..|fused| - 1]);
    }
  }

  lemma DenseOnlyScores(config: FusionConfig, dense: seq<Scored>)
    requires Sane(config)
    ensures forall x | x in FusionOf(config, [], dense) :: x.lexical.score.None?
  {
    var fused := FusionOf(config, [], dense);
    forall x | x in fused
      ensures x.lexical.score.None?
    {
      FusionElement(config, [], Take(dense, config.denseDepth), fused, x);
    }
  }

  lemma FirstLexicalFused(config: FusionConfig, lexical: seq<Scored>, dense: seq<Scored>) returns (i: nat)
    requires Sane(config) && Take(lexical, config.lexicalDepth) != []
    ensures i < |FusionOf(config, lexical, dense)| && FusionOf(config, lexical, dense)[i].lexical.score.Some?
  {
    var l := Take(lexical, config.lexicalDepth);
    var fused := FusionOf(config, lexical, dense);
    RankOfMeaning(l, l[0].row);
    assert RankOf(l, l[0].row) > 0;
    i :| 0 <= i < |fused| && fused[i].row == l[0].row;
    FusionElement(config, l, Take(dense, config.denseDepth), fused, fused[i]);
  }

  ghost predicate SimilarAlwaysSame(engine: Engine, v: View, docs: map<RowId, LexicalDoc>, dims: nat, model: string,
                                    code: string, config: FusionConfig)
    requires Sane(config)
  {
    forall topK: nat ::
      FrozenSpec(engine, v, docs, dims, model, code, topK, config, Document)
      == ResidentSpec(engine, v, docs, dims, model, code, topK, config, Document, false)
  }

  lemma LexicalWithin(engine: Engine, docs: map<RowId, LexicalDoc>, n: nat, text: string, depth: nat)
    requires LexicalAnswer(engine, docs, n, text, depth).Ok?
    ensures Take(LexicalAnswer(engine, docs, n, text, depth).value, depth) == LexicalAnswer(engine, docs, n, text, depth).value
  {
    TopLength(MatchesBelow(docs, ScoreIn(engine, CorpusBelow(docs, n), text), n), depth, Identity);
  }

  lemma SimilarDiffers(engine: Engine, v: View, docs: map<RowId, LexicalDoc>, dims: nat, model: string,
                       code: string, config: FusionConfig) returns (topK: nat)
    requires Sane(config) && Agree(v, docs) && engine.embed(code, Document).Ok?
    requires LexicalAnswer(engine, docs, |v|, code, config.lexicalDepth).Ok?
    requires LexicalAnswer(engine, docs, |v|, code, config.lexicalDepth).value != []
    ensures FrozenSpec(engine, v, docs, dims, model, code, topK, config, Document)
      != ResidentSpec(engine, v, docs, dims, model, code, topK, config, Document, false)
  {
    hide Agree, LexicalAnswer, SearchSpec, Assemble, IsFusion, Message;
    var query := engine.embed(code, Document).value;
    var lexical := LexicalAnswer(engine, docs, |v|, code, config.lexicalDepth).value;
    var dense := RowsOrNone(SearchSpec(VectorsOf(v), MaskOf(v), dims, model, query, engine.modelId, config.denseDepth, engine.similarity));
    LexicalWithin(engine, docs, |v|, code, config.lexicalDepth);
    var i := FirstLexicalFused(config, lexical, dense);
    topK := |FusionOf(config, lexical, dense)|;
    AnswersLive(engine, v, docs, dims, model, code, config, query);
    FusedLive(v, config, lexical, dense);
    AssembleLive(v, docs, FusionOf(config, lexical, dense));
    var without := Take(FusionOf(config, [], dense), topK);
    DenseOnlyScores(config, dense);
    AssembleScores(v, docs, without);
    assert Assemble(v, docs, FusionOf(config, lexical, dense))[i] !in Assemble(v, docs, without);
  }

  /** Similar-code search agrees at every `topK` exactly when the lexical path, which only the
      copy runs, contributes nothing (it succeeds and keeps no row), or when the embedding fails
      for want of a GPU. */
  lemma FrozenSimilarIff(engine: Engine, v: View, docs: map<RowId, LexicalDoc>, dims: nat, model: string,
                         code: string, config: FusionConfig)
    requires Sane(config) && Agree(v, docs)
    ensures SimilarAlwaysSame(engine, v, docs, dims, model, code, config)
      <==> if engine.embed(code, Document).Err? then engine.embed(code, Document).error.GpuUnavailable?
           else LexicalAnswer(engine, docs, |v|, code, config.lexicalDepth) == Ok([])
  {
    hide Agree, LexicalAnswer, SearchSpec, Assemble, IsFusion, Message;
    var embedded := engine.embed(code, Document);
    if embedded.Err? {
      InferReportsDiffer(embedded.error);
      assert FrozenSpec(engine, v, docs, dims, model, code, 0, config, Document) == Err(MapInferError(embedded.error));
    } else {
      var lexical := LexicalAnswer(engine, docs, |v|, code, config.lexicalDepth);
      if lexical.Ok? && lexical.value != [] {
        var topK := SimilarDiffers(engine, v, docs, dims, model, code, config);
      } else if lexical.Err? {
        assert FrozenSpec(engine, v, docs, dims, model, code, 0, config, Document)
          != ResidentSpec(engine, v, docs, dims, model, code, 0, config, Document, false);
      }
    }
  }

  /** An engine that matches every document. */
  function EagerEngine(vec: Vector): Engine {
    Engine("m", (text: string, role: Role) => Ok(vec), (text: string) => None,
      (text: string, corpus: multiset<LexicalDoc>, doc: LexicalDoc) => Some(1.0), (a: Vector, b: Vector) => Finite(1.0))
  }

  /** One row that the lexical path finds: some similar-code search differs. */
  lemma SimilarDiffersExists(rec: ChunkRecord, doc: LexicalDoc, value: Half, code: string)
    requires Mirrors(doc, rec)
    ensures var v, docs, engine := [StoredRow(rec, true, [value])], map[0 := doc], EagerEngine([value]);
      && Agree(v, docs) && AllWidth(VectorsOf(v), 1)
      && !SimilarAlwaysSame(engine, v, docs, 1, "m", code, DEFAULT_CONFIG)
  {
    hide SimilarAlwaysSame, SearchSpec, Top, Rank, ResidentSpec, FrozenSpec;
    var v, docs, engine := [StoredRow(rec, true, [value])], map[0 := doc], EagerEngine([value]);
    var matches := MatchesBelow(docs, ScoreIn(engine, CorpusBelow(docs, 1), code), 1);
    assert MatchesBelow(docs, ScoreIn(engine, CorpusBelow(docs, 1), code), 0) == [];
    assert matches == [Scored(0, 1.0)];
    TopLength(matches, DEFAULT_CONFIG.lexicalDepth, Identity);
    FrozenSimilarIff(engine, v, docs, 1, "m", code, DEFAULT_CONFIG);
  }
}
