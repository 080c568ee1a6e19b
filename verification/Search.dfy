// Fused search over a store and its two indexes, and why a compaction cannot be seen through it.

module Search {
  import opened Wrappers
  import opened Records
  import opened Bytes
  import opened StoreView
  import opened Lexical
  import opened Agreement
  import opened Ranking
  import opened Dense
  import opened Fusion

  // ---------- The lexical retriever ----------

  lemma TopSnocRanked(s: seq<Scored>, c: Scored, n: nat)
    ensures Top(s + [c], n, Identity) == Take(InsertRanked(Top(s, n, Identity), c, Identity), n)
  {
    RankMeaning(s, Identity);
    assert (s + [c])[..|s|] == s;
    TakeInsert(Rank(s, Identity), c, n, Identity);
  }

  /** Tantivy's top-N computer: the best `limit` of everything pushed. */
  class TopNComputer {
    const limit: nat
    ghost var pushed: seq<Scored>
    var kept: seq<Scored>

    ghost predicate Valid()
      reads this
    {
      kept == Top(pushed, limit, Identity)
    }

    constructor (limit: nat)
      ensures Valid() && pushed == [] && this.limit == limit
    {
      this.limit := limit;
      pushed, kept := [], [];
    }

    method Push(c: Scored)
      requires Valid()
      modifies this
      ensures Valid() && pushed == old(pushed) + [c]
    {
      TopSnocRanked(pushed, c, limit);
      kept := Take(InsertRanked(kept, c, Identity), limit);
      pushed := pushed + [c];
    }

    method PushAll(fruit: seq<Scored>)
      requires Valid()
      modifies this
      ensures Valid() && pushed == old(pushed) + fruit
    {
      for j := 0 to |fruit|
        invariant Valid() && pushed == old(pushed) + fruit[..j]
      {
        Push(fruit[j]);
      }
      assert fruit[..|fruit|] == fruit;
    }
  }

  /** The postings a query matches, scored. `score` is None for a document it does not match. */
  function Matches(ps: seq<Posting>, score: LexicalDoc -> Option<real>): seq<Scored> {
    if ps == [] then []
    else
      var last := ps[|ps| - 1];
      Matches(ps[..|ps| - 1], score) + if score(last.doc).Some? then [Scored(last.row, score(last.doc).value)] else []
  }

  function MatchesOfEach(segments: seq<seq<Posting>>, score: LexicalDoc -> Option<real>): seq<seq<Scored>> {
    seq(|segments|, i requires 0 <= i < |segments| => Matches(segments[i], score))
  }

  lemma {:induction false} MatchesConcat(a: seq<Posting>, b: seq<Posting>, score: LexicalDoc -> Option<real>)
    ensures Matches(a + b, score) == Matches(a, score) + Matches(b, score)
  {
    if b == [] {
      assert a + b == a;
    } else {
      assert (a + b)[..|a + b| - 1] == a + b[..|b| - 1];
      MatchesConcat(a, b[..|b| - 1], score);
    }
  }

  lemma {:induction false} MatchesOfSegments(segments: seq<seq<Posting>>, score: LexicalDoc -> Option<real>)
    ensures Concat(MatchesOfEach(segments, score)) == Matches(Concat(segments), score)
  {
    if segments != [] {
      var last := |segments| - 1;
      MatchesOfSegments(segments[..last], score);
      assert MatchesOfEach(segments, score)[..last] == MatchesOfEach(segments[..last], score);
      MatchesConcat(Concat(segments[..last]), segments[last], score);
    }
  }

  /** One segment: every matching document is pushed, then the best are harvested. */
  method CollectSegment(segment: seq<Posting>, score: LexicalDoc -> Option<real>, limit: nat) returns (fruit: seq<Scored>)
    ensures fruit == Top(Matches(segment, score), limit, Identity)
  {
    var top := new TopNComputer(limit);
    for i := 0 to |segment|
      invariant top.Valid() && top.limit == limit && top.pushed == Matches(segment[..i], score)
    {
      assert segment[..i + 1][..i] == segment[..i];
      var found := score(segment[i].doc);
      if found.Some? {
        top.Push(Scored(segment[i].row, found.value));
      }
    }
    assert segment[..|segment|] == segment;
    fruit := top.kept;
  }

  /** Per-segment collection and the merge of its fruits: the best of all documents. */
  method CollectAll(segments: seq<seq<Posting>>, score: LexicalDoc -> Option<real>, limit: nat) returns (rows: seq<Scored>)
    ensures rows == Top(Matches(Concat(segments), score), limit, Identity)
  {
    hide Matches, Rank;
    var top := new TopNComputer(limit);
    ghost var parts := MatchesOfEach(segments, score);
    for i := 0 to |segments|
      invariant top.Valid() && top.limit == limit && top.pushed == Concat(TopOfEach(parts[..i], limit, Identity))
    {
      var fruit := CollectSegment(segments[i], score, limit);
      assert TopOfEach(parts[..i + 1], limit, Identity)[..i] == TopOfEach(parts[..i], limit, Identity);
      top.PushAll(fruit);
    }
    assert parts[..|segments|] == parts;
    TopOfParts(parts, limit, Identity);
    MatchesOfSegments(segments, score);
    rows := top.kept;
  }

  /** The matches in row order, for the rows below `n`. */
  function MatchesBelow(docs: map<RowId, LexicalDoc>, score: LexicalDoc -> Option<real>, n: nat): seq<Scored> {
    if n == 0 then []
    else
      MatchesBelow(docs, score, n - 1)
      + if n - 1 in docs && score(docs[n - 1]).Some? then [Scored(n - 1, score(docs[n - 1]).value)] else []
  }

  lemma {:induction false} MatchesMeaning(ps: seq<Posting>, docs: map<RowId, LexicalDoc>, score: LexicalDoc -> Option<real>)
    requires Represents(ps, docs)
    ensures forall x :: x in Matches(ps, score) <==> x.row in docs && score(docs[x.row]) == Some(x.score)
    ensures AllDistinct(Matches(ps, score))
  {
    if ps != [] {
      var last := ps[|ps| - 1];
      MatchesMeaning(ps[..|ps| - 1], docs - {last.row}, score);
    }
  }

  lemma {:induction false} MatchesBelowMeaning(docs: map<RowId, LexicalDoc>, score: LexicalDoc -> Option<real>, n: nat)
    ensures forall x :: x in MatchesBelow(docs, score, n) <==> x.row < n && x.row in docs && score(docs[x.row]) == Some(x.score)
    ensures AllDistinct(MatchesBelow(docs, score, n))
  {
    if n > 0 {
      MatchesBelowMeaning(docs, score, n - 1);
    }
  }

  /** How the index is cut into segments, and in which order documents were added, does not show. */
  lemma LexicalOrderFree(ps: seq<Posting>, docs: map<RowId, LexicalDoc>, score: LexicalDoc -> Option<real>,
                         n: nat, limit: nat)
    requires Represents(ps, docs) && forall r | r in docs :: r < n
    ensures Top(Matches(ps, score), limit, Identity) == Top(MatchesBelow(docs, score, n), limit, Identity)
  {
    MatchesMeaning(ps, docs, score);
    MatchesBelowMeaning(docs, score, n);
    SameElements(Matches(ps, score), MatchesBelow(docs, score, n));
    RankOrderFree(Matches(ps, score), MatchesBelow(docs, score, n), Identity);
  }

  // ---------- The corpus ----------

  /** All documents, which is what term statistics are taken over. */
  function Corpus(ps: seq<Posting>): multiset<LexicalDoc> {
    if ps == [] then multiset{} else Corpus(ps[..|ps| - 1]) + multiset{ps[|ps| - 1].doc}
  }

  function DocAt(docs: map<RowId, LexicalDoc>, row: RowId): multiset<LexicalDoc> {
    if row in docs then multiset{docs[row]} else multiset{}
  }

  function CorpusBelow(docs: map<RowId, LexicalDoc>, n: nat): multiset<LexicalDoc> {
    if n == 0 then multiset{}
    else CorpusBelow(docs, n - 1) + DocAt(docs, n - 1)
  }

  lemma DocWithout(docs: map<RowId, LexicalDoc>, row: RowId, r: RowId)
    ensures DocAt(docs - {row}, r) == if r == row then multiset{} else DocAt(docs, r)
  {
  }

  lemma {:induction false} CorpusWithout(docs: map<RowId, LexicalDoc>, row: RowId, n: nat)
    requires row in docs
    ensures CorpusBelow(docs, n) == CorpusBelow(docs - {row}, n) + if row < n then DocAt(docs, row) else multiset{}
  {
    hide DocAt;
    if n > 0 {
      CorpusWithout(docs, row, n - 1);
      DocWithout(docs, row, n - 1);
    }
  }

  lemma {:induction false} EmptyCorpus(n: nat)
    ensures CorpusBelow(map[], n) == multiset{}
  {
    if n > 0 {
      EmptyCorpus(n - 1);
    }
  }

  /** The corpus, too, shows neither segments nor the order of additions. */
  lemma {:induction false} CorpusOrderFree(ps: seq<Posting>, docs: map<RowId, LexicalDoc>, n: nat)
    requires Represents(ps, docs) && forall r | r in docs :: r < n
    ensures Corpus(ps) == CorpusBelow(docs, n)
  {
    if ps == [] {
      EmptyCorpus(n);
    } else {
      var last := ps[|ps| - 1];
      CorpusWithout(docs, last.row, n);
      CorpusOrderFree(ps[..|ps| - 1], docs - {last.row}, n);
    }
  }

  // ---------- Queries ----------

  datatype Role = Query | Document

  /** Everything about a query that the store does not decide: its embedding, whether the lexical
      search of it fails, what it matches in a document, and how vectors compare. */
  datatype Engine = Engine(
    modelId: string,
    embed: (string, Role) -> Result<Vector, InferError>,
    lexicalFails: string -> Option<string>,
    score: (string, multiset<LexicalDoc>, LexicalDoc) -> Option<real>,
    similarity: (Vector, Vector) -> Score
  )

  datatype SearchResult = SearchResult(
    file: string,
    symbol: string,
    signature: string,
    doc: Option<string>,
    preview: string,
    lineStart: nat,
    lineEnd: nat,
    lexicalScore: Option<real>,
    denseScore: Option<real>,
    fusedScore: real
  )

  datatype SearchResponse = SearchResponse(
    results: seq<SearchResult>,
    lexicalError: Option<RetrievalError>,
    denseError: Option<RetrievalError>
  )

  const PREVIEW_MAX_BYTES := 320

  function Utf8Width(c: char): nat {
    if c as int < 0x80 then 1 else if c as int < 0x800 then 2 else if c as int < 0x1_0000 then 3 else 4
  }

  /** The longest prefix of whole characters within the budget of bytes. */
  function Clip(body: string, budget: nat): string {
    if body == [] || Utf8Width(body[0]) > budget then ""
    else [body[0]] + Clip(body[1..], budget - Utf8Width(body[0]))
  }

  function Preview(body: string): string {
    Clip(body, PREVIEW_MAX_BYTES)
  }

  function Render(rec: ChunkRecord, body: string, f: FusedRow): SearchResult {
    SearchResult(rec.file, rec.symbol, rec.signature, rec.docFirstLine, Preview(body), rec.lineStart, rec.lineEnd,
      f.lexical.score, f.dense.score, f.fusedScore)
  }

  /** The results for the first `topK` fused rows; rows without a live record are skipped. */
  function Assemble(v: View, docs: map<RowId, LexicalDoc>, fused: seq<FusedRow>): seq<SearchResult> {
    if fused == [] then []
    else
      var last := fused[|fused| - 1];
      Assemble(v, docs, fused[..|fused| - 1])
      + if LiveAt(v, last.row)
        then [Render(v[last.row].rec, if last.row in docs then docs[last.row].body else "", last)]
        else []
  }

  function VectorsOf(v: View): seq<Vector> {
    seq(|v|, i requires 0 <= i < |v| => v[i].vec)
  }

  function MaskOf(v: View): seq<bool> {
    seq(|v|, i requires 0 <= i < |v| => v[i].live)
  }

  /** Scores of documents in a corpus. */
  function ScoreIn(engine: Engine, corpus: multiset<LexicalDoc>, text: string): LexicalDoc -> Option<real> {
    doc => engine.score(text, corpus, doc)
  }

  function LexicalAnswer(engine: Engine, docs: map<RowId, LexicalDoc>, n: nat, text: string, depth: nat):
      Result<seq<Scored>, RetrievalError>
  {
    if depth == 0 then Ok([])
    else if engine.lexicalFails(text).Some? then Err(Tantivy(engine.lexicalFails(text).value))
    else Ok(Top(MatchesBelow(docs, ScoreIn(engine, CorpusBelow(docs, n), text), n), depth, Identity))
  }

  function RowsOrNone(r: Result<seq<Scored>, RetrievalError>): seq<Scored> {
    if r.Ok? then r.value else []
  }

  function ErrorOf(r: Result<seq<Scored>, RetrievalError>): Option<RetrievalError> {
    if r.Err? then Some(r.error) else None
  }

  ghost function FusionOf(config: FusionConfig, lexical: seq<Scored>, dense: seq<Scored>): (fused: seq<FusedRow>)
    requires Sane(config)
    ensures IsFusion(config, Take(lexical, config.lexicalDepth), Take(dense, config.denseDepth), fused)
  {
    FusionExists(config, Take(lexical, config.lexicalDepth), Take(dense, config.denseDepth));
    var f :| IsFusion(config, Take(lexical, config.lexicalDepth), Take(dense, config.denseDepth), f);
    f
  }

  /** A search, on what the store and the lexical index mean. */
  ghost function RunSpec(engine: Engine, v: View, docs: map<RowId, LexicalDoc>, dims: nat, model: string,
                         text: string, topK: nat, config: FusionConfig, role: Role, runLexical: bool):
      Result<SearchResponse, RetrievalError>
    requires Sane(config)
  {
    var embedded := engine.embed(text, role);
    if embedded.Err? then Err(Inference(embedded.error))
    else
      var lexical := if runLexical then LexicalAnswer(engine, docs, |v|, text, config.lexicalDepth) else Ok([]);
      var dense := SearchSpec(VectorsOf(v), MaskOf(v), dims, model, embedded.value, engine.modelId, config.denseDepth, engine.similarity);
      if lexical.Err? && dense.Err? then Err(BothRetrieversFailed(lexical.error, dense.error))
      else
        var fused := FusionOf(config, RowsOrNone(lexical), RowsOrNone(dense));
        Ok(SearchResponse(Assemble(v, docs, Take(fused, topK)), ErrorOf(lexical), ErrorOf(dense)))
  }

  // ---------- Where answers come from ----------

  lemma LexicalRows(docs: map<RowId, LexicalDoc>, score: LexicalDoc -> Option<real>, n: nat, depth: nat)
    ensures forall x | x in Top(MatchesBelow(docs, score, n), depth, Identity) :: x.row in docs
    ensures DistinctRows(Top(MatchesBelow(docs, score, n), depth, Identity))
  {
    var s := MatchesBelow(docs, score, n);
    MatchesBelowMeaning(docs, score, n);
    RankDistinct(s, Identity);
    var r := Rank(s, Identity);
    forall i, j | 0 <= i < j < |r|
      ensures r[i].row != r[j].row
    {
      assert r[i] in s && r[j] in s && r[i] != r[j];
    }
    TopLength(s, depth, Identity);
  }

  lemma SameRowSameCandidate(scores: seq<Score>, live: seq<bool>, a: Scored, b: Scored)
    requires a in Candidates(scores, live) && b in Candidates(scores, live)
    ensures a.row == b.row ==> a == b
  {
    CandidateRows(scores, live);
  }

  lemma DenseRows(scores: seq<Score>, live: seq<bool>, limit: nat)
    ensures forall x | x in ReferenceSearch(scores, live, limit) :: x.row < |scores| && IsLive(live, x.row)
    ensures DistinctRows(ReferenceSearch(scores, live, limit))
  {
    var s := Candidates(scores, live);
    CandidateRows(scores, live);
    assert AllDistinct(s);
    RankDistinct(s, Identity);
    var r := Rank(s, Identity);
    forall i, j | 0 <= i < j < |r|
      ensures r[i].row != r[j].row
    {
      assert r[i] in s && r[j] in s && r[i] != r[j];
      SameRowSameCandidate(scores, live, r[i], r[j]);
    }
    TopLength(s, limit, Identity);
  }

  /** The corpus holds every document, as often as rows have it. */
  ghost predicate IsCorpus(corpus: multiset<LexicalDoc>, docs: map<RowId, LexicalDoc>) {
    forall d :: corpus[d] == |set row | row in docs && docs[row] == d|
  }

  /** The rows below `n` that hold this document. */
  ghost function Holding(docs: map<RowId, LexicalDoc>, d: LexicalDoc, n: nat): set<RowId> {
    set row | row in docs && row < n && docs[row] == d
  }

  lemma HoldingStep(docs: map<RowId, LexicalDoc>, d: LexicalDoc, n: nat)
    ensures Holding(docs, d, 0) == {}
    ensures Holding(docs, d, n + 1) == Holding(docs, d, n) + if n in docs && docs[n] == d then {n} else {}
    ensures n !in Holding(docs, d, n)
  {
  }

  lemma {:induction false} CorpusCounts(docs: map<RowId, LexicalDoc>, n: nat, d: LexicalDoc)
    ensures CorpusBelow(docs, n)[d] == |Holding(docs, d, n)|
  {
    hide Holding;
    if n == 0 {
      HoldingStep(docs, d, 0);
    } else {
      CorpusCounts(docs, n - 1, d);
      HoldingStep(docs, d, n - 1);
    }
  }

  lemma CorpusMeaning(docs: map<RowId, LexicalDoc>, n: nat)
    requires forall row | row in docs :: row < n
    ensures IsCorpus(CorpusBelow(docs, n), docs)
  {
    forall d
      ensures CorpusBelow(docs, n)[d] == |set row | row in docs && docs[row] == d|
    {
      CorpusCounts(docs, n, d);
      assert (set row | row in docs && docs[row] == d) == Holding(docs, d, n);
    }
  }

  /** `r` lists the best `limit` rows whose documents match the text, each with its document's own
      score, in order: as many as match, and none left out that is ahead of one that is listed. */
  ghost predicate BestMatching(engine: Engine, docs: map<RowId, LexicalDoc>, text: string, limit: nat, r: seq<Scored>) {
    exists corpus | IsCorpus(corpus, docs) ::
      var matching := set row | row in docs && engine.score(text, corpus, docs[row]).Some?;
      && |r| == (if |matching| < limit then |matching| else limit)
      && (forall c | c in r :: c.row in docs && engine.score(text, corpus, docs[c.row]) == Some(c.score))
      && InOrder(r)
      && (forall row, c | row in matching && c in r && (forall d | d in r :: d.row != row) ::
            Ahead(c, Scored(row, engine.score(text, corpus, docs[row]).value)))
  }

  /** The rows below `n` whose documents match. */
  ghost function Matching(docs: map<RowId, LexicalDoc>, score: LexicalDoc -> Option<real>, n: nat): set<RowId> {
    set row | row in docs && row < n && score(docs[row]).Some?
  }

  lemma MatchingStep(docs: map<RowId, LexicalDoc>, score: LexicalDoc -> Option<real>, n: nat)
    ensures Matching(docs, score, 0) == {}
    ensures Matching(docs, score, n + 1) == Matching(docs, score, n) + if n in docs && score(docs[n]).Some? then {n} else {}
    ensures n !in Matching(docs, score, n)
  {
  }

  lemma {:induction false} MatchCount(docs: map<RowId, LexicalDoc>, score: LexicalDoc -> Option<real>, n: nat)
    ensures |MatchesBelow(docs, score, n)| == |Matching(docs, score, n)|
  {
    hide Matching;
    if n == 0 {
      MatchingStep(docs, score, 0);
    } else {
      MatchCount(docs, score, n - 1);
      MatchingStep(docs, score, n - 1);
    }
  }

  lemma {:induction false} MatchesAscend(docs: map<RowId, LexicalDoc>, score: LexicalDoc -> Option<real>, n: nat)
    ensures forall i, j | 0 <= i < j < |MatchesBelow(docs, score, n)| ::
      MatchesBelow(docs, score, n)[i].row < MatchesBelow(docs, score, n)[j].row
  {
    if n > 0 {
      MatchesAscend(docs, score, n - 1);
      MatchesBelowMeaning(docs, score, n - 1);
      var s := MatchesBelow(docs, score, n - 1);
      assert forall i | 0 <= i < |s| :: s[i] in s;
    }
  }

  lemma LexicalMeaning(engine: Engine, docs: map<RowId, LexicalDoc>, n: nat, text: string, depth: nat)
    requires forall row | row in docs :: row < n
    ensures BestMatching(engine, docs, text, depth,
      Top(MatchesBelow(docs, ScoreIn(engine, CorpusBelow(docs, n), text), n), depth, Identity))
  {
    hide Top, Ahead, IsCorpus;
    var corpus := CorpusBelow(docs, n);
    var score := ScoreIn(engine, corpus, text);
    var s := MatchesBelow(docs, score, n);
    var matching := set row | row in docs && engine.score(text, corpus, docs[row]).Some?;
    CorpusMeaning(docs, n);
    MatchesBelowMeaning(docs, score, n);
    MatchCount(docs, score, n);
    MatchesAscend(docs, score, n);
    assert matching == Matching(docs, score, n);
    TopMeaning(s, depth);
    forall row, c | row in matching && c in Top(s, depth, Identity) && (forall d | d in Top(s, depth, Identity) :: d.row != row)
      ensures Ahead(c, Scored(row, engine.score(text, corpus, docs[row]).value))
    {
      assert Scored(row, engine.score(text, corpus, docs[row]).value) in s;
    }
  }

  // ---------- The searcher ----------

  method SearchLexical(engine: Engine, ghost docs: map<RowId, LexicalDoc>, segments: seq<seq<Posting>>, n: nat, text: string, depth: nat)
      returns (r: Result<seq<Scored>, RetrievalError>)
    requires Represents(Concat(segments), docs) && forall row | row in docs :: row < n
    ensures r == LexicalAnswer(engine, docs, n, text, depth)
    ensures depth == 0 ==> r == Ok([])
    ensures depth > 0 && engine.lexicalFails(text).Some? ==> r == Err(Tantivy(engine.lexicalFails(text).value))
    ensures depth > 0 && engine.lexicalFails(text).None? ==> r.Ok? && BestMatching(engine, docs, text, depth, r.value)
  {
    LexicalMeaning(engine, docs, n, text, depth);
    if depth == 0 {
      return Ok([]);
    }
    var failure := engine.lexicalFails(text);
    if failure.Some? {
      return Err(Tantivy(failure.value));
    }
    var score := ScoreIn(engine, Corpus(Concat(segments)), text);
    CorpusOrderFree(Concat(segments), docs, n);
    var rows := CollectAll(segments, score, depth);
    LexicalOrderFree(Concat(segments), docs, score, n, depth);
    return Ok(rows);
  }

  /** Looks up records and bodies for the selected rows, skipping rows with no live record. */
  method AssembleRows(v: View, ghost docs: map<RowId, LexicalDoc>, ps: seq<Posting>, selected: seq<FusedRow>)
      returns (results: seq<SearchResult>)
    requires Represents(ps, docs)
    ensures results == Assemble(v, docs, selected)
  {
    results := [];
    for i := 0 to |selected|
      invariant results == Assemble(v, docs, selected[..i])
    {
      assert selected[..i + 1][..i] == selected[..i];
      var row := selected[i].row;
      RepresentsLookup(ps, docs, row);
      if LiveAt(v, row) {
        var document := FirstDoc(ps, row);
        var body := if document.Some? then document.value.body else "";
        results := results + [Render(v[row].rec, body, selected[i])];
      }
    }
    assert selected[..|selected|] == selected;
  }

  /** One fused search: both retrievers, fusion, assembly. A failing retriever degrades the
      answer; two failing retrievers refuse it. */
  method Run(engine: Engine, v: View, ghost docs: map<RowId, LexicalDoc>, segments: seq<seq<Posting>>, dense: DenseIndex,
             text: string, topK: nat, config: FusionConfig, role: Role, runLexical: bool)
      returns (r: Result<SearchResponse, RetrievalError>)
    requires Sane(config) && Agree(v, docs) && Represents(Concat(segments), docs)
    requires dense.PreparedFrom(VectorsOf(v), MaskOf(v))
    ensures r == RunSpec(engine, v, docs, dense.dims, dense.modelId, text, topK, config, role, runLexical)
  {
    var embedded := engine.embed(text, role);
    if embedded.Err? {
      return Err(Inference(embedded.error));
    }
    var lexical: Result<seq<Scored>, RetrievalError> := Ok([]);
    if runLexical {
      lexical := SearchLexical(engine, docs, segments, |v|, text, config.lexicalDepth);
    }
    var found := dense.Search(embedded.value, engine.modelId, config.denseDepth, engine.similarity, VectorsOf(v));
    if lexical.Err? && found.Err? {
      return Err(BothRetrieversFailed(lexical.error, found.error));
    }
    var fused := Fuse(RowsOrNone(lexical), RowsOrNone(found), config);
    FusionUnique(config, Take(RowsOrNone(lexical), config.lexicalDepth), Take(RowsOrNone(found), config.denseDepth),
      fused, FusionOf(config, RowsOrNone(lexical), RowsOrNone(found)));
    var results := AssembleRows(v, docs, Concat(segments), Take(fused, topK));
    return Ok(SearchResponse(results, ErrorOf(lexical), ErrorOf(found)));
  }

  // ---------- Where agreement between the retrievers puts a row ----------

  /** Neither retriever names a row twice. */
  lemma AnswersDistinct(engine: Engine, v: View, docs: map<RowId, LexicalDoc>, dims: nat, model: string,
                        text: string, config: FusionConfig, query: Vector)
    ensures DistinctRows(RowsOrNone(LexicalAnswer(engine, docs, |v|, text, config.lexicalDepth)))
    ensures DistinctRows(RowsOrNone(SearchSpec(VectorsOf(v), MaskOf(v), dims, model, query, engine.modelId, config.denseDepth, engine.similarity)))
  {
    LexicalRows(docs, ScoreIn(engine, CorpusBelow(docs, |v|), text), |v|, config.lexicalDepth);
    DenseRows(ScoreAll(VectorsOf(v), query, engine.similarity), MaskOf(v), config.denseDepth);
  }

  /** In every search at safe depths, a row that both retrievers found stands before every row
      that only one of them found. */
  lemma AgreementInSearch(engine: Engine, v: View, docs: map<RowId, LexicalDoc>, dims: nat, model: string,
                          text: string, config: FusionConfig, query: Vector)
    requires Positive(config) && DepthsSafe(config)
    ensures var lexical := RowsOrNone(LexicalAnswer(engine, docs, |v|, text, config.lexicalDepth));
      var dense := RowsOrNone(SearchSpec(VectorsOf(v), MaskOf(v), dims, model, query, engine.modelId, config.denseDepth, engine.similarity));
      AgreementWins(Take(lexical, config.lexicalDepth), Take(dense, config.denseDepth), FusionOf(config, lexical, dense))
  {
    var lexical := RowsOrNone(LexicalAnswer(engine, docs, |v|, text, config.lexicalDepth));
    var dense := RowsOrNone(SearchSpec(VectorsOf(v), MaskOf(v), dims, model, query, engine.modelId, config.denseDepth, engine.similarity));
    AnswersDistinct(engine, v, docs, dims, model, text, config, query);
    SafeDepthsSuffice(config, Take(lexical, config.lexicalDepth), Take(dense, config.denseDepth), FusionOf(config, lexical, dense));
  }

  // ---------- What a response contains ----------

  ghost predicate RenderedAt(v: View, docs: map<RowId, LexicalDoc>, f: FusedRow, x: SearchResult) {
    LiveAt(v, f.row) && x == Render(v[f.row].rec, if f.row in docs then docs[f.row].body else "", f)
  }

  lemma AssembleSnoc(v: View, docs: map<RowId, LexicalDoc>, fused: seq<FusedRow>)
    requires fused != [] && LiveAt(v, fused[|fused| - 1].row)
    ensures var last, before := fused[|fused| - 1], Assemble(v, docs, fused[..|fused| - 1]);
      exists x :: Assemble(v, docs, fused) == before + [x] && RenderedAt(v, docs, last, x)
  {
    var last := fused[|fused| - 1];
    var x := Render(v[last.row].rec, if last.row in docs then docs[last.row].body else "", last);
    assert RenderedAt(v, docs, last, x);
  }

  lemma {:induction false} AssembleLive(v: View, docs: map<RowId, LexicalDoc>, fused: seq<FusedRow>)
    requires forall x | x in fused :: LiveAt(v, x.row)
    ensures |Assemble(v, docs, fused)| == |fused|
    ensures forall i | 0 <= i < |fused| :: RenderedAt(v, docs, fused[i], Assemble(v, docs, fused)[i])
  {
    if fused == [] {
      assert Assemble(v, docs, fused) == [];
    } else {
      hide Assemble, RenderedAt, Render, LiveAt;
      var last := |fused| - 1;
      assert fused[last] in fused;
      assert forall x | x in fused[..last] :: x in fused;
      AssembleLive(v, docs, fused[..last]);
      AssembleSnoc(v, docs, fused);
    }
  }

  lemma FusedLive(v: View, config: FusionConfig, lexical: seq<Scored>, dense: seq<Scored>)
    requires Sane(config)
    requires forall x | x in lexical :: LiveAt(v, x.row)
    requires forall x | x in dense :: LiveAt(v, x.row)
    ensures forall x | x in FusionOf(config, lexical, dense) :: LiveAt(v, x.row)
  {
    var l, d := Take(lexical, config.lexicalDepth), Take(dense, config.denseDepth);
    var fused := FusionOf(config, lexical, dense);
    forall x | x in fused
      ensures LiveAt(v, x.row)
    {
      FusionElement(config, l, d, fused, x);
      RankOfMeaning(l, x.row);
      RankOfMeaning(d, x.row);
      if RankOf(l, x.row) > 0 {
        assert lexical[RankOf(l, x.row) - 1] in lexical;
      } else {
        assert dense[RankOf(d, x.row) - 1] in dense;
      }
    }
  }

  lemma AnswersLive(engine: Engine, v: View, docs: map<RowId, LexicalDoc>, dims: nat, model: string,
                    text: string, config: FusionConfig, query: Vector)
    requires Agree(v, docs)
    ensures forall x | x in RowsOrNone(LexicalAnswer(engine, docs, |v|, text, config.lexicalDepth)) :: LiveAt(v, x.row)
    ensures forall x | x in RowsOrNone(SearchSpec(VectorsOf(v), MaskOf(v), dims, model, query, engine.modelId, config.denseDepth,
      engine.similarity)) :: LiveAt(v, x.row)
  {
    LexicalRows(docs, ScoreIn(engine, CorpusBelow(docs, |v|), text), |v|, config.lexicalDepth);
    DenseRows(ScoreAll(VectorsOf(v), query, engine.similarity), MaskOf(v), config.denseDepth);
  }

  function Utf8Bytes(s: string): nat {
    if s == "" then 0 else Utf8Width(s[0]) + Utf8Bytes(s[1..])
  }

  lemma {:induction false} Utf8Length(s: string)
    ensures |Utf8(s)| == Utf8Bytes(s)
  {
    if s != "" {
      Utf8Length(s[1..]);
    }
  }

  lemma {:induction false} Utf8BytesSnoc(s: string, c: char)
    ensures Utf8Bytes(s + [c]) == Utf8Bytes(s) + Utf8Width(c)
  {
    if s == "" {
      assert s + [c] == [c] && [c][1..] == "";
    } else {
      Utf8BytesSnoc(s[1..], c);
      assert (s + [c])[1..] == s[1..] + [c];
    }
  }

  /** A preview is the longest beginning of the body whose bytes fit. */
  lemma {:induction false} ClipMeaning(body: string, budget: nat)
    ensures Clip(body, budget) <= body && Utf8Bytes(Clip(body, budget)) <= budget
    ensures |Clip(body, budget)| < |body| ==> Utf8Bytes(Clip(body, budget)) + Utf8Width(body[|Clip(body, budget)|]) > budget
  {
    if body != "" && Utf8Width(body[0]) <= budget {
      ClipMeaning(body[1..], budget - Utf8Width(body[0]));
      assert body == [body[0]] + body[1..];
      assert Clip(body, budget)[1..] == Clip(body[1..], budget - Utf8Width(body[0]));
    }
  }

  /** A preview is the longest beginning of the body whose UTF-8 fits. */
  lemma PreviewMeaning(body: string)
    ensures Preview(body) <= body && |Utf8(Preview(body))| <= 320
    ensures |Preview(body)| < |body| ==> |Utf8(Preview(body) + [body[|Preview(body)|]])| > 320
  {
    var p := Preview(body);
    ClipMeaning(body, PREVIEW_MAX_BYTES);
    Utf8Length(p);
    if |p| < |body| {
      Utf8Length(p + [body[|p|]]);
      Utf8BytesSnoc(p, body[|p|]);
    }
  }

  /** The score a list gives a row, if it lists it. */
  ghost predicate ListedScore(s: seq<Scored>, row: RowId, score: Option<real>) {
    && (score.Some? ==> Scored(row, score.value) in s)
    && (score.None? ==> forall c | c in s :: c.row != row)
  }

  /** Result `x` presents live row `row`: its record, the beginning of its body, and the scores
      that the two answers give it. */
  ghost predicate Presents(v: View, docs: map<RowId, LexicalDoc>, lexical: seq<Scored>, dense: seq<Scored>, row: RowId, x: SearchResult) {
    && LiveAt(v, row) && row in docs
    && x.file == v[row].rec.file && x.symbol == v[row].rec.symbol && x.signature == v[row].rec.signature
    && x.doc == v[row].rec.docFirstLine && x.lineStart == v[row].rec.lineStart && x.lineEnd == v[row].rec.lineEnd
    && x.preview == Preview(docs[row].body)
    && ListedScore(lexical, row, x.lexicalScore) && ListedScore(dense, row, x.denseScore)
    && (x.lexicalScore.Some? || x.denseScore.Some?)
  }

  lemma ContributionListed(s: seq<Scored>, row: RowId)
    ensures ListedScore(s, row, ContributionOf(s, row).score)
  {
    RankOfMeaning(s, row);
    var rank := RankOf(s, row);
    if rank > 0 {
      assert s[rank - 1] == Scored(row, s[rank - 1].score);
    }
  }

  lemma RenderPresents(v: View, docs: map<RowId, LexicalDoc>, config: FusionConfig, lexical: seq<Scored>, dense: seq<Scored>,
                       f: FusedRow)
    requires Sane(config) && LiveAt(v, f.row) && f.row in docs
    requires f == FusedAt(config, lexical, dense, f.row) && (RankOf(lexical, f.row) > 0 || RankOf(dense, f.row) > 0)
    ensures Presents(v, docs, lexical, dense, f.row, Render(v[f.row].rec, docs[f.row].body, f))
  {
    ContributionListed(lexical, f.row);
    ContributionListed(dense, f.row);
  }

  lemma FusedPresents(v: View, docs: map<RowId, LexicalDoc>, config: FusionConfig,
                      lexicalAll: seq<Scored>, denseAll: seq<Scored>, f: FusedRow, x: SearchResult)
    requires Sane(config) && Agree(v, docs) && f in FusionOf(config, lexicalAll, denseAll) && RenderedAt(v, docs, f, x)
    ensures Presents(v, docs, Take(lexicalAll, config.lexicalDepth), Take(denseAll, config.denseDepth), f.row, x)
    ensures x.fusedScore == f.fusedScore
  {
    hide Presents;
    var lexical, dense := Take(lexicalAll, config.lexicalDepth), Take(denseAll, config.denseDepth);
    FusionElement(config, lexical, dense, FusionOf(config, lexicalAll, denseAll), f);
    RenderPresents(v, docs, config, lexical, dense, f);
  }

  lemma FusedOrder(config: FusionConfig, lexical: seq<Scored>, dense: seq<Scored>, fused: seq<FusedRow>)
    requires Sane(config) && IsFusion(config, lexical, dense, fused)
    ensures forall i, j | 0 <= i < j < |fused| :: fused[i].row != fused[j].row && fused[i].fusedScore >= fused[j].fusedScore
  {
    forall i, j | 0 <= i < j < |fused|
      ensures fused[i].fusedScore >= fused[j].fusedScore
    {
      assert !Before(FusedKey(fused[j]), FusedKey(fused[i]));
    }
  }

  /** The results are the first `topK` rows of the fusion, each presented once, best score first:
      nothing dead, nothing twice, nothing that neither retriever found. */
  lemma AnswerShape(v: View, docs: map<RowId, LexicalDoc>, config: FusionConfig,
                    lexicalAll: seq<Scored>, denseAll: seq<Scored>, topK: nat) returns (rows: seq<RowId>)
    requires Sane(config) && Agree(v, docs)
    requires forall x | x in lexicalAll :: LiveAt(v, x.row)
    requires forall x | x in denseAll :: LiveAt(v, x.row)
    ensures var fused := FusionOf(config, lexicalAll, denseAll);
      var lexical, dense := Take(lexicalAll, config.lexicalDepth), Take(denseAll, config.denseDepth);
      var results := Assemble(v, docs, Take(fused, topK));
      && |rows| == |results| == |Take(fused, topK)| <= topK
      && (forall i | 0 <= i < |rows| :: Presents(v, docs, lexical, dense, rows[i], results[i]))
      && (forall i, j | 0 <= i < j < |rows| :: rows[i] != rows[j] && results[i].fusedScore >= results[j].fusedScore)
      && (forall i | 0 <= i < |rows| :: rows[i] == fused[i].row && results[i].fusedScore == fused[i].fusedScore)
  {
    hide Presents, Assemble, IsFusion, RenderedAt, Agree;
    var fused := FusionOf(config, lexicalAll, denseAll);
    var selected := Take(fused, topK);
    FusedLive(v, config, lexicalAll, denseAll);
    assert forall x | x in selected :: x in fused;
    AssembleLive(v, docs, selected);
    rows := seq(|selected|, i requires 0 <= i < |selected| => selected[i].row);
    forall i | 0 <= i < |rows|
      ensures Presents(v, docs, Take(lexicalAll, config.lexicalDepth), Take(denseAll, config.denseDepth), rows[i], Assemble(v, docs, selected)[i])
      ensures Assemble(v, docs, selected)[i].fusedScore == fused[i].fusedScore
    {
      assert selected[i] == fused[i] && fused[i] in fused;
      FusedPresents(v, docs, config, lexicalAll, denseAll, fused[i], Assemble(v, docs, selected)[i]);
    }
    FusedOrder(config, Take(lexicalAll, config.lexicalDepth), Take(denseAll, config.denseDepth), fused);
  }

  // ---------- A response, in terms of the store and its documents ----------

  /** What the lexical retriever found for the text, or why it found nothing. */
  ghost predicate LexicalPart(engine: Engine, docs: map<RowId, LexicalDoc>, text: string, depth: nat, runLexical: bool,
                              found: seq<Scored>, error: Option<RetrievalError>) {
    if !runLexical || depth == 0 then found == [] && error.None?
    else
      match engine.lexicalFails(text)
      case Some(detail) => found == [] && error == Some(Tantivy(detail))
      case None => error.None? && BestMatching(engine, docs, text, depth, found)
  }

  /** The vectors and live flags of a view, row by row. */
  ghost predicate Columns(v: View, vectors: seq<Vector>, live: seq<bool>) {
    |vectors| == |live| == |v| && forall i | 0 <= i < |v| :: vectors[i] == v[i].vec && live[i] == v[i].live
  }

  /** What the dense retriever found for the embedded text, or why it found nothing. */
  ghost predicate DensePart(engine: Engine, v: View, dims: nat, model: string, query: Vector, depth: nat,
                            found: seq<Scored>, error: Option<RetrievalError>) {
    if |query| != dims then found == [] && error == Some(RetrievalError.DimensionMismatch(dims, |query|))
    else if engine.modelId != model then found == [] && error == Some(ModelMismatch(model, engine.modelId))
    else if depth == 0 then found == [] && error.None?
    else exists vectors, live | Columns(v, vectors, live) ::
      match error
      case None => BestLive(vectors, live, query, engine.similarity, depth, found)
      case Some(e) => found == [] && exists row :: e == NonFiniteScore(row) && Refused(vectors, live, query, engine.similarity, row)
  }

  /** The results present the best `topK` of the rows that either retriever found, in the order of
      their summed reciprocal ranks and then of their rows. */
  ghost predicate Page(v: View, docs: map<RowId, LexicalDoc>, config: FusionConfig, lexical: seq<Scored>, dense: seq<Scored>, topK: nat,
                       rows: seq<RowId>, results: seq<SearchResult>)
    requires Sane(config)
  {
    var found := RowsOf(lexical) + RowsOf(dense);
    && |rows| == |results| == (if |found| < topK then |found| else topK)
    && (forall i | 0 <= i < |rows| :: rows[i] in found && Presents(v, docs, lexical, dense, rows[i], results[i]))
    && (forall i | 0 <= i < |rows| :: ReciprocalRanks(config, lexical, dense, rows[i], results[i].fusedScore))
    && (forall i, j | 0 <= i < j < |rows| :: Ahead(Scored(rows[i], results[i].fusedScore), Scored(rows[j], results[j].fusedScore)))
    && (forall row, score, i | row in found && row !in rows && ReciprocalRanks(config, lexical, dense, row, score) && 0 <= i < |rows| ::
          Ahead(Scored(rows[i], results[i].fusedScore), Scored(row, score)))
  }

  lemma FusedRows(config: FusionConfig, lexical: seq<Scored>, dense: seq<Scored>, fused: seq<FusedRow>)
    requires Sane(config) && IsFusion(config, lexical, dense, fused)
    ensures |fused| == |RowsOf(lexical) + RowsOf(dense)|
    ensures forall i | 0 <= i < |fused| :: fused[i].row in RowsOf(lexical) + RowsOf(dense)
    ensures forall row | row in RowsOf(lexical) + RowsOf(dense) :: exists i :: 0 <= i < |fused| && fused[i].row == row
  {
    hide FusedAt, Ranked;
    var rows := seq(|fused|, i requires 0 <= i < |fused| => fused[i].row);
    var found := RowsOf(lexical) + RowsOf(dense);
    forall row: RowId
      ensures row in found <==> RankOf(lexical, row) > 0 || RankOf(dense, row) > 0
    {
      RankOfMeaning(lexical, row);
      RankOfMeaning(dense, row);
    }
    forall row
      ensures row in RowSet(rows) <==> row in found
    {
      if row in found {
        var i :| 0 <= i < |fused| && fused[i].row == row;
        assert rows[i] == row;
      }
    }
    DistinctCardinality(rows);
    assert RowSet(rows) == found;
  }

  lemma FusedAhead(config: FusionConfig, lexical: seq<Scored>, dense: seq<Scored>, fused: seq<FusedRow>)
    requires Sane(config) && IsFusion(config, lexical, dense, fused)
    ensures forall i, j | 0 <= i < j < |fused| :: Ahead(Scored(fused[i].row, fused[i].fusedScore), Scored(fused[j].row, fused[j].fusedScore))
  {
    forall i, j | 0 <= i < j < |fused|
      ensures Ahead(Scored(fused[i].row, fused[i].fusedScore), Scored(fused[j].row, fused[j].fusedScore))
    {
      assert !Before(FusedKey(fused[j]), FusedKey(fused[i]));
    }
  }

  lemma FusedSums(config: FusionConfig, lexical: seq<Scored>, dense: seq<Scored>, fused: seq<FusedRow>, i: nat, score: real)
    requires Sane(config) && IsFusion(config, lexical, dense, fused) && DistinctRows(lexical) && DistinctRows(dense) && i < |fused|
    ensures ReciprocalRanks(config, lexical, dense, fused[i].row, score) <==> score == fused[i].fusedScore
  {
    hide ReciprocalRanks;
    FusedScore(config, lexical, dense, fused[i].row, score);
  }

  lemma PageMeaning(v: View, docs: map<RowId, LexicalDoc>, config: FusionConfig, lexical: seq<Scored>, dense: seq<Scored>, topK: nat)
      returns (rows: seq<RowId>)
    requires Sane(config) && Agree(v, docs) && DistinctRows(lexical) && DistinctRows(dense)
    requires |lexical| <= config.lexicalDepth && |dense| <= config.denseDepth
    requires forall x | x in lexical :: LiveAt(v, x.row)
    requires forall x | x in dense :: LiveAt(v, x.row)
    ensures Page(v, docs, config, lexical, dense, topK, rows, Assemble(v, docs, Take(FusionOf(config, lexical, dense), topK)))
  {
    hide Presents, Assemble, IsFusion, Agree, ReciprocalRanks, RowsOf, Ahead;
    var fused := FusionOf(config, lexical, dense);
    var results := Assemble(v, docs, Take(fused, topK));
    rows := AnswerShape(v, docs, config, lexical, dense, topK);
    FusedRows(config, lexical, dense, fused);
    FusedAhead(config, lexical, dense, fused);
    forall i | 0 <= i < |rows|
      ensures ReciprocalRanks(config, lexical, dense, rows[i], results[i].fusedScore)
    {
      FusedSums(config, lexical, dense, fused, i, results[i].fusedScore);
    }
    forall row, score, i | row in RowsOf(lexical) + RowsOf(dense) && row !in rows && ReciprocalRanks(config, lexical, dense, row, score) && 0 <= i < |rows|
      ensures Ahead(Scored(rows[i], results[i].fusedScore), Scored(row, score))
    {
      var j :| 0 <= j < |fused| && fused[j].row == row;
      FusedSums(config, lexical, dense, fused, j, score);
      assert forall k | 0 <= k < |rows| :: rows[k] in rows && rows[k] == fused[k].row;
    }
  }

  lemma PartsMeaning(engine: Engine, v: View, docs: map<RowId, LexicalDoc>, dims: nat, model: string,
                     text: string, config: FusionConfig, query: Vector)
    requires Agree(v, docs)
    ensures var r := LexicalAnswer(engine, docs, |v|, text, config.lexicalDepth);
      LexicalPart(engine, docs, text, config.lexicalDepth, true, RowsOrNone(r), ErrorOf(r)) && |RowsOrNone(r)| <= config.lexicalDepth
    ensures var r := SearchSpec(VectorsOf(v), MaskOf(v), dims, model, query, engine.modelId, config.denseDepth, engine.similarity);
      DensePart(engine, v, dims, model, query, config.denseDepth, RowsOrNone(r), ErrorOf(r)) && |RowsOrNone(r)| <= config.denseDepth
  {
    hide BestMatching, BestLive, Refused, Top, Candidates, FirstBad, MatchesBelow;
    LexicalMeaning(engine, docs, |v|, text, config.lexicalDepth);
    TopLength(MatchesBelow(docs, ScoreIn(engine, CorpusBelow(docs, |v|), text), |v|), config.lexicalDepth, Identity);
    SpecMeaning(VectorsOf(v), MaskOf(v), query, config.denseDepth, engine.similarity);
    TopLength(Candidates(ScoreAll(VectorsOf(v), query, engine.similarity), MaskOf(v)), config.denseDepth, Identity);
    assert Columns(v, VectorsOf(v), MaskOf(v));
  }

  lemma NothingFound(engine: Engine, docs: map<RowId, LexicalDoc>, text: string, depth: nat)
    ensures LexicalPart(engine, docs, text, depth, false, [], None) && DistinctRows([])
  {
  }

  /** A whole search, stated on live rows and documents alone: a failing embedder refuses it, two
      failing retrievers refuse it, and otherwise the answer is the page of what they found. */
  lemma ResponseMeaning(engine: Engine, v: View, docs: map<RowId, LexicalDoc>, dims: nat, model: string,
                        text: string, topK: nat, config: FusionConfig, role: Role, runLexical: bool)
      returns (lexical: seq<Scored>, lexicalError: Option<RetrievalError>, dense: seq<Scored>, denseError: Option<RetrievalError>,
               rows: seq<RowId>)
    requires Sane(config) && Agree(v, docs)
    ensures var r := RunSpec(engine, v, docs, dims, model, text, topK, config, role, runLexical);
      match engine.embed(text, role)
      case Err(e) => r == Err(Inference(e))
      case Ok(query) =>
        && LexicalPart(engine, docs, text, config.lexicalDepth, runLexical, lexical, lexicalError)
        && DensePart(engine, v, dims, model, query, config.denseDepth, dense, denseError)
        && (lexicalError.Some? && denseError.Some? ==> r == Err(BothRetrieversFailed(lexicalError.value, denseError.value)))
        && (lexicalError.None? || denseError.None? ==>
              && r.Ok? && r.value.lexicalError == lexicalError && r.value.denseError == denseError
              && Page(v, docs, config, lexical, dense, topK, rows, r.value.results))
  {
    hide Agree, LexicalAnswer, SearchSpec, FusionOf, Assemble, LexicalPart, DensePart, Page, DistinctRows;
    lexical, lexicalError, dense, denseError, rows := [], None, [], None, [];
    if engine.embed(text, role).Ok? {
      var query := engine.embed(text, role).value;
      AnswersLive(engine, v, docs, dims, model, text, config, query);
      AnswersDistinct(engine, v, docs, dims, model, text, config, query);
      PartsMeaning(engine, v, docs, dims, model, text, config, query);
      NothingFound(engine, docs, text, config.lexicalDepth);
      var found := SearchSpec(VectorsOf(v), MaskOf(v), dims, model, query, engine.modelId, config.denseDepth, engine.similarity);
      dense, denseError := RowsOrNone(found), ErrorOf(found);
      if runLexical {
        var matched := LexicalAnswer(engine, docs, |v|, text, config.lexicalDepth);
        lexical, lexicalError := RowsOrNone(matched), ErrorOf(matched);
      }
      rows := PageMeaning(v, docs, config, lexical, dense, topK);
    }
  }
}
