// Compaction renumbers every row, in the store, in the lexical index and in the dense index.
// No search can tell, except by the row number in the refusal of a score that is not finite.

module SearchInvariance {
  import opened Wrappers
  import opened Records
  import opened StoreView
  import opened Lexical
  import opened Agreement
  import opened Ranking
  import opened Dense
  import opened Fusion
  import opened Search

  /** The row a compaction gives to live row `r`: how many live rows come before it. */
  function NewRow(v: View, r: RowId): RowId {
    if r <= |v| then LiveCount(v[..r]) else r
  }

  function Renumbering(v: View): RowId -> RowId {
    r => NewRow(v, r)
  }

  ghost function LiveSet(v: View): set<RowId> {
    set r | r in LiveRows(v)
  }

  lemma NewRowStep(v: View, n: nat)
    requires n < |v|
    ensures NewRow(v, n + 1) == NewRow(v, n) + if v[n].live then 1 else 0
  {
    assert v[..n + 1][..n] == v[..n];
  }

  lemma {:induction false} NewRowMonotone(v: View, a: nat, b: nat)
    requires a <= b <= |v|
    ensures NewRow(v, a) <= NewRow(v, b)
    decreases b - a
  {
    if a < b {
      NewRowStep(v, a);
      NewRowMonotone(v, a + 1, b);
    }
  }

  lemma RenumberingStrict(v: View)
    ensures StrictOn(Renumbering(v), LiveSet(v))
  {
    LiveRowsMeaning(v);
    forall a, b | a in LiveSet(v) && b in LiveSet(v)
      ensures a < b <==> NewRow(v, a) < NewRow(v, b)
    {
      if a < b {
        NewRowStep(v, a);
        NewRowMonotone(v, a + 1, b);
      } else {
        NewRowMonotone(v, b, a);
      }
    }
  }

  lemma {:induction false} LiveRowsPosition(v: View, r: RowId)
    requires LiveAt(v, r)
    ensures NewRow(v, r) < |LiveRows(v)| && LiveRows(v)[NewRow(v, r)] == r
  {
    var last := |v| - 1;
    if r < last {
      assert v[..last][..r] == v[..r];
      LiveRowsPosition(v[..last], r);
    }
  }

  /** Row `r` of the old store is row `NewRow(r)` of the compacted one. */
  lemma CompactAt(v: View, r: RowId)
    requires LiveAt(v, r)
    ensures NewRow(v, r) < |Compact(v)| == LiveCount(v)
    ensures LiveRows(v)[NewRow(v, r)] == r
    ensures Compact(v)[NewRow(v, r)] == v[r]
  {
    CompactMeaning(v);
    LiveRowsPosition(v, r);
  }

  lemma RenumberedDoc(v: View, docs: map<RowId, LexicalDoc>, r: RowId)
    requires Agree(v, docs) && LiveAt(v, r)
    ensures var docs' := Substitute(docs, RowMapping(v));
      NewRow(v, r) in docs' && docs'[NewRow(v, r)] == docs[r]
  {
    CompactAt(v, r);
    CompactionMapping(v);
    var k := NewRow(v, r);
    assert RowMapping(v)[k] == (r, k);
    SubstituteAt(docs, RowMapping(v), k);
  }

  // ---------- Candidates of both retrievers ----------

  lemma RelabelSnoc(f: RowId -> RowId, s: seq<Scored>, x: Scored)
    ensures Relabel(f, s + [x]) == Relabel(f, s) + [Scored(f(x.row), x.score)]
  {
  }

  lemma AgreeKey(v: View, docs: map<RowId, LexicalDoc>, r: RowId)
    requires Agree(v, docs)
    ensures r in docs <==> LiveAt(v, r)
  {
  }

  lemma NoneRenumbered(v: View)
    ensures NewRow(v, 0) == 0
    ensures Relabel(Renumbering(v), []) == [] && RowsOf([]) <= LiveSet(v)
  {
  }

  lemma {:induction false} MatchesRenumbered(v: View, docs: map<RowId, LexicalDoc>, score: LexicalDoc -> Option<real>, n: nat)
    requires Agree(v, docs) && n <= |v|
    ensures MatchesBelow(Substitute(docs, RowMapping(v)), score, NewRow(v, n)) == Relabel(Renumbering(v), MatchesBelow(docs, score, n))
  {
    hide Agree, Substitute, RowMapping, LiveRows, LiveCount, Relabel, NewRow;
    if n > 0 {
      var r := n - 1;
      MatchesRenumbered(v, docs, score, r);
      NewRowStep(v, r);
      AgreeKey(v, docs, r);
      if LiveAt(v, r) {
        RenumberedDoc(v, docs, r);
        if score(docs[r]).Some? {
          RelabelSnoc(Renumbering(v), MatchesBelow(docs, score, r), Scored(r, score(docs[r]).value));
        } else {
          assert MatchesBelow(docs, score, n) == MatchesBelow(docs, score, r);
          var docs' := Substitute(docs, RowMapping(v));
          assert MatchesBelow(docs', score, NewRow(v, n)) == MatchesBelow(docs', score, NewRow(v, r));
        }
      } else {
        assert MatchesBelow(docs, score, n) == MatchesBelow(docs, score, r);
      }
    } else {
      NoneRenumbered(v);
    }
  }

  lemma CorpusStep(docs: map<RowId, LexicalDoc>, n: nat)
    ensures CorpusBelow(docs, n + 1) == CorpusBelow(docs, n) + if n in docs then multiset{docs[n]} else multiset{}
  {
  }

  lemma EmptyBelow(docs: map<RowId, LexicalDoc>)
    ensures CorpusBelow(docs, 0) == multiset{}
  {
  }

  /** Renumbering keeps the corpus. */
  lemma {:induction false} CorpusRenumbered(v: View, docs: map<RowId, LexicalDoc>, n: nat)
    requires Agree(v, docs) && n <= |v|
    ensures CorpusBelow(Substitute(docs, RowMapping(v)), NewRow(v, n)) == CorpusBelow(docs, n)
  {
    hide Agree, Substitute, RowMapping, LiveRows, LiveCount, NewRow, CorpusBelow;
    var docs' := Substitute(docs, RowMapping(v));
    if n > 0 {
      var r := n - 1;
      CorpusRenumbered(v, docs, r);
      NewRowStep(v, r);
      AgreeKey(v, docs, r);
      CorpusStep(docs, r);
      if LiveAt(v, r) {
        RenumberedDoc(v, docs, r);
        CorpusStep(docs', NewRow(v, r));
      }
    } else {
      NoneRenumbered(v);
      EmptyBelow(docs);
      EmptyBelow(docs');
    }
  }

  function Scores(v: View, query: Vector, similarity: (Vector, Vector) -> Score): seq<Score> {
    ScoreAll(VectorsOf(v), query, similarity)
  }

  lemma NoCandidates(v: View, query: Vector, similarity: (Vector, Vector) -> Score)
    ensures NewRow(v, 0) == 0
    ensures Candidates(Scores(Compact(v), query, similarity)[..0], MaskOf(Compact(v))) == []
    ensures Relabel(Renumbering(v), Candidates(Scores(v, query, similarity)[..0], MaskOf(v))) == []
    ensures FirstBad(Scores(Compact(v), query, similarity)[..0], MaskOf(Compact(v))).None?
    ensures FirstBad(Scores(v, query, similarity)[..0], MaskOf(v)).None?
  {
  }

  lemma CandidateStep(s: seq<Score>, mask: seq<bool>, r: nat)
    requires r < |s|
    ensures IsLive(mask, r) && s[r].Finite? ==> Candidates(s[..r + 1], mask) == Candidates(s[..r], mask) + [Scored(r, s[r].value)]
    ensures !(IsLive(mask, r) && s[r].Finite?) ==> Candidates(s[..r + 1], mask) == Candidates(s[..r], mask)
    ensures FirstBad(s[..r + 1], mask)
      == if FirstBad(s[..r], mask).Some? then FirstBad(s[..r], mask) else if IsLive(mask, r) && s[r].NonFinite? then Some(r) else None
  {
    assert s[..r + 1][..r] == s[..r];
  }

  function RelabelRow(f: RowId -> RowId, r: Option<RowId>): Option<RowId> {
    match r
    case Some(row) => Some(f(row))
    case None => None
  }

  lemma {:induction false} CandidatesRenumbered(v: View, query: Vector, similarity: (Vector, Vector) -> Score, n: nat)
    requires n <= |v|
    ensures NewRow(v, n) <= |Compact(v)|
    ensures Candidates(Scores(Compact(v), query, similarity)[..NewRow(v, n)], MaskOf(Compact(v)))
      == Relabel(Renumbering(v), Candidates(Scores(v, query, similarity)[..n], MaskOf(v)))
    ensures FirstBad(Scores(Compact(v), query, similarity)[..NewRow(v, n)], MaskOf(Compact(v)))
      == RelabelRow(Renumbering(v), FirstBad(Scores(v, query, similarity)[..n], MaskOf(v)))
  {
    hide Candidates, FirstBad, Relabel, Compact, LiveRows, LiveCount, NewRow;
    var s, s' := Scores(v, query, similarity), Scores(Compact(v), query, similarity);
    if n > 0 {
      var r := n - 1;
      CandidatesRenumbered(v, query, similarity, r);
      NewRowStep(v, r);
      CandidateStep(s, MaskOf(v), r);
      if v[r].live {
        CompactAt(v, r);
        var k := NewRow(v, r);
        CandidateStep(s', MaskOf(Compact(v)), k);
        assert s'[k] == s[r];
        if s[r].Finite? {
          RelabelSnoc(Renumbering(v), Candidates(s[..r], MaskOf(v)), Scored(r, s[r].value));
        }
      }
    } else {
      NoCandidates(v, query, similarity);
    }
  }

  // ---------- Answers of both retrievers ----------

  lemma TopRelabelled(f: RowId -> RowId, rows: set<RowId>, s: seq<Scored>, n: nat)
    requires StrictOn(f, rows) && RowsOf(s) <= rows
    ensures Top(Relabel(f, s), n, Identity) == Relabel(f, Top(s, n, Identity))
  {
    var g := (c: Scored) => Scored(f(c.row), c.score);
    assert MapSeq(s, g) == Relabel(f, s);
    forall x, y | x in s && y in s
      ensures Before(Identity(g(x)), Identity(g(y))) <==> Before(Identity(x), Identity(y))
    {
      assert x.row in rows && y.row in rows;
    }
    TopMapped(s, n, g, Identity, Identity);
    assert MapSeq(Top(s, n, Identity), g) == Relabel(f, Top(s, n, Identity));
  }

  lemma MatchesLive(v: View, docs: map<RowId, LexicalDoc>, score: LexicalDoc -> Option<real>, depth: nat)
    requires Agree(v, docs)
    ensures RowsOf(MatchesBelow(docs, score, |v|)) <= LiveSet(v)
    ensures RowsOf(Top(MatchesBelow(docs, score, |v|), depth, Identity)) <= LiveSet(v)
  {
    hide MatchesBelow, Top;
    LiveRowsMeaning(v);
    MatchesBelowMeaning(docs, score, |v|);
    LexicalRows(docs, score, |v|, depth);
  }

  lemma LexicalRenumbered(engine: Engine, v: View, docs: map<RowId, LexicalDoc>, text: string, depth: nat)
    requires Agree(v, docs)
    ensures var before := LexicalAnswer(engine, docs, |v|, text, depth);
      var after := LexicalAnswer(engine, Substitute(docs, RowMapping(v)), |Compact(v)|, text, depth);
      && (before.Err? ==> after == before)
      && (before.Ok? ==> after == Ok(Relabel(Renumbering(v), before.value)))
      && RowsOf(RowsOrNone(before)) <= LiveSet(v)
  {
    hide Agree, Substitute, Compact, RowMapping, Relabel, MatchesBelow, CorpusBelow, Top, StrictOn;
    CorpusRenumbered(v, docs, |v|);
    NoneRenumbered(v);
    var score := ScoreIn(engine, CorpusBelow(docs, |v|), text);
    MatchesRenumbered(v, docs, score, |v|);
    CompactMeaning(v);
    assert v[..|v|] == v;
    MatchesLive(v, docs, score, depth);
    RenumberingStrict(v);
    TopRelabelled(Renumbering(v), LiveSet(v), MatchesBelow(docs, score, |v|), depth);
  }

  lemma AllCandidatesRenumbered(v: View, query: Vector, similarity: (Vector, Vector) -> Score)
    ensures Candidates(Scores(Compact(v), query, similarity), MaskOf(Compact(v)))
      == Relabel(Renumbering(v), Candidates(Scores(v, query, similarity), MaskOf(v)))
    ensures FirstBad(Scores(Compact(v), query, similarity), MaskOf(Compact(v)))
      == RelabelRow(Renumbering(v), FirstBad(Scores(v, query, similarity), MaskOf(v)))
  {
    hide Candidates, FirstBad, Relabel, Compact;
    var s, s' := Scores(v, query, similarity), Scores(Compact(v), query, similarity);
    CandidatesRenumbered(v, query, similarity, |v|);
    CompactMeaning(v);
    assert v[..|v|] == v && s[..|v|] == s && s'[..|Compact(v)|] == s';
  }

  lemma CandidatesLive(v: View, query: Vector, similarity: (Vector, Vector) -> Score, limit: nat)
    ensures RowsOf(Candidates(Scores(v, query, similarity), MaskOf(v))) <= LiveSet(v)
    ensures RowsOf(ReferenceSearch(Scores(v, query, similarity), MaskOf(v), limit)) <= LiveSet(v)
  {
    hide Candidates, Top;
    LiveRowsMeaning(v);
    CandidateRows(Scores(v, query, similarity), MaskOf(v));
    DenseRows(Scores(v, query, similarity), MaskOf(v), limit);
  }

  /** An error after rows have been renumbered: only a refused score names a row. */
  function RelabelError(f: RowId -> RowId, e: RetrievalError): RetrievalError {
    match e
    case NonFiniteScore(row) => NonFiniteScore(f(row))
    case BothRetrieversFailed(lexical, dense) => BothRetrieversFailed(RelabelError(f, lexical), RelabelError(f, dense))
    case _ => e
  }

  lemma DenseRenumbered(v: View, dims: nat, model: string, query: Vector, asked: string, limit: nat,
                        similarity: (Vector, Vector) -> Score)
    ensures var before := SearchSpec(VectorsOf(v), MaskOf(v), dims, model, query, asked, limit, similarity);
      var after := SearchSpec(VectorsOf(Compact(v)), MaskOf(Compact(v)), dims, model, query, asked, limit, similarity);
      && (before.Err? ==> after == Err(RelabelError(Renumbering(v), before.error)))
      && (before.Ok? ==> after == Ok(Relabel(Renumbering(v), before.value)))
      && RowsOf(RowsOrNone(before)) <= LiveSet(v)
  {
    hide Candidates, FirstBad, Top, Relabel, LiveSet, Compact, NewRow;
    AllCandidatesRenumbered(v, query, similarity);
    CandidatesLive(v, query, similarity, limit);
    RenumberingStrict(v);
    TopRelabelled(Renumbering(v), LiveSet(v), Candidates(Scores(v, query, similarity), MaskOf(v)), limit);
    NoneRenumbered(v);
  }

  // ---------- Fusion and assembly ----------

  lemma FusionRenumbered(config: FusionConfig, f: RowId -> RowId, rows: set<RowId>, lexical: seq<Scored>, dense: seq<Scored>)
    requires Sane(config) && StrictOn(f, rows) && RowsOf(lexical) <= rows && RowsOf(dense) <= rows
    ensures FusionOf(config, Relabel(f, lexical), Relabel(f, dense)) == RelabelFused(f, FusionOf(config, lexical, dense))
    ensures forall x | x in FusionOf(config, lexical, dense) :: x.row in rows
  {
    var l, d := Take(lexical, config.lexicalDepth), Take(dense, config.denseDepth);
    assert Take(Relabel(f, lexical), config.lexicalDepth) == Relabel(f, l);
    assert Take(Relabel(f, dense), config.denseDepth) == Relabel(f, d);
    assert RowsOf(l) <= RowsOf(lexical) && RowsOf(d) <= RowsOf(dense);
    var fused := FusionOf(config, lexical, dense);
    FusionRelabels(config, f, rows, l, d, fused);
    FusionUnique(config, Relabel(f, l), Relabel(f, d), FusionOf(config, Relabel(f, lexical), Relabel(f, dense)), RelabelFused(f, fused));
    forall x | x in fused
      ensures x.row in rows
    {
      FusionElement(config, l, d, fused, x);
      RowsRanked(l, x.row);
      RowsRanked(d, x.row);
    }
  }

  lemma {:induction false} AssembleRenumbered(v: View, docs: map<RowId, LexicalDoc>, fused: seq<FusedRow>)
    requires Agree(v, docs) && forall x | x in fused :: LiveAt(v, x.row)
    ensures Assemble(Compact(v), Substitute(docs, RowMapping(v)), RelabelFused(Renumbering(v), fused)) == Assemble(v, docs, fused)
  {
    hide Agree, Substitute, RowMapping, Compact, LiveRows, LiveCount, NewRow;
    if fused != [] {
      var last := |fused| - 1;
      assert RelabelFused(Renumbering(v), fused)[..last] == RelabelFused(Renumbering(v), fused[..last]);
      assert forall x | x in fused[..last] :: x in fused;
      AssembleRenumbered(v, docs, fused[..last]);
      assert fused[last] in fused;
      AgreeKey(v, docs, fused[last].row);
      CompactAt(v, fused[last].row);
      RenumberedDoc(v, docs, fused[last].row);
    }
  }

  lemma SameAnswer(v: View, docs: map<RowId, LexicalDoc>, config: FusionConfig,
                   lexical: seq<Scored>, dense: seq<Scored>, topK: nat)
    requires Sane(config) && Agree(v, docs) && RowsOf(lexical) <= LiveSet(v) && RowsOf(dense) <= LiveSet(v)
    ensures var f := Renumbering(v);
      Assemble(Compact(v), Substitute(docs, RowMapping(v)), Take(FusionOf(config, Relabel(f, lexical), Relabel(f, dense)), topK))
      == Assemble(v, docs, Take(FusionOf(config, lexical, dense), topK))
  {
    var f := Renumbering(v);
    RenumberingStrict(v);
    FusionRenumbered(config, f, LiveSet(v), lexical, dense);
    var fused := FusionOf(config, lexical, dense);
    assert Take(RelabelFused(f, fused), topK) == RelabelFused(f, Take(fused, topK));
    LiveRowsMeaning(v);
    assert forall x | x in Take(fused, topK) :: x in fused;
    AssembleRenumbered(v, docs, Take(fused, topK));
  }

  lemma LexicalFailure(engine: Engine, docs: map<RowId, LexicalDoc>, n: nat, text: string, depth: nat, f: RowId -> RowId)
    ensures var answer := LexicalAnswer(engine, docs, n, text, depth);
      answer.Err? ==> RelabelError(f, answer.error) == answer.error
  {
  }

  function RelabelResponse(f: RowId -> RowId, r: Result<SearchResponse, RetrievalError>): Result<SearchResponse, RetrievalError> {
    match r
    case Err(e) => Err(RelabelError(f, e))
    case Ok(response) =>
      if response.denseError.None? then r else Ok(response.(denseError := Some(RelabelError(f, response.denseError.value))))
  }

  /** Every search gives the same response, or the same error, before and after a compaction, up
      to the new number of a row whose score it refuses. */
  lemma SearchRenumbered(engine: Engine, v: View, docs: map<RowId, LexicalDoc>, dims: nat, model: string,
                         text: string, topK: nat, config: FusionConfig, role: Role, runLexical: bool)
    requires Sane(config) && Agree(v, docs)
    ensures RunSpec(engine, Compact(v), Substitute(docs, RowMapping(v)), dims, model, text, topK, config, role, runLexical)
      == RelabelResponse(Renumbering(v), RunSpec(engine, v, docs, dims, model, text, topK, config, role, runLexical))
  {
    hide SearchSpec, LexicalAnswer, Assemble, Substitute, Compact, RowMapping, LiveRows, Agree, LiveSet, NewRow, Relabel, RowsOf,
      StrictOn, IsFusion;
    var embedded := engine.embed(text, role);
    if embedded.Ok? {
      var f := Renumbering(v);
      LexicalRenumbered(engine, v, docs, text, config.lexicalDepth);
      LexicalFailure(engine, docs, |v|, text, config.lexicalDepth, f);
      DenseRenumbered(v, dims, model, embedded.value, engine.modelId, config.denseDepth, engine.similarity);
      var lexical := if runLexical then LexicalAnswer(engine, docs, |v|, text, config.lexicalDepth) else Ok([]);
      var dense := SearchSpec(VectorsOf(v), MaskOf(v), dims, model, embedded.value, engine.modelId, config.denseDepth, engine.similarity);
      NoneRenumbered(v);
      SameAnswer(v, docs, config, RowsOrNone(lexical), RowsOrNone(dense), topK);
      if lexical.Err? && dense.Err? {
        assert RelabelError(f, BothRetrieversFailed(lexical.error, dense.error))
          == BothRetrieversFailed(lexical.error, RelabelError(f, dense.error));
      }
    }
  }

  // ---------- The one trace of a compaction ----------

  lemma {:induction false} NewRowFixed(v: View, r: RowId)
    requires r <= |v|
    ensures NewRow(v, r) <= r
    ensures NewRow(v, r) == r <==> forall i | 0 <= i < r :: v[i].live
  {
    if r > 0 {
      NewRowFixed(v, r - 1);
      NewRowStep(v, r - 1);
    }
  }

  /** The dense search refuses a live row's score, and a dead row stands before that row. */
  ghost predicate RefusalMoves(engine: Engine, v: View, dims: nat, model: string, text: string, config: FusionConfig, role: Role) {
    var embedded := engine.embed(text, role);
    && embedded.Ok?
    && var dense := SearchSpec(VectorsOf(v), MaskOf(v), dims, model, embedded.value, engine.modelId, config.denseDepth, engine.similarity);
      && dense.Err? && dense.error.NonFiniteScore?
      && exists i :: 0 <= i < dense.error.row && i < |v| && !v[i].live
  }

  lemma {:induction false} FirstBadBound(scores: seq<Score>, live: seq<bool>)
    ensures FirstBad(scores, live).Some? ==> FirstBad(scores, live).value < |scores|
  {
    if scores != [] {
      FirstBadBound(scores[..|scores| - 1], live);
    }
  }

  lemma RefusedRow(v: View, dims: nat, model: string, query: Vector, asked: string, limit: nat,
                   similarity: (Vector, Vector) -> Score)
    ensures var dense := SearchSpec(VectorsOf(v), MaskOf(v), dims, model, query, asked, limit, similarity);
      dense.Err? ==> (RelabelError(Renumbering(v), dense.error) == dense.error
        <==> !(dense.error.NonFiniteScore? && exists i :: 0 <= i < dense.error.row && i < |v| && !v[i].live))
  {
    hide FirstBad, NewRow;
    FirstBadBound(ScoreAll(VectorsOf(v), query, similarity), MaskOf(v));
    var dense := SearchSpec(VectorsOf(v), MaskOf(v), dims, model, query, asked, limit, similarity);
    if dense.Err? && dense.error.NonFiniteScore? {
      NewRowFixed(v, dense.error.row);
    }
  }

  /** A search gives the same response, or the same error, before and after a compaction exactly
      when no refused score is behind a dead row. */
  lemma SearchUnseenByCompaction(engine: Engine, v: View, docs: map<RowId, LexicalDoc>, dims: nat, model: string,
                                 text: string, topK: nat, config: FusionConfig, role: Role, runLexical: bool)
    requires Sane(config) && Agree(v, docs)
    ensures RunSpec(engine, Compact(v), Substitute(docs, RowMapping(v)), dims, model, text, topK, config, role, runLexical)
        == RunSpec(engine, v, docs, dims, model, text, topK, config, role, runLexical)
      <==> !RefusalMoves(engine, v, dims, model, text, config, role)
  {
    hide SearchSpec, LexicalAnswer, Assemble, Substitute, Compact, RowMapping, Agree, NewRow, IsFusion;
    SearchRenumbered(engine, v, docs, dims, model, text, topK, config, role, runLexical);
    var embedded := engine.embed(text, role);
    if embedded.Ok? {
      LexicalFailure(engine, docs, |v|, text, config.lexicalDepth, Renumbering(v));
      RefusedRow(v, dims, model, embedded.value, engine.modelId, config.denseDepth, engine.similarity);
    }
  }

  /** An engine whose similarities are not finite. */
  function OverflowingEngine(vec: Vector): Engine {
    Engine("m", (text: string, role: Role) => Ok(vec), (text: string) => None,
      (text: string, corpus: multiset<LexicalDoc>, doc: LexicalDoc) => None, (a: Vector, b: Vector) => NonFinite)
  }

  /** A dead row before a refused one: the refusal names row 1 before the compaction and row 0
      after it. */
  lemma RefusalMovesExists(rec: ChunkRecord, doc: LexicalDoc, value: Half, text: string, topK: nat)
    requires Mirrors(doc, rec)
    ensures var v := [StoredRow(rec, false, [value]), StoredRow(rec, true, [value])];
      var docs, engine := map[1 := doc], OverflowingEngine([value]);
      && Agree(v, docs) && UniqueLive(v) && AllWidth(VectorsOf(v), 1)
      && RunSpec(engine, Compact(v), Substitute(docs, RowMapping(v)), 1, "m", text, topK, DEFAULT_CONFIG, Query, true)
        != RunSpec(engine, v, docs, 1, "m", text, topK, DEFAULT_CONFIG, Query, true)
  {
    hide Substitute, RowMapping, Compact;
    var v := [StoredRow(rec, false, [value]), StoredRow(rec, true, [value])];
    var docs, engine := map[1 := doc], OverflowingEngine([value]);
    var scores := ScoreAll(VectorsOf(v), [value], engine.similarity);
    assert FirstBad(scores[..1][..0], MaskOf(v)).None?;
    assert FirstBad(scores[..1], MaskOf(v)).None?;
    assert FirstBad(scores, MaskOf(v)) == Some(1);
    SearchUnseenByCompaction(engine, v, docs, 1, "m", text, topK, DEFAULT_CONFIG, Query, true);
    assert !v[0].live;
  }
}
