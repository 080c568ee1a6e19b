// The end of an index run in the daemon: a possible compaction, then a rebuilt resident state.
// Whoever searches before and after cannot tell that rows were renumbered, except by the number
// of a row whose score is refused.

module Rebuild {
  import opened Wrappers
  import opened Records
  import opened StoreView
  import opened StoreDir
  import opened Crash
  import opened Store
  import opened Lexical
  import opened Agreement
  import opened Pass
  import opened Pipeline
  import opened Dense
  import opened Fusion
  import opened Search
  import opened SearchInvariance
  import opened Snapshot

  /** The number a row has after a possible compaction. */
  function SettledRow(threshold: real, v: View): RowId -> RowId {
    if MostlyDead(threshold, v) then Renumbering(v) else r => r
  }

  /** Every search, of either kind and at every `topK`, answers alike on two states up to the
      renumbering `f`, and entirely alike unless it refuses the score of a row that moves. */
  ghost predicate AnswersAlike(v: View, docs: map<RowId, LexicalDoc>, v': View, docs': map<RowId, LexicalDoc>,
                               f: RowId -> RowId, dims: nat, model: string) {
    forall engine: Engine, text, topK, config, role, runLexical | Sane(config) ::
      var before := RunSpec(engine, v, docs, dims, model, text, topK, config, role, runLexical);
      var after := RunSpec(engine, v', docs', dims, model, text, topK, config, role, runLexical);
      after == RelabelResponse(f, before) && (!RefusalMoves(engine, v, dims, model, text, config, role) ==> after == before)
  }

  lemma {:induction false} ErrorUnmoved(e: RetrievalError)
    ensures RelabelError(r => r, e) == e
  {
    if e.BothRetrieversFailed? {
      ErrorUnmoved(e.lexical);
      ErrorUnmoved(e.dense);
    }
  }

  lemma ResponseUnmoved(r: Result<SearchResponse, RetrievalError>)
    ensures RelabelResponse(r => r, r) == r
  {
    match r
    case Err(e) => ErrorUnmoved(e);
    case Ok(response) =>
      if response.denseError.Some? {
        ErrorUnmoved(response.denseError.value);
      }
  }

  lemma SettledAnswersAlike(threshold: real, v: View, docs: map<RowId, LexicalDoc>, dims: nat, model: string)
    requires Agree(v, docs)
    ensures AnswersAlike(v, docs, Settled(threshold, v), SettledDocs(threshold, v, docs), SettledRow(threshold, v), dims, model)
  {
    hide Agree, RunSpec, RelabelResponse, RefusalMoves, Sane;
    forall engine: Engine, text, topK, config, role, runLexical | Sane(config)
      ensures var before := RunSpec(engine, v, docs, dims, model, text, topK, config, role, runLexical);
        var after := RunSpec(engine, Settled(threshold, v), SettledDocs(threshold, v, docs), dims, model, text, topK, config, role, runLexical);
        && after == RelabelResponse(SettledRow(threshold, v), before)
        && (!RefusalMoves(engine, v, dims, model, text, config, role) ==> after == before)
    {
      if MostlyDead(threshold, v) {
        SearchRenumbered(engine, v, docs, dims, model, text, topK, config, role, runLexical);
        SearchUnseenByCompaction(engine, v, docs, dims, model, text, topK, config, role, runLexical);
      } else {
        ResponseUnmoved(RunSpec(engine, v, docs, dims, model, text, topK, config, role, runLexical));
      }
    }
  }

  /** The resident state that is swapped in after a compaction answers every search as the state
      before the compaction would have. */
  method CompactAndRebuild(indexer: Indexer, generation: string) returns (rebuilt: Resident)
    requires indexer.Valid() && indexer.Balanced() && NameFresh(Op.CompactStore(generation), indexer.store.disk)
    requires indexer.store.Contents().dims > 0
    modifies indexer, indexer.store, indexer.lexical
    ensures rebuilt.Valid() && rebuilt.store == indexer.store && rebuilt.lexical == indexer.lexical
    ensures rebuilt.dense.dims == old(indexer.store.Contents()).dims && rebuilt.dense.modelId == old(indexer.store.Contents()).modelId
    ensures AnswersAlike(old(indexer.store.View()), old(indexer.lexical.Docs()), rebuilt.store.View(), rebuilt.lexical.Docs(),
      SettledRow(indexer.config.compactThreshold, old(indexer.store.View())), rebuilt.dense.dims, rebuilt.dense.modelId)
  {
    hide Consistent, Uniform, ViewOf, Agree, Represents, AsMap, CarryAll, AnswersAlike, Settled, SettledDocs, SettledRow, LiveRows;
    ghost var v, docs, c := indexer.store.View(), indexer.lexical.Docs(), indexer.store.Contents();
    indexer.MaybeCompact(generation);
    SettledAnswersAlike(indexer.config.compactThreshold, v, docs, c.dims, c.modelId);
    rebuilt := RebuildResident(indexer.store, indexer.lexical);
  }

  /** Two residents, the one that was searched before the compaction and the one rebuilt after
      it, report the same to a client up to the number of a refused row, and entirely the same if
      no row is refused behind a dead one. */
  method SearchAcross(before: Resident, indexer: Indexer, generation: string, engine: Engine, query: string, topK: nat, config: FusionConfig)
      returns (first: Result<SearchResponse, SearchFailure>, second: Result<SearchResponse, SearchFailure>)
    requires Sane(config) && before.Valid() && before.store == indexer.store && before.lexical == indexer.lexical
    requires before.dense.dims == before.store.Contents().dims && before.dense.modelId == before.store.Contents().modelId
    requires indexer.Valid() && indexer.Balanced() && NameFresh(Op.CompactStore(generation), indexer.store.disk)
    modifies indexer, indexer.store, indexer.lexical
    ensures var f := SettledRow(indexer.config.compactThreshold, old(indexer.store.View()));
      exists r :: first == Reported(r) && second == Reported(RelabelResponse(f, r))
    ensures !RefusalMoves(engine, old(indexer.store.View()), before.dense.dims, before.dense.modelId, query, config, Query) ==> first == second
  {
    hide Consistent, Uniform, ViewOf, Agree, Represents, AsMap, CarryAll, Settled, SettledDocs, SettledRow, LiveRows, RunSpec,
      RelabelResponse, RefusalMoves;
    ghost var r := RunSpec(engine, indexer.store.View(), indexer.lexical.Docs(), before.dense.dims, before.dense.modelId,
      query, topK, config, Query, true);
    first := before.Search(engine, query, topK, config);
    var rebuilt := CompactAndRebuild(indexer, generation);
    second := rebuilt.Search(engine, query, topK, config);
    assert first == Reported(r);
  }
}
