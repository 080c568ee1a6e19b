// Searches while an index run owns the store: the serving cell hands them a frozen copy, and the
// copy answers as the resident state did when the run began.

module Continuity {
  import opened Wrappers
  import opened Records
  import opened StoreView
  import Crash
  import opened Lexical
  import opened Agreement
  import opened Pass
  import opened Pipeline
  import opened Dense
  import opened Fusion
  import opened Search
  import opened Snapshot
  import Serving

  /** What a search on this target answers. */
  ghost function Answer(engine: Engine, target: Serving.Target, dims: nat, model: string, text: string, topK: nat, config: FusionConfig):
      Result<SearchResponse, SearchFailure>
    requires Sane(config)
  {
    match target
    case Borrowed(c) => ResidentSpec(engine, c.view, c.docs, dims, model, text, topK, config, Query, true)
    case Frozen(c) => FrozenSpec(engine, c.view, c.docs, dims, model, text, topK, config, Query)
  }

  /** In every interleaving, a search that begins is answered as a resident holding what was last
      published would answer it, unless an index run is under way and both retrievers fail or the
      embedder fails other than for want of a GPU; and then it is not. */
  lemma SearchAnswersPublished(events: seq<Serving.Event>, client: nat, engine: Engine, dims: nat, model: string,
                               text: string, topK: nat, config: FusionConfig)
    requires Sane(config) && client !in Serving.Run(Serving.INITIAL, events).searches && !Serving.Run(Serving.INITIAL, events).stopped
    ensures var s := Serving.Run(Serving.INITIAL, events);
      var t := Serving.Apply(s, Serving.SearchBegins(client));
      client in t.searches ==>
        && s.published.Some? && s.published == Serving.LastServed(events)
        && var c := s.published.value;
          (Answer(engine, t.searches[client], dims, model, text, topK, config)
             == ResidentSpec(engine, c.view, c.docs, dims, model, text, topK, config, Query, true)
           <==> s.serving.Ready? || (!BothFail(engine, c.view, c.docs, dims, model, text, config, Query) && EmbedsAlike(engine, text, Query)))
  {
    hide FrozenSpec, ResidentSpec, BothFail, Serving.Run;
    Serving.SearchSeesPublished(events, client);
    var s := Serving.Run(Serving.INITIAL, events);
    if s.published.Some? {
      var c := s.published.value;
      FrozenSearchIff(engine, c.view, c.docs, dims, model, text, topK, config);
    }
  }

  /** One search of the resident state, a split, an index run that rewrites the store and the
      lexical index, however it ends, and the same search of the copy: the client gets the same
      answer, under the condition above. */
  method SearchDuringIndex(resident: Resident, indexer: Indexer, work: seq<WorkItem>, git: Worktree, generation: string, commit: Option<string>,
                           engine: Engine, query: string, topK: nat, config: FusionConfig)
      returns (first: Result<SearchResponse, SearchFailure>, run: Result<IndexReport, IndexError>,
               second: Result<SearchResponse, SearchFailure>)
    requires Sane(config) && resident.Valid() && indexer.Valid() && DistinctRels(work)
    requires resident.store == indexer.store && resident.lexical == indexer.lexical
    requires Crash.NameFresh(Crash.Op.CompactStore(generation), indexer.store.disk)
    modifies indexer, indexer.store, indexer.lexical
    ensures first == second <==>
      !BothFail(engine, old(resident.store.View()), old(resident.lexical.Docs()), resident.dense.dims, resident.dense.modelId, query, config, Query)
      && EmbedsAlike(engine, query, Query)
  {
    hide Agree, Represents, AsMap, CarryAll, FrozenSpec, ResidentSpec, BothFail;
    ghost var v, docs := resident.store.View(), resident.lexical.Docs();
    first := resident.Search(engine, query, topK, config);
    var frozen := resident.SplitForIndex(commit);
    ghost var items;
    run, items := indexer.IndexAll(work, git, generation);
    second := frozen.Search(engine, query, topK, config, v, docs);
    FrozenSearchIff(engine, v, docs, resident.dense.dims, resident.dense.modelId, query, topK, config);
  }
}
