// The daemon's serving state: one shared cell that the loader, the searches, a detached index
// worker and the shutdown path read and write in any interleaving. Each event below is one
// section under the cell's lock, or one operation on the indexing flag.

module Serving {
  import opened Wrappers
  import opened Records
  import opened StoreView
  import opened Lexical

  /** What a resident holds, by value: the store view and the documents. */
  datatype Contents = Contents(view: View, docs: map<RowId, LexicalDoc>)

  datatype ServingState =
    | Starting
    | Ready(resident: Contents)
    | Indexing(frozen: Contents)
    | Stale(reason: string)

  /** Where an index worker stands. From `Splitting` to `Settling(Ready(_))` it owns the store. */
  datatype Phase =
    | Claimed
    | Splitting(taken: Contents)
    | Publishing(taken: Contents)
    | Running(base: Contents)
    | Settling(outcome: ServingState)
    | Clearing

  /** What a running search holds on to. */
  datatype Target = Borrowed(resident: Contents) | Frozen(frozen: Contents)

  datatype Shared = Shared(
    serving: ServingState,
    indexing: bool,
    workers: map<nat, Phase>,
    searches: map<nat, Target>,
    loading: bool,
    stopped: bool,
    /** The contents most recently made available to searches. */
    published: Option<Contents>
  )

  const INITIAL := Shared(Starting, false, map[], map[], true, false, None)

  datatype Event =
    | Load(loaded: Result<Contents, string>)
    | SearchBegins(client: nat)
    | SearchEnds(client: nat)
    | IndexRequested(worker: nat)
    | Take(worker: nat)
    | Split(worker: nat, splits: bool)
    | Publish(worker: nat)
    | IndexEnds(worker: nat, indexed: Result<Contents, string>)
    | Settle(worker: nat)
    | ClearFlag(worker: nat)
    | Stop

  predicate Borrowing(s: Shared) {
    exists c :: c in s.searches && s.searches[c].Borrowed?
  }

  /** The compare-and-swap on the flag: a worker starts only when it was clear. */
  function OnIndexRequested(s: Shared, w: nat): Shared {
    if s.indexing || s.stopped || w in s.workers then s
    else s.(indexing := true, workers := s.workers[w := Claimed])
  }

  /** Under the write lock: take the resident if nobody borrows it, else put back what was there. */
  function OnTake(s: Shared, w: nat): Shared {
    if w !in s.workers || !s.workers[w].Claimed? then s
    else if s.serving.Ready? && !Borrowing(s) then
      s.(serving := Starting, workers := s.workers[w := Splitting(s.serving.resident)])
    else
      s.(workers := s.workers[w := Clearing])
  }

  function OnSplit(s: Shared, w: nat, splits: bool): Shared {
    if w !in s.workers || !s.workers[w].Splitting? then s
    else s.(workers := s.workers[w := if splits then Publishing(s.workers[w].taken) else Clearing])
  }

  function OnPublish(s: Shared, w: nat): Shared {
    if w !in s.workers || !s.workers[w].Publishing? then s
    else s.(serving := Indexing(s.workers[w].taken), workers := s.workers[w := Running(s.workers[w].taken)])
  }

  function OnIndexEnds(s: Shared, w: nat, indexed: Result<Contents, string>): Shared {
    if w !in s.workers || !s.workers[w].Running? then s
    else
      var outcome := match indexed case Ok(c) => Ready(c) case Err(reason) => Stale(reason);
      s.(workers := s.workers[w := Settling(outcome)])
  }

  function OnSettle(s: Shared, w: nat): Shared {
    if w !in s.workers || !s.workers[w].Settling? then s
    else
      var outcome := s.workers[w].outcome;
      s.(serving := outcome, workers := s.workers[w := Clearing],
         published := if outcome.Ready? then Some(outcome.resident) else s.published)
  }

  function OnClearFlag(s: Shared, w: nat): Shared {
    if w !in s.workers || !s.workers[w].Clearing? then s
    else s.(indexing := false, workers := s.workers - {w})
  }

  function OnLoad(s: Shared, loaded: Result<Contents, string>): Shared {
    if !s.loading then s
    else
      match loaded
      case Ok(c) => s.(serving := Ready(c), loading := false, published := Some(c))
      case Err(reason) => s.(serving := Stale(reason), loading := false)
  }

  function OnSearchBegins(s: Shared, c: nat): Shared {
    if c in s.searches || s.stopped then s
    else
      match s.serving
      case Ready(r) => s.(searches := s.searches[c := Borrowed(r)])
      case Indexing(f) => s.(searches := s.searches[c := Frozen(f)])
      case _ => s
  }

  /** Every connection has ended before the cell is reset; a detached worker may still run. */
  function OnStop(s: Shared): Shared {
    if s.stopped || s.searches != map[] then s else s.(serving := Starting, stopped := true)
  }

  function Apply(s: Shared, e: Event): Shared {
    match e
    case Load(loaded) => OnLoad(s, loaded)
    case SearchBegins(c) => OnSearchBegins(s, c)
    case SearchEnds(c) => s.(searches := s.searches - {c})
    case IndexRequested(w) => OnIndexRequested(s, w)
    case Take(w) => OnTake(s, w)
    case Split(w, splits) => OnSplit(s, w, splits)
    case Publish(w) => OnPublish(s, w)
    case IndexEnds(w, indexed) => OnIndexEnds(s, w, indexed)
    case Settle(w) => OnSettle(s, w)
    case ClearFlag(w) => OnClearFlag(s, w)
    case Stop => OnStop(s)
  }

  function Run(s: Shared, events: seq<Event>): Shared {
    if events == [] then s else Apply(Run(s, events[..|events| - 1]), events[|events| - 1])
  }

  // ---------- What every interleaving keeps ----------

  predicate Owns(p: Phase) {
    p.Splitting? || p.Publishing? || p.Running? || (p.Settling? && p.outcome.Ready?)
  }

  ghost function OwningWorkers(s: Shared): set<nat> {
    set w | w in s.workers && Owns(s.workers[w])
  }

  /** Places that own the store: the Ready cell, the loader, or workers. */
  ghost function Owners(s: Shared): nat {
    (if s.serving.Ready? then 1 else 0) + (if s.loading then 1 else 0) + |OwningWorkers(s)|
  }

  ghost predicate FlagIsWorker(s: Shared) {
    && (s.indexing <==> s.workers != map[])
    && (forall a, b | a in s.workers && b in s.workers :: a == b)
  }

  /** How a worker's phase constrains the cell. */
  ghost predicate PhaseFits(s: Shared, p: Phase) {
    && (Owns(p) ==> !s.serving.Ready? && !s.loading)
    && (p.Settling? ==> !s.loading && !s.serving.Ready? && (p.outcome.Ready? || p.outcome.Stale?))
    && (p.Splitting? || p.Publishing? ==> s.serving.Starting?)
    && (p.Running? ==> s.serving == Indexing(p.base) || (s.stopped && s.serving.Starting?))
    && (s.serving.Indexing? ==> p.Running? || p.Settling?)
  }

  ghost predicate SearchesFit(s: Shared) {
    && (forall c | c in s.searches && s.searches[c].Borrowed? :: s.serving == Ready(s.searches[c].resident))
    && (s.stopped ==> s.searches == map[])
  }

  ghost predicate CellFits(s: Shared) {
    && (s.loading ==> s.serving.Starting?)
    && (s.serving.Indexing? ==> s.workers != map[])
    && (s.serving.Ready? ==> s.published == Some(s.serving.resident))
    && (s.serving.Indexing? ==> s.published == Some(s.serving.frozen))
  }

  ghost predicate PhasesFit(s: Shared) {
    forall w | w in s.workers :: PhaseFits(s, s.workers[w])
  }

  ghost predicate PublishedIsTaken(s: Shared) {
    forall w | w in s.workers ::
      && (s.workers[w].Splitting? || s.workers[w].Publishing? ==> s.published == Some(s.workers[w].taken))
  }

  ghost predicate Safe(s: Shared) {
    FlagIsWorker(s) && PhasesFit(s) && SearchesFit(s) && CellFits(s) && PublishedIsTaken(s)
  }

  lemma LoadSafe(s: Shared, loaded: Result<Contents, string>)
    requires Safe(s)
    ensures Safe(OnLoad(s, loaded))
  {
  }

  lemma SearchesSafe(s: Shared, c: nat)
    requires Safe(s)
    ensures Safe(OnSearchBegins(s, c)) && Safe(s.(searches := s.searches - {c}))
  {
  }

  lemma FlagSafe(s: Shared, w: nat)
    requires Safe(s)
    ensures Safe(OnIndexRequested(s, w)) && Safe(OnClearFlag(s, w))
  {
    assert s.workers == map[] <==> s.workers.Keys == {};
    assert w in s.workers ==> s.workers.Keys == {w};
    assert w in s.workers ==> s.workers - {w} == map[];
  }

  lemma TakeSafe(s: Shared, w: nat)
    requires Safe(s)
    ensures Safe(OnTake(s, w))
  {
  }

  lemma SplitSafe(s: Shared, w: nat, splits: bool)
    requires Safe(s)
    ensures Safe(OnSplit(s, w, splits))
  {
  }

  lemma PublishSafe(s: Shared, w: nat)
    requires Safe(s)
    ensures Safe(OnPublish(s, w))
  {
  }

  lemma IndexEndsSafe(s: Shared, w: nat, indexed: Result<Contents, string>)
    requires Safe(s)
    ensures Safe(OnIndexEnds(s, w, indexed))
  {
  }

  lemma SettleSafe(s: Shared, w: nat)
    requires Safe(s)
    ensures Safe(OnSettle(s, w))
  {
  }

  lemma StopSafe(s: Shared)
    requires Safe(s)
    ensures Safe(OnStop(s))
  {
  }

  lemma StepSafe(s: Shared, e: Event)
    requires Safe(s)
    ensures Safe(Apply(s, e))
  {
    hide Safe, OnLoad, OnSearchBegins, OnIndexRequested, OnTake, OnSplit, OnPublish, OnIndexEnds, OnSettle, OnClearFlag, OnStop;
    match e
    case Load(loaded) => LoadSafe(s, loaded);
    case SearchBegins(c) => SearchesSafe(s, c);
    case SearchEnds(c) => SearchesSafe(s, c);
    case IndexRequested(w) => FlagSafe(s, w);
    case Take(w) => TakeSafe(s, w);
    case Split(w, splits) => SplitSafe(s, w, splits);
    case Publish(w) => PublishSafe(s, w);
    case IndexEnds(w, indexed) => IndexEndsSafe(s, w, indexed);
    case Settle(w) => SettleSafe(s, w);
    case ClearFlag(w) => FlagSafe(s, w);
    case Stop => StopSafe(s);
  }

  /** In every interleaving, from the daemon's start. */
  lemma {:induction false} RunSafe(events: seq<Event>)
    ensures Safe(Run(INITIAL, events))
  {
    if events != [] {
      RunSafe(events[..|events| - 1]);
      StepSafe(Run(INITIAL, events[..|events| - 1]), events[|events| - 1]);
    }
  }

  lemma AtMostOne(ws: set<nat>)
    requires forall a, b | a in ws && b in ws :: a == b
    ensures |ws| <= 1
  {
    if w :| w in ws {
      assert ws == {w};
    }
  }

  /** At most one index worker exists, the flag says exactly whether it does, `Indexing` is
      never seen with a clear flag, and the store has at most one owner. */
  lemma OneWorkerOneOwner(events: seq<Event>)
    ensures var s := Run(INITIAL, events);
      && |s.workers| <= 1
      && (s.indexing <==> |s.workers| == 1)
      && (s.serving.Indexing? ==> s.indexing)
      && Owners(s) <= 1
  {
    RunSafe(events);
    var s := Run(INITIAL, events);
    AtMostOne(s.workers.Keys);
    AtMostOne(OwningWorkers(s));
    if OwningWorkers(s) != {} {
      var w :| w in OwningWorkers(s);
      assert PhaseFits(s, s.workers[w]);
    } else {
      assert |OwningWorkers(s)| == 0;
    }
  }

  /** A worker takes the resident only when no search borrows it, and a search that holds the
      resident finds it in place until it lets go. */
  lemma BorrowedStays(events: seq<Event>, e: Event, client: nat)
    ensures var s := Run(INITIAL, events);
      client in s.searches && s.searches[client].Borrowed? && e != SearchEnds(client) ==>
      Apply(s, e).serving == s.serving == Ready(s.searches[client].resident)
  {
    RunSafe(events);
    var s := Run(INITIAL, events);
    if client in s.searches && s.searches[client].Borrowed? {
      assert Borrowing(s);
    }
  }

  // ---------- What is in service, told from the events alone ----------

  /** The last event changes the state. */
  predicate TakesEffect(events: seq<Event>) {
    events != [] && Run(INITIAL, events) != Run(INITIAL, events[..|events| - 1])
  }

  /** What the last index run of worker `w` came to. */
  function LastEnd(events: seq<Event>, w: nat): Option<Result<Contents, string>> {
    if events == [] then None
    else
      var last := events[|events| - 1];
      if TakesEffect(events) && last.IndexEnds? && last.worker == w then Some(last.indexed)
      else LastEnd(events[..|events| - 1], w)
  }

  function InService(r: Result<Contents, string>): ServingState {
    match r
    case Ok(c) => Ready(c)
    case Err(reason) => Stale(reason)
  }

  /** What the last load, or the last index run that settled, brought: its contents. */
  function LastServed(events: seq<Event>): Option<Contents> {
    if events == [] then None
    else
      var last, before := events[|events| - 1], LastServed(events[..|events| - 1]);
      var brought :=
        if !TakesEffect(events) then None
        else if last.Load? then Some(last.loaded)
        else if last.Settle? then LastEnd(events, last.worker)
        else None;
      if brought.Some? && brought.value.Ok? then Some(brought.value.value) else before
  }

  /** What the cell shows. */
  function CellOf(events: seq<Event>): ServingState {
    if events == [] then Starting
    else
      var init := events[..|events| - 1];
      var last, before := events[|events| - 1], CellOf(init);
      if !TakesEffect(events) then before
      else
        match last
        case Load(loaded) => InService(loaded)
        case Take(_) => if before.Ready? && !Borrowing(Run(INITIAL, init)) then Starting else before
        case Publish(_) => if LastServed(events).Some? then Indexing(LastServed(events).value) else Starting
        case Settle(w) => if LastEnd(events, w).Some? then InService(LastEnd(events, w).value) else before
        case Stop => Starting
        case _ => before
  }

  lemma StepEnds(s: Shared, e: Event, w: nat)
    requires w in Apply(s, e).workers && Apply(s, e).workers[w].Settling?
    ensures var outcome := Apply(s, e).workers[w].outcome;
      if e.IndexEnds? && e.worker == w && Apply(s, e) != s then outcome == InService(e.indexed)
      else w in s.workers && s.workers[w] == Settling(outcome)
  {
  }

  lemma {:induction false} EndsRecorded(events: seq<Event>, w: nat)
    requires w in Run(INITIAL, events).workers && Run(INITIAL, events).workers[w].Settling?
    ensures LastEnd(events, w).Some? && Run(INITIAL, events).workers[w].outcome == InService(LastEnd(events, w).value)
  {
    if events != [] {
      hide Apply;
      var init := events[..|events| - 1];
      var s := Run(INITIAL, init);
      StepEnds(s, events[|events| - 1], w);
      if w in s.workers && s.workers[w].Settling? {
        EndsRecorded(init, w);
      }
    }
  }

  /** In every interleaving, the cell shows and publishes exactly what the events say: the argument
      of the last load or settled index run that took effect, and while a run is under way the
      contents from before it. */
  lemma {:induction false} ServedIsLast(events: seq<Event>)
    ensures var s := Run(INITIAL, events);
      s.published == LastServed(events) && s.serving == CellOf(events)
  {
    if events != [] {
      var init, last := events[..|events| - 1], events[|events| - 1];
      ServedIsLast(init);
      RunSafe(init);
      if last.Settle? {
        var s := Run(INITIAL, init);
        if last.worker in s.workers && s.workers[last.worker].Settling? {
          EndsRecorded(init, last.worker);
        }
      }
    }
  }

  /** A search begins exactly when something is published to search: the resident, or while an
      index runs the frozen copy of what was resident when it began. Either way it sees what the
      last load or settled index run brought. */
  lemma SearchSeesPublished(events: seq<Event>, client: nat)
    requires client !in Run(INITIAL, events).searches && !Run(INITIAL, events).stopped
    ensures var s := Run(INITIAL, events);
      var t := Apply(s, SearchBegins(client));
      && (client in t.searches <==> s.serving.Ready? || s.serving.Indexing?)
      && (client in t.searches ==> s.published.Some?)
      && (client in t.searches ==>
            t.searches[client] == if s.serving.Ready? then Borrowed(s.published.value) else Frozen(s.published.value))
      && s.published == LastServed(events)
  {
    RunSafe(events);
    ServedIsLast(events);
  }

  // ---------- A refused attempt leaves no trace ----------

  lemma RunSnoc(s: Shared, events: seq<Event>, e: Event)
    ensures Run(s, events + [e]) == Apply(Run(s, events), e)
  {
    assert (events + [e])[..|events|] == events;
  }

  lemma Three(s: Shared, a: Event, b: Event, c: Event)
    ensures Run(s, [a, b, c]) == Apply(Apply(Apply(s, a), b), c)
  {
    RunSnoc(s, [], a);
    RunSnoc(s, [a], b);
    RunSnoc(s, [a, b], c);
    assert [] + [a] == [a] && [a] + [b] == [a, b] && [a, b] + [c] == [a, b, c];
  }

  /** An index request that meets a borrowed or unready cell puts everything back. */
  lemma RefusedRestores(s: Shared, w: nat)
    requires Safe(s) && !s.indexing && !s.stopped
    requires !s.serving.Ready? || Borrowing(s)
    ensures Run(s, [IndexRequested(w), Take(w), ClearFlag(w)]) == s
  {
    Three(s, IndexRequested(w), Take(w), ClearFlag(w));
    var t := Apply(s, IndexRequested(w));
    assert s.workers == map[] && t.workers == map[w := Claimed];
    assert t.searches == s.searches;
    var u := Apply(t, Take(w));
    assert u.workers == map[w := Clearing];
    assert u.workers - {w} == map[];
  }

  // ---------- Can the daemon still become ready? ----------

  /** Somebody still has the store. */
  ghost predicate Recoverable(s: Shared) {
    s.serving.Ready? || s.loading || OwningWorkers(s) != {}
  }

  lemma LostStays(s: Shared, e: Event)
    requires Safe(s) && !Recoverable(s)
    ensures !Recoverable(Apply(s, e))
  {
    var t := Apply(s, e);
    forall w | w in s.workers
      ensures !Owns(s.workers[w])
    {
      assert w !in OwningWorkers(s);
    }
    assert !t.serving.Ready? && !t.loading;
    assert OwningWorkers(t) == {};
  }

  lemma {:induction false} LostForever(s: Shared, events: seq<Event>)
    requires Safe(s) && !Recoverable(s)
    ensures Safe(Run(s, events)) && !Recoverable(Run(s, events))
  {
    if events != [] {
      var init := events[..|events| - 1];
      LostForever(s, init);
      StepSafe(Run(s, init), events[|events| - 1]);
      LostStays(Run(s, init), events[|events| - 1]);
    }
  }

  ghost predicate Stuck(s: Shared) {
    && s.serving == Starting && !s.loading
    && forall w | w in s.workers :: s.workers[w].Claimed? || s.workers[w].Clearing?
  }

  lemma {:induction false} StuckStarting(s: Shared, events: seq<Event>)
    requires Stuck(s)
    ensures Stuck(Run(s, events))
  {
    if events != [] {
      StuckStarting(s, events[..|events| - 1]);
    }
  }

  /** A failed split drops the store and leaves `Starting` behind. From there no later event
      brings back a resident, a snapshot, or even `Stale`: searches are refused for good. */
  lemma FailedSplitIsFinal(s: Shared, w: nat, events: seq<Event>)
    requires Safe(s) && w in s.workers && s.workers[w].Splitting?
    ensures var t := Apply(s, Split(w, false));
      Safe(t) && t.serving == s.serving == Starting && Run(t, events).serving == Starting
  {
    var t := Apply(s, Split(w, false));
    StepSafe(s, Split(w, false));
    assert PhaseFits(s, s.workers[w]);
    forall v | v in t.workers
      ensures v == w && t.workers[v] == Clearing
    {
    }
    StuckStarting(t, events);
  }

  ghost predicate CanBeReady(s: Shared) {
    exists events :: Run(s, events).serving.Ready?
  }

  lemma Four(s: Shared, a: Event, b: Event, c: Event, d: Event)
    ensures Run(s, [a, b, c, d]) == Apply(Apply(Apply(Apply(s, a), b), c), d)
  {
    Three(s, a, b, c);
    RunSnoc(s, [a, b, c], d);
    assert [a, b, c] + [d] == [a, b, c, d];
  }

  lemma FinishWorker(s: Shared, w: nat, indexed: Contents)
    requires w in OwningWorkers(s)
    ensures Apply(Apply(Apply(Apply(s, Split(w, true)), Publish(w)), IndexEnds(w, Ok(indexed))), Settle(w)).serving.Ready?
  {
  }

  lemma RecoveryExists(s: Shared)
    requires Safe(s) && Recoverable(s)
    ensures CanBeReady(s)
  {
    var nothing := Contents([], map[]);
    if s.serving.Ready? {
      assert Run(s, []) == s;
    } else if s.loading {
      RunSnoc(s, [], Load(Ok(nothing)));
      assert [] + [Load(Ok(nothing))] == [Load(Ok(nothing))];
      assert Run(s, [Load(Ok(nothing))]).serving.Ready?;
    } else {
      var w :| w in OwningWorkers(s);
      Four(s, Split(w, true), Publish(w), IndexEnds(w, Ok(nothing)), Settle(w));
      FinishWorker(s, w, nothing);
    }
  }

  /** Some continuation makes the daemon ready if and only if the store still has an owner. */
  lemma ReadyAgainIff(s: Shared)
    requires Safe(s)
    ensures CanBeReady(s) <==> Recoverable(s)
  {
    if Recoverable(s) {
      RecoveryExists(s);
    } else {
      forall events
        ensures !Run(s, events).serving.Ready?
      {
        LostForever(s, events);
      }
    }
  }

  /** The daemon gets there: it loads, is asked to index, and the split fails. Nothing that
      happens afterwards gives it a resident again. */
  lemma FailedSplitReached(c: Contents, events: seq<Event>)
    ensures var s := Run(INITIAL, [Load(Ok(c)), IndexRequested(0), Take(0)]);
      && Safe(s) && 0 in s.workers && s.workers[0] == Splitting(c)
      && Run(Apply(s, Split(0, false)), events).serving == Starting
      && !CanBeReady(Apply(s, Split(0, false)))
  {
    RunSafe([Load(Ok(c)), IndexRequested(0), Take(0)]);
    Three(INITIAL, Load(Ok(c)), IndexRequested(0), Take(0));
    var s := Run(INITIAL, [Load(Ok(c)), IndexRequested(0), Take(0)]);
    FailedSplitIsFinal(s, 0, events);
    var t := Apply(s, Split(0, false));
    ReadyAgainIff(t);
    assert t.workers == map[0 := Clearing] && OwningWorkers(t) == {};
  }
}
