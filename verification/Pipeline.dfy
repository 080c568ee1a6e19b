// The indexing pipeline: it keeps the chunk store and the lexical index in step while it
// consumes parsed files in the order the thread pool happens to deliver them.

module Pipeline {
  import opened Wrappers
  import opened Records
  import opened StoreView
  import opened StoreDir
  import opened Crash
  import opened Store
  import opened Lexical
  import opened Agreement
  import opened Pass
  import opened Provenance

  datatype IndexReport = IndexReport(
    filesIndexed: nat,
    filesUnparsed: nat,
    chunksAdded: nat,
    chunksReused: nat,
    chunksRemoved: nat,
    embeddingsComputed: nat,
    liveBefore: nat,
    liveAfter: nat,
    commit: string,
    compacted: Option<CompactionReport>
  )

  function EmptyReport(liveBefore: nat): IndexReport {
    IndexReport(0, 0, 0, 0, 0, 0, liveBefore, liveBefore, "", None)
  }

  datatype IndexError =
    | StoreFailed(error: StoreError)
    | InferFailed
    | InterruptedAfter(batches: nat)
    | DirtyRefused
    | GitFailed
    | ReadFailed(path: string)
    | LexicalOutOfSync(storeLive: nat, indexed: nat)

  datatype DirtyPolicy = IndexWorktree | IndexCommitOnly | Refuse

  datatype FileChange =
    | Added(path: string)
    | Modified(path: string)
    | Deleted(path: string)
    | Renamed(from: string, to: string)

  /** What git reports about the worktree: whether it is dirty, HEAD, and the dirty paths. */
  datatype Worktree = Worktree(dirty: bool, head: Option<string>, dirtyPaths: seq<string>)

  datatype IndexConfig = IndexConfig(embedBatch: nat, compactThreshold: real, dirtyWorktree: DirtyPolicy)

  /** What the pipeline calls but does not decide: the embedder, failing commits, the interrupt hook. */
  datatype Environment = Environment(
    embed: string -> Vector,
    embedFails: seq<string> -> bool,
    commitFails: nat -> bool,
    interruptAfter: Option<nat>
  )

  /** The first thing that is wrong when an index is opened, if anything is. */
  function OpenError(got: string, live: nat, indexed: nat, expected: string, repository: Option<IndexError>): Option<IndexError> {
    if got != expected then Some(StoreFailed(StoreError.ModelMismatch(expected, got)))
    else if live != indexed then Some(LexicalOutOfSync(live, indexed))
    else repository
  }

  /** hash -> row for the live rows of one file, as they were when the pass began. */
  ghost predicate IsExisting(v: View, rel: string, existing: map<ContentHash, RowId>) {
    && (forall h | h in existing :: LiveWith(v, existing[h], h) && v[existing[h]].rec.file == rel)
    && (forall r | LiveAt(v, r) && v[r].rec.file == rel :: v[r].rec.contentHash in existing)
  }

  /** The documents after a possible compaction. */
  ghost function SettledDocs(threshold: real, v: View, docs: map<RowId, LexicalDoc>): map<RowId, LexicalDoc> {
    if MostlyDead(threshold, v) then Substitute(docs, RowMapping(v)) else docs
  }

  /** Chunks accounted for so far: added, reused, or waiting to be added. */
  function Accounted(report: IndexReport, pending: seq<Chunk>): nat {
    report.chunksAdded + report.chunksReused + |pending|
  }

  function FilesSeen(report: IndexReport): nat {
    report.filesIndexed + report.filesUnparsed
  }

  /** What one file contributes: nothing unparsed, its distinct hashes when it is unchanged,
      otherwise each of its chunks. */
  function Weight(item: WorkItem, existing: set<ContentHash>): nat {
    if item.parse.Failed? then 0
    else if Hashes(item.parse.chunks) == existing then |existing|
    else |item.parse.chunks|
  }

  ghost function FileHashes(v: View, rel: string): set<ContentHash> {
    set r | 0 <= r < |v| && v[r].live && v[r].rec.file == rel :: v[r].rec.contentHash
  }

  ghost function TotalWeight(v: View, items: seq<WorkItem>): nat {
    if items == [] then 0
    else TotalWeight(v, items[..|items| - 1]) + Weight(items[|items| - 1], FileHashes(v, items[|items| - 1].rel))
  }

  lemma WeightSnoc(v: View, items: seq<WorkItem>, item: WorkItem, existing: map<ContentHash, RowId>)
    requires IsExisting(v, item.rel, existing)
    ensures TotalWeight(v, items + [item]) == TotalWeight(v, items) + Weight(item, existing.Keys)
  {
    assert (items + [item])[..|items|] == items;
    assert existing.Keys == FileHashes(v, item.rel) by {
      forall r | LiveAt(v, r) && v[r].rec.file == item.rel
        ensures v[r].rec.contentHash in existing
      {
      }
    }
  }

  lemma InterruptedAt(embed: string -> Vector, v: View, arrivals: seq<WorkItem>, n: nat, cur: View)
    requires n <= |arrivals| && Progress(embed, v, arrivals[..n], cur)
    ensures InterruptedPass(embed, v, arrivals, cur)
  {
    assert forall item | item in arrivals[..n] :: item in arrivals;
  }

  lemma NoHashes()
    ensures Hashes([]) == {}
  {
  }

  lemma TombstoneNone(v: View)
    ensures Tombstone(v, []) == v
  {
  }

  lemma MidwayProgress(embed: string -> Vector, v: View, done: seq<WorkItem>, offered: set<ContentHash>,
                       cur: View, known: set<ContentHash>, pending: seq<Chunk>)
    requires Midway(embed, v, done, offered, cur, known, pending)
    ensures Progress(embed, v, done, cur)
  {
  }

  lemma ExistingKnown(embed: string -> Vector, v: View, done: seq<WorkItem>, offered: set<ContentHash>,
                      cur: View, known: set<ContentHash>, pending: seq<Chunk>,
                      rel: string, existing: map<ContentHash, RowId>, h: ContentHash)
    requires Midway(embed, v, done, offered, cur, known, pending)
    requires IsExisting(v, rel, existing)
    ensures h in existing ==> h in known
  {
    if h in existing {
      LiveHashIn(v, existing[h]);
    }
  }

  lemma StaleAllLive(embed: string -> Vector, v: View, done: seq<WorkItem>, offered: set<ContentHash>,
                     cur: View, known: set<ContentHash>, pending: seq<Chunk>, item: WorkItem, stale: seq<RowId>)
    requires Midway(embed, v, done, offered, cur, known, pending)
    requires forall other | other in done :: other.rel != item.rel
    requires forall r :: r in stale <==> StaleFor(v, item, r)
    ensures forall r | r in stale :: LiveAt(cur, r)
  {
    forall r | r in stale
      ensures LiveAt(cur, r)
    {
      StaleStillLive(embed, v, done, item, cur, r);
    }
  }

  /** A file that failed to parse, or whose hashes are what they were, changes nothing. */
  lemma ConsumedUnchanged(embed: string -> Vector, v: View, done: seq<WorkItem>, offered: set<ContentHash>,
                          cur: View, known: set<ContentHash>, pending: seq<Chunk>,
                          item: WorkItem, existing: map<ContentHash, RowId>)
    requires Midway(embed, v, done, offered, cur, known, pending) && IsExisting(v, item.rel, existing)
    requires item.parse.Failed? || CurrentHashes(item) == existing.Keys
    ensures Midway(embed, v, done + [item], offered, cur, known, pending)
    ensures Progress(embed, v, done + [item], cur)
    ensures CurrentHashes(item) <= known
  {
    forall r
      ensures !StaleFor(v, item, r)
    {
    }
    MidwayTombstone(embed, v, done, offered, cur, known, pending, item, []);
    TombstoneNone(cur);
    MidwayProgress(embed, v, done + [item], offered, cur, known, pending);
    if item.parse.Parsed? {
      forall h | h in existing
        ensures h in known
      {
        LiveHashIn(v, existing[h]);
      }
    }
  }

  /** The rows of one file whose hash vanished from it. */
  method VanishedRows(ghost v: View, item: WorkItem, existing: map<ContentHash, RowId>, newHashes: set<ContentHash>)
      returns (stale: seq<RowId>)
    requires UniqueLive(v) && IsExisting(v, item.rel, existing)
    requires item.parse.Parsed? && newHashes == CurrentHashes(item)
    ensures forall r :: r in stale <==> StaleFor(v, item, r)
    ensures forall j, k | 0 <= j < k < |stale| :: stale[j] != stale[k]
  {
    stale := [];
    var left := existing.Keys;
    while left != {}
      invariant left <= existing.Keys
      invariant forall r :: r in stale <==> StaleFor(v, item, r) && v[r].rec.contentHash !in left
      invariant forall j, k | 0 <= j < k < |stale| :: stale[j] != stale[k]
      decreases left
    {
      var h :| h in left;
      left := left - {h};
      ghost var before := stale;
      if h !in newHashes {
        stale := stale + [existing[h]];
      }
      forall r
        ensures r in stale <==> StaleFor(v, item, r) && v[r].rec.contentHash !in left
      {
        assert StaleFor(v, item, r) && v[r].rec.contentHash == h ==> r == existing[h];
        assert h !in newHashes ==> stale == before + [existing[h]];
      }
    }
    forall r | StaleFor(v, item, r)
      ensures r in stale
    {
    }
  }

  /** The files the pipeline would read now, by path; a path that is excluded, unsupported or no
      text has no entry. Reading a path in `failing` ends in an error. */
  ghost predicate WellFormed(tree: map<string, WorkItem>, failing: set<string>) {
    (forall p | p in tree :: tree[p].rel == p) && tree.Keys !! failing
  }

  ghost predicate FromTree(tree: map<string, WorkItem>, work: seq<WorkItem>) {
    forall item | item in work :: item.rel in tree && item == tree[item.rel]
  }

  function TargetOf(c: FileChange): string {
    if c.Renamed? then c.to else c.path
  }

  /** What deletions and renames do to the store, in order. */
  function ChangedView(v: View, changes: seq<FileChange>): View {
    if changes == [] then v
    else
      var before := ChangedView(v, changes[..|changes| - 1]);
      match changes[|changes| - 1]
      case Deleted(path) => Tombstone(before, RowsForFile(before, path))
      case Renamed(from, to) => Rekey(before, from, to)
      case _ => before
  }

  /** This change makes the pipeline read a file, and the reading fails. */
  predicate Fails(c: FileChange, failing: set<string>) {
    !c.Deleted? && TargetOf(c) in failing
  }

  /** `w` is `v` with exactly the live rows of one file dead. */
  ghost predicate Dropped(v: View, w: View, path: string) {
    && |w| == |v|
    && forall i | 0 <= i < |v| :: w[i].rec == v[i].rec && w[i].vec == v[i].vec && (w[i].live <==> v[i].live && v[i].rec.file != path)
  }

  lemma DroppedFile(v: View, path: string)
    ensures Dropped(v, Tombstone(v, RowsForFile(v, path)), path)
  {
    hide RowsForFile, LiveRows, UniqueLive, Tombstone;
    RowsForFileMeaning(v, path);
    TombstoneMeaning(v, RowsForFile(v, path));
    forall i | 0 <= i < |v|
      ensures v[i].live && i in RowsForFile(v, path) <==> v[i].live && v[i].rec.file == path
    {
      assert LiveAt(v, i) <==> v[i].live;
    }
  }

  /** Where a file ends up after these changes, or nowhere if one of them deletes it. */
  function PathAfter(path: string, changes: seq<FileChange>): Option<string> {
    if changes == [] then Some(path)
    else
      var at := PathAfter(path, changes[..|changes| - 1]);
      match changes[|changes| - 1]
      case Deleted(gone) => if at == Some(gone) then None else at
      case Renamed(from, to) => if at == Some(from) then Some(to) else at
      case _ => at
  }

  /** `w` is `v` after these changes: a live row stays live exactly when its file is still
      somewhere, and then that is its path; nothing else of any row is different. */
  ghost predicate Refiled(v: View, w: View, changes: seq<FileChange>) {
    && |w| == |v|
    && forall i | 0 <= i < |v| ::
      && w[i].vec == v[i].vec && w[i].rec.(file := v[i].rec.file) == v[i].rec
      && (w[i].live <==> v[i].live && PathAfter(v[i].rec.file, changes).Some?)
      && (w[i].live ==> Some(w[i].rec.file) == PathAfter(v[i].rec.file, changes))
      && (!v[i].live ==> w[i] == v[i])
  }

  /** Every document left is the one there was, under the path of its row. */
  ghost predicate Retold(docs: map<RowId, LexicalDoc>, w: View, docs': map<RowId, LexicalDoc>) {
    forall r | r in docs' :: r in docs && r < |w| && docs'[r] == docs[r].(file := w[r].rec.file)
  }

  /** Rows and documents are where these changes put them. */
  ghost predicate Applied(v: View, docs: map<RowId, LexicalDoc>, changes: seq<FileChange>, w: View, docs': map<RowId, LexicalDoc>) {
    w == ChangedView(v, changes) && Refiled(v, w, changes) && Retold(docs, w, docs')
  }

  lemma NothingChanged(v: View, docs: map<RowId, LexicalDoc>, changes: seq<FileChange>)
    requires Agree(v, docs)
    ensures Applied(v, docs, changes[..0], v, docs)
  {
  }

  lemma RefiledDelete(v: View, docs: map<RowId, LexicalDoc>, cur: View, now: map<RowId, LexicalDoc>,
                      cur': View, now': map<RowId, LexicalDoc>, changes: seq<FileChange>, path: string)
    requires Refiled(v, cur, changes) && Retold(docs, cur, now)
    requires Dropped(cur, cur', path) && Unlisted(now, now', RowsForFile(cur, path))
    ensures Refiled(v, cur', changes + [Deleted(path)]) && Retold(docs, cur', now')
  {
    hide RowsForFile;
    assert (changes + [Deleted(path)])[..|changes|] == changes;
    forall i | 0 <= i < |v|
      ensures cur'[i].rec == cur[i].rec && cur'[i].vec == cur[i].vec && (cur'[i].live <==> cur[i].live && cur[i].rec.file != path)
    {
    }
  }

  lemma RefiledRename(v: View, docs: map<RowId, LexicalDoc>, cur: View, now: map<RowId, LexicalDoc>,
                      cur': View, now': map<RowId, LexicalDoc>, changes: seq<FileChange>, from: string, to: string)
    requires Refiled(v, cur, changes) && Retold(docs, cur, now)
    requires Repathed(cur, cur', from, to) && Redirected(cur, now, now', from, to)
    ensures Refiled(v, cur', changes + [Renamed(from, to)]) && Retold(docs, cur', now')
  {
    assert (changes + [Renamed(from, to)])[..|changes|] == changes;
    forall i | 0 <= i < |v|
      ensures cur'[i].live == cur[i].live && cur'[i].vec == cur[i].vec
      ensures cur'[i].rec.file == (if cur[i].live && cur[i].rec.file == from then to else cur[i].rec.file)
      ensures cur'[i].rec.(file := v[i].rec.file) == v[i].rec
      ensures !v[i].live ==> cur'[i].rec == cur[i].rec
    {
      assert cur'[i].rec.(file := v[i].rec.file) == cur'[i].rec.(file := cur[i].rec.file).(file := v[i].rec.file);
    }
  }

  lemma RefiledRead(v: View, cur: View, changes: seq<FileChange>, change: FileChange)
    requires Refiled(v, cur, changes) && !change.Deleted? && !change.Renamed?
    ensures Refiled(v, cur, changes + [change])
  {
    assert (changes + [change])[..|changes|] == changes;
  }

  /** Deletions and renames keep every vector the embedding of its document's text. */
  lemma RefiledEmbodied(embed: string -> Vector, v: View, docs: map<RowId, LexicalDoc>, changes: seq<FileChange>,
                        w: View, docs': map<RowId, LexicalDoc>)
    requires Embodied(embed, v, docs) && Refiled(v, w, changes) && Retold(docs, w, docs')
    ensures Embodied(embed, w, docs')
  {
    forall r | r in docs' && LiveAt(w, r)
      ensures w[r].vec == embed(docs'[r].body)
    {
      assert v[r].live && v[r].vec == embed(docs[r].body);
    }
  }

  lemma ChangedStep(v: View, changes: seq<FileChange>, i: nat)
    requires i < |changes|
    ensures var before := ChangedView(v, changes[..i]);
      ChangedView(v, changes[..i + 1]) == match changes[i]
        case Deleted(path) => Tombstone(before, RowsForFile(before, path))
        case Renamed(from, to) => Rekey(before, from, to)
        case _ => before
  {
    assert changes[..i + 1][..i] == changes[..i];
  }

  predicate EndsWith(s: string, suffix: string) {
    |suffix| <= |s| && s[|s| - |suffix|..] == suffix
  }

  lemma NoRepath(docs: map<RowId, LexicalDoc>, to: string)
    ensures RepathStepwise(docs, docs, PathsTo([], to)) == docs
  {
  }

  /** The dirty paths to reconcile, when the worktree is what gets indexed. */
  method DirtyWork(tree: map<string, WorkItem>, failing: set<string>, git: Worktree, policy: DirtyPolicy)
      returns (r: Result<seq<WorkItem>, IndexError>)
    requires WellFormed(tree, failing)
    ensures r.Err? <==> git.dirty && policy == IndexWorktree && exists p :: p in git.dirtyPaths && p in failing
    ensures r.Ok? ==> FromTree(tree, r.value)
    ensures r.Ok? && git.dirty && policy == IndexWorktree ==> forall p | p in git.dirtyPaths && p in tree :: tree[p] in r.value
    ensures r.Ok? && !(git.dirty && policy == IndexWorktree) ==> r.value == []
  {
    var work: seq<WorkItem> := [];
    if git.dirty && policy == IndexWorktree {
      for i := 0 to |git.dirtyPaths|
        invariant FromTree(tree, work)
        invariant forall j | 0 <= j < i :: git.dirtyPaths[j] !in failing
        invariant forall j | 0 <= j < i && git.dirtyPaths[j] in tree :: tree[git.dirtyPaths[j]] in work
      {
        if git.dirtyPaths[i] in failing {
          return Err(ReadFailed(git.dirtyPaths[i]));
        }
        if git.dirtyPaths[i] in tree {
          work := work + [tree[git.dirtyPaths[i]]];
        }
      }
    }
    return Ok(work);
  }

  /** Keeps the first work item of each path. */
  method FirstPerRel(ghost tree: map<string, WorkItem>, work: seq<WorkItem>) returns (unique: seq<WorkItem>)
    requires FromTree(tree, work)
    ensures DistinctRels(unique) && SameItems(unique, work)
  {
    var seen: set<string> := {};
    unique := [];
    for i := 0 to |work|
      invariant DistinctRels(unique)
      invariant forall item :: item in unique <==> item in work[..i]
      invariant seen == set item | item in unique :: item.rel
    {
      assert work[..i + 1] == work[..i] + [work[i]];
      assert work[i] in work;
      ghost var before := unique;
      if work[i].rel !in seen {
        seen := seen + {work[i].rel};
        unique := unique + [work[i]];
      } else {
        var twin :| twin in unique && twin.rel == work[i].rel;
        assert twin in work;
      }
    }
    assert work[..|work|] == work;
  }

  const DIRTY_COMMIT_SUFFIX: string := "+dirty"

  function CommitLabel(git: Worktree, policy: DirtyPolicy): string
    requires git.head.Some?
  {
    if git.dirty && policy == IndexWorktree then git.head.value + DIRTY_COMMIT_SUFFIX else git.head.value
  }

  /** The equation every run asserts about its counters, in arithmetic that cannot go below zero. */
  predicate Reconciles(report: IndexReport) {
    && report.chunksRemoved <= report.liveBefore + report.chunksAdded
    && report.liveAfter == report.liveBefore + report.chunksAdded - report.chunksRemoved
    && report.embeddingsComputed == report.chunksAdded
  }

  lemma TakenOut(work: seq<WorkItem>, k: nat)
    requires DistinctRels(work) && k < |work|
    ensures var rest := work[..k] + work[k + 1..];
      && DistinctRels(rest)
      && (forall item :: item in work <==> item == work[k] || item in rest)
      && (forall item | item in rest :: item.rel != work[k].rel)
  {
    assert work == work[..k] + [work[k]] + work[k + 1..];
  }

  /** The thread pool delivers the parsed files in any order. */
  method Deliver(work: seq<WorkItem>) returns (arrivals: seq<WorkItem>)
    requires DistinctRels(work)
    ensures DistinctRels(arrivals) && SameItems(arrivals, work)
  {
    arrivals := [];
    var left := work;
    while left != []
      invariant DistinctRels(arrivals) && DistinctRels(left)
      invariant forall a, b | a in arrivals && b in left :: a.rel != b.rel
      invariant forall item :: item in work <==> item in arrivals || item in left
      decreases |left|
    {
      var k: int := *;
      if k < 0 || k >= |left| {
        k := 0;
      }
      var item := left[k];
      TakenOut(left, k);
      arrivals := arrivals + [item];
      left := left[..k] + left[k + 1..];
    }
  }

  lemma NothingDone(embed: string -> Vector, v: View, items: seq<WorkItem>)
    requires UniqueLive(v)
    ensures InterruptedPass(embed, v, items, v)
  {
    assert Progress(embed, v, [], v);
  }

  lemma NothingPending(ps: seq<Posting>)
    ensures CarryAll(ps, []) == ps
  {
  }

  lemma HashesSnoc(chunks: seq<Chunk>, c: Chunk)
    ensures Hashes(chunks + [c]) == Hashes(chunks) + {c.rec.contentHash}
  {
    assert c in chunks + [c];
    forall h | h in Hashes(chunks)
      ensures h in Hashes(chunks + [c])
    {
      var d :| d in chunks && d.rec.contentHash == h;
      assert d in chunks + [c];
    }
  }

  /** The first chunk of each hash, in order. */
  method OnePerHash(pending: seq<Chunk>) returns (unique: seq<Chunk>)
    ensures (forall j, k | 0 <= j < k < |pending| :: pending[j].rec.contentHash != pending[k].rec.contentHash) ==> unique == pending
    ensures forall j, k | 0 <= j < k < |unique| :: unique[j].rec.contentHash != unique[k].rec.contentHash
    ensures Hashes(unique) == Hashes(pending)
  {
    var seen: set<ContentHash> := {};
    unique := [];
    for i := 0 to |pending|
      invariant seen == Hashes(unique) == Hashes(pending[..i])
      invariant forall j, k | 0 <= j < k < |unique| :: unique[j].rec.contentHash != unique[k].rec.contentHash
      invariant (forall j, k | 0 <= j < k < |pending| :: pending[j].rec.contentHash != pending[k].rec.contentHash)
        ==> unique == pending[..i]
    {
      HashesSnoc(pending[..i], pending[i]);
      assert pending[..i + 1] == pending[..i] + [pending[i]];
      if pending[i].rec.contentHash !in seen {
        HashesSnoc(unique, pending[i]);
        seen := seen + {pending[i].rec.contentHash};
        unique := unique + [pending[i]];
      }
    }
    assert pending[..|pending|] == pending;
  }

  lemma NothingToCompact(v: View, docs: map<RowId, LexicalDoc>)
    requires v == [] && Agree(v, docs)
    ensures Compact(v) == v && Substitute(docs, RowMapping(v)) == docs
  {
    assert LiveRows(v) == [];
    assert docs == map[];
  }

  /** A completed pass and what settling makes of it are an index run. */
  lemma RunEnds(embed: string -> Vector, threshold: real, v: View, items: seq<WorkItem>, mid: View)
    requires CompletedPass(embed, v, items, mid)
    ensures IndexRun(embed, threshold, v, items, Settled(threshold, mid))
    ensures exists pass :: CompletedPass(embed, v, items, pass) && SettledByCount(threshold, pass, Settled(threshold, mid))
  {
    hide CompletedPass, Settled, SettledByCount;
    IndexRunByCount(embed, threshold, v, items, Settled(threshold, mid));
  }

  lemma NothingWritten(docs: map<RowId, LexicalDoc>, first: RowId)
    ensures Written(docs, docs, first, [])
  {
  }

  lemma RemoveAllUnlists(docs: map<RowId, LexicalDoc>, rows: seq<RowId>)
    ensures Unlisted(docs, RemoveAll(docs, rows), rows)
  {
  }

  lemma PendingFromItems(embed: string -> Vector, v: View, done: seq<WorkItem>, offered: set<ContentHash>,
                         cur: View, known: set<ContentHash>, pending: seq<Chunk>)
    requires Midway(embed, v, done, offered, cur, known, pending)
    ensures forall k | 0 <= k < |pending| :: FromItems(done, pending[k])
  {
  }

  lemma TracedSettled(embed: string -> Vector, threshold: real, v: View, docs: map<RowId, LexicalDoc>, items: seq<WorkItem>,
                      cur: View, now: map<RowId, LexicalDoc>)
    requires Traced(embed, v, docs, items, cur, now) && Agree(cur, now)
    ensures Traced(embed, v, docs, items, Settled(threshold, cur), SettledDocs(threshold, cur, now))
  {
    hide Traced, Agree, Compact, RowMapping, Substitute;
    TracedCompact(embed, v, docs, items, cur, now);
  }

  /** Whatever an update does, it keeps every vector the embedding of its document's text. */
  lemma UpdateEmbodied(embed: string -> Vector, v: View, docs: map<RowId, LexicalDoc>)
    ensures Embodied(embed, v, docs) ==>
      forall changes, mid, now, items, v', docs' |
        Applied(v, docs, changes, mid, now) && Traced(embed, mid, now, items, v', docs') :: Embodied(embed, v', docs')
  {
    hide Embodied, Refiled, Retold, Traced;
    if Embodied(embed, v, docs) {
      forall changes, mid, now, items, v', docs' | Applied(v, docs, changes, mid, now) && Traced(embed, mid, now, items, v', docs')
        ensures Embodied(embed, v', docs')
      {
        RefiledEmbodied(embed, v, docs, changes, mid, now);
        TracedEmbodied(embed, mid, now, items, v', docs');
      }
    }
  }

  class Indexer {
    const store: ChunkStore
    const lexical: LexicalIndex
    const config: IndexConfig
    const env: Environment
    var report: IndexReport
    var batchesCommitted: nat

    ghost predicate Valid()
      reads this, store, lexical
    {
      store.Valid() && lexical.Valid() && lexical.pending == [] && Agree(store.View(), lexical.Docs())
    }

    /** The counters account for every row that came or went, and every added row cost one embedding. */
    ghost predicate Balanced()
      requires store.Valid()
      reads this, store
    {
      && LiveCount(store.View()) + report.chunksRemoved == report.liveBefore + report.chunksAdded
      && report.embeddingsComputed == report.chunksAdded
    }

    constructor (store: ChunkStore, lexical: LexicalIndex, config: IndexConfig, env: Environment)
      ensures this.store == store && this.lexical == lexical && this.config == config && this.env == env
    {
      this.store := store;
      this.lexical := lexical;
      this.config := config;
      this.env := env;
      report := EmptyReport(0);
      batchesCommitted := 0;
    }

    /** Opening asks for the right model and compares the two counts, before it opens the
        repository; `repository` is what that fails with, if it does. */
    static method Open(store: ChunkStore, lexical: LexicalIndex, config: IndexConfig, env: Environment, modelId: string,
                       repository: Option<IndexError>)
        returns (r: Result<Indexer, IndexError>)
      requires store.Valid()
      ensures r.Ok? <==>
        store.Contents().modelId == modelId && LiveCount(store.View()) == lexical.NumDocs() && repository.None?
      ensures r.Ok? ==> fresh(r.value) && r.value.store == store && r.value.lexical == lexical
      ensures r.Ok? ==> r.value.config == config && r.value.env == env
      ensures store.Contents().modelId != modelId ==> r == Err(StoreFailed(StoreError.ModelMismatch(modelId, store.Contents().modelId)))
      ensures store.Contents().modelId == modelId && LiveCount(store.View()) != lexical.NumDocs() ==>
        r == Err(LexicalOutOfSync(LiveCount(store.View()), lexical.NumDocs()))
      ensures r.Err? ==> Some(r.error) == OpenError(store.Contents().modelId, LiveCount(store.View()), lexical.NumDocs(), modelId, repository)
      ensures lexical.Valid() && lexical.pending == [] && Agree(store.View(), lexical.Docs()) ==>
        LiveCount(store.View()) == lexical.NumDocs() && (r.Ok? ==> r.value.Valid())
    {
      if lexical.Valid() && Agree(store.View(), lexical.Docs()) {
        AgreeCount(store.View(), lexical.Docs());
        RepresentsCount(lexical.committed, lexical.Docs());
      }
      var got := store.Contents().modelId;
      if got != modelId {
        return Err(StoreFailed(StoreError.ModelMismatch(modelId, got)));
      }
      var live := LiveCount(store.View());
      if live != lexical.NumDocs() {
        return Err(LexicalOutOfSync(live, lexical.NumDocs()));
      }
      if repository.Some? {
        return Err(repository.value);
      }
      var indexer := new Indexer(store, lexical, config, env);
      return Ok(indexer);
    }

    /** Tombstones distinct live rows in the store, then removes their documents and commits. */
    method TombstoneBoth(rows: seq<RowId>)
      requires Valid() && Balanced()
      requires forall r | r in rows :: LiveAt(store.View(), r)
      requires forall j, k | 0 <= j < k < |rows| :: rows[j] != rows[k]
      modifies this`report, store, lexical
      ensures Valid() && Balanced()
      ensures ActivePaths(store.disk) == old(ActivePaths(store.disk))
      ensures store.View() == Tombstone(old(store.View()), rows) && Marked(old(store.View()), store.View(), rows)
      ensures Unlisted(old(lexical.Docs()), lexical.Docs(), rows)
      ensures report == old(report).(chunksRemoved := old(report).chunksRemoved + |rows|)
    {
      hide Consistent, ContentsOf, ViewOf, Effect, Writes, PerformAll, LiveRows, Tombstone, Agree, RemoveAll, Represents, AsMap, CarryAll, Unlisted;
      ghost var v, docs := store.View(), lexical.Docs();
      NothingPending(lexical.committed);
      AgreeTombstone(v, docs, rows);
      RemoveAllUnlists(docs, rows);
      TombstoneCount(v, rows);
      store.TombstoneRows(rows);
      lexical.Remove(rows);
      lexical.Commit();
      report := report.(chunksRemoved := report.chunksRemoved + |rows|);
    }

    /** Embeds, stores and indexes the pending chunks, one representative per hash. */
    method FlushBatch(pending: seq<Chunk>) returns (error: Option<IndexError>, ghost stored: bool)
      requires Valid() && Balanced() && NovelBatch(store.View(), Embedded(env.embed, pending))
      modifies this, store, lexical
      ensures Valid() && Balanced()
      ensures ActivePaths(store.disk) == old(ActivePaths(store.disk))
      ensures store.View() == if stored then old(store.View()) + Appended(Embedded(env.embed, pending)) else old(store.View())
      ensures error.None? ==> stored
      ensures if stored then Written(old(lexical.Docs()), lexical.Docs(), |old(store.View())|, pending) else lexical.Docs() == old(lexical.Docs())
      ensures var n := if stored then |pending| else 0;
        report == old(report).(chunksAdded := old(report).chunksAdded + n, embeddingsComputed := old(report).embeddingsComputed + n)
    {
      hide Consistent, ContentsOf, Effect, Writes, PerformAll, LiveRows, InsertAll, Agree, AddAll, Represents, AsMap, CarryAll, Written;
      ghost var v, docs := store.View(), lexical.Docs();
      NothingPending(lexical.committed);
      AddedWritten(docs, |v|, pending);
      if pending == [] {
        NothingWritten(docs, |v|);
        assert v + Appended(Embedded(env.embed, pending)) == v;
        return None, true;
      }
      var unique := OnePerHash(pending);
      var texts := seq(|unique|, k requires 0 <= k < |unique| => unique[k].body);
      if env.embedFails(texts) {
        return Some(InferFailed), false;
      }
      assert unique == pending by {
        assert forall k | 0 <= k < |pending| :: Embedded(env.embed, pending)[k].0 == pending[k].rec;
      }
      var batch := Embedded(env.embed, unique);
      store.LiveHashesDistinct();
      InsertAllNovel(v, batch);
      AgreeAppend(v, docs, env.embed, unique);
      LiveCountAppend(v, Appended(batch));
      var inserted := store.InsertBatch(batch, env.commitFails(batchesCommitted));
      if inserted.Err? {
        return Some(StoreFailed(inserted.error)), false;
      }
      var numbered := seq(|unique|, k requires 0 <= k < |unique| => (inserted.value[k], DocOf(unique[k])));
      assert numbered == NumberedDocs(|v|, unique);
      lexical.AddBatch(numbered);
      lexical.Commit();
      var novel := |batch|;
      report := report.(chunksAdded := report.chunksAdded + novel, embeddingsComputed := report.embeddingsComputed + novel);
      batchesCommitted := batchesCommitted + 1;
      stored := true;
      if env.interruptAfter.Some? && batchesCommitted >= env.interruptAfter.value {
        error := Some(InterruptedAfter(env.interruptAfter.value));
      } else {
        error := None;
      }
    }

    /** hash -> row for the live rows of one file. */
    method HashesOfFile(rel: string) returns (byHash: map<ContentHash, RowId>)
      requires store.Valid()
      ensures IsExisting(store.View(), rel, byHash)
    {
      hide RowsForFile, UniqueLive, Consistent, ViewOf, Uniform;
      var v := store.View();
      var rows := RowsForFile(v, rel);
      RowsForFileMeaning(v, rel);
      byHash := map[];
      for k := 0 to |rows|
        invariant forall h | h in byHash :: LiveWith(v, byHash[h], h) && v[byHash[h]].rec.file == rel
        invariant forall j | 0 <= j < k :: LiveAt(v, rows[j]) && v[rows[j]].rec.contentHash in byHash
      {
        assert rows[k] in rows;
        byHash := byHash[v[rows[k]].rec.contentHash := rows[k]];
      }
      forall r | LiveAt(v, r) && v[r].rec.file == rel
        ensures v[r].rec.contentHash in byHash
      {
        var j :| 0 <= j < |rows| && rows[j] == r;
      }
    }

    /** The hash-to-row map of every file of the pass, read before anything changes. */
    method FindExisting(items: seq<WorkItem>) returns (existing: map<string, map<ContentHash, RowId>>)
      requires store.Valid()
      ensures forall item | item in items :: item.rel in existing && IsExisting(store.View(), item.rel, existing[item.rel])
    {
      hide IsExisting, UniqueLive, Consistent, ViewOf, Uniform;
      existing := map[];
      for i := 0 to |items|
        invariant forall j | 0 <= j < i :: items[j].rel in existing
        invariant forall rel | rel in existing :: IsExisting(store.View(), rel, existing[rel])
      {
        var byHash := HashesOfFile(items[i].rel);
        existing := existing[items[i].rel := byHash];
      }
    }

    method KnownHashes() returns (known: set<ContentHash>)
      requires store.Valid()
      ensures known == LiveHashes(store.View())
    {
      known := {};
      var v := store.View();
      for i := 0 to |v|
        invariant known == LiveHashes(v[..i])
      {
        assert v[..i + 1][..i] == v[..i];
        if v[i].live {
          known := known + {v[i].rec.contentHash};
        }
      }
      assert v[..|v|] == v;
    }

    /** A flush in the middle of a pass. */
    method FlushPending(ghost v: View, ghost docs: map<RowId, LexicalDoc>, ghost done: seq<WorkItem>, ghost offered: set<ContentHash>,
                        ghost known: set<ContentHash>, pending: seq<Chunk>) returns (error: Option<IndexError>)
      requires Valid() && Balanced()
      requires Midway(env.embed, v, done, offered, store.View(), known, pending)
      requires Traced(env.embed, v, docs, done, store.View(), lexical.Docs())
      modifies this, store, lexical
      ensures Valid() && Balanced()
      ensures ActivePaths(store.disk) == old(ActivePaths(store.disk))
      ensures Progress(env.embed, v, done, store.View())
      ensures Traced(env.embed, v, docs, done, store.View(), lexical.Docs())
      ensures error.None? ==> Midway(env.embed, v, done, offered, store.View(), known, [])
      ensures error.None? ==> Accounted(report, []) == old(Accounted(report, pending))
      ensures FilesSeen(report) == old(FilesSeen(report)) && report.liveBefore == old(report).liveBefore
    {
      hide Midway, Progress, Consistent, ViewOf, Agree, Represents, AsMap, LiveRows, NovelBatch, UniqueLive, Traced, Written, FromItems;
      ghost var cur, now := store.View(), lexical.Docs();
      PendingFromItems(env.embed, v, done, offered, cur, known, pending);
      PendingNovel(env.embed, v, done, offered, cur, known, pending);
      MidwayProgress(env.embed, v, done, offered, cur, known, pending);
      ghost var stored;
      error, stored := FlushBatch(pending);
      if stored {
        store.LiveHashesDistinct();
        MidwayFlush(env.embed, v, done, offered, cur, known, pending);
        MidwayProgress(env.embed, v, done, offered, store.View(), known, []);
        TracedFlush(env.embed, v, docs, done, cur, now, lexical.Docs(), pending);
      }
    }

    /** Offers the chunks of the file just consumed, flushing whenever a batch is full. */
    method OfferChunks(ghost v: View, ghost docs: map<RowId, LexicalDoc>, ghost done: seq<WorkItem>, ghost offered: set<ContentHash>, item: WorkItem,
                       existing: map<ContentHash, RowId>, known: set<ContentHash>, pending: seq<Chunk>)
        returns (known': set<ContentHash>, pending': seq<Chunk>, error: Option<IndexError>, ghost offered': set<ContentHash>)
      requires Valid() && Balanced()
      requires Midway(env.embed, v, done, offered, store.View(), known, pending)
      requires Traced(env.embed, v, docs, done, store.View(), lexical.Docs())
      requires IsExisting(v, item.rel, existing) && item in done && item.parse.Parsed?
      modifies this, store, lexical
      ensures Valid() && Balanced()
      ensures ActivePaths(store.disk) == old(ActivePaths(store.disk))
      ensures Progress(env.embed, v, done, store.View())
      ensures Traced(env.embed, v, docs, done, store.View(), lexical.Docs())
      ensures error.None? ==> Midway(env.embed, v, done, offered', store.View(), known', pending')
      ensures error.None? ==> CurrentHashes(item) <= known' && known <= known'
      ensures error.None? ==> Accounted(report, pending') == old(Accounted(report, pending)) + |item.parse.chunks|
      ensures FilesSeen(report) == old(FilesSeen(report)) && report.liveBefore == old(report).liveBefore
    {
      hide Midway, Progress, Consistent, ViewOf, Agree, Represents, AsMap, LiveRows, UniqueLive, IsExisting, Hashes, Traced;
      var chunks := item.parse.chunks;
      known', pending', offered', error := known, pending, offered, None;
      NoHashes();
      for i := 0 to |chunks|
        invariant Valid() && Balanced()
        invariant ActivePaths(store.disk) == old(ActivePaths(store.disk))
        invariant Midway(env.embed, v, done, offered', store.View(), known', pending')
        invariant Traced(env.embed, v, docs, done, store.View(), lexical.Docs())
        invariant Hashes(chunks[..i]) <= known' && known <= known'
        invariant Accounted(report, pending') == old(Accounted(report, pending)) + i
        invariant FilesSeen(report) == old(FilesSeen(report)) && report.liveBefore == old(report).liveBefore
        invariant error.None?
      {
        var c := chunks[i];
        var h := c.rec.contentHash;
        HashesSnoc(chunks[..i], c);
        assert chunks[..i + 1] == chunks[..i] + [c];
        if h in existing || h in known' {
          ExistingKnown(env.embed, v, done, offered', store.View(), known', pending', item.rel, existing, h);
          MidwayKnown(env.embed, v, done, offered', store.View(), known', pending', h);
          report := report.(chunksReused := report.chunksReused + 1);
        } else {
          assert FromItems(done, c);
          MidwayPend(env.embed, v, done, offered', store.View(), known', pending', c);
          known' := known' + {h};
          pending' := pending' + [c];
          if |pending'| >= config.embedBatch {
            error := FlushPending(v, docs, done, offered' + {h}, known', pending');
            pending' := [];
          }
        }
        offered' := offered' + {h};
        if error.Some? {
          return;
        }
      }
      assert chunks[..|chunks|] == chunks;
      MidwayProgress(env.embed, v, done, offered', store.View(), known', pending');
    }

    /** Consumes one parsed file: drops its stale rows, then adds the chunks nobody has yet. */
    method ConsumeFile(ghost v: View, ghost docs: map<RowId, LexicalDoc>, ghost done: seq<WorkItem>, ghost offered: set<ContentHash>,
                       item: WorkItem, existing: map<ContentHash, RowId>, known: set<ContentHash>, pending: seq<Chunk>)
        returns (known': set<ContentHash>, pending': seq<Chunk>, error: Option<IndexError>, ghost offered': set<ContentHash>)
      requires Valid() && Balanced()
      requires Midway(env.embed, v, done, offered, store.View(), known, pending)
      requires Traced(env.embed, v, docs, done, store.View(), lexical.Docs())
      requires IsExisting(v, item.rel, existing) && UniqueLive(v)
      requires forall other | other in done :: other.rel != item.rel
      modifies this, store, lexical
      ensures Valid() && Balanced()
      ensures ActivePaths(store.disk) == old(ActivePaths(store.disk))
      ensures Progress(env.embed, v, done + [item], store.View())
      ensures Traced(env.embed, v, docs, done + [item], store.View(), lexical.Docs())
      ensures error.None? ==> Midway(env.embed, v, done + [item], offered', store.View(), known', pending')
      ensures error.None? ==> CurrentHashes(item) <= known' && known <= known'
      ensures error.None? ==> Accounted(report, pending') == old(Accounted(report, pending)) + Weight(item, existing.Keys)
      ensures error.None? ==> FilesSeen(report) == old(FilesSeen(report)) + 1
      ensures report.liveBefore == old(report).liveBefore
    {
      hide Midway, Progress, Consistent, ViewOf, Agree, Represents, AsMap, LiveRows, UniqueLive, IsExisting, StaleFor, Traced, Marked, Unlisted;
      known', pending', offered', error := known, pending, offered, None;
      ghost var cur, now := store.View(), lexical.Docs();
      TracedMore(env.embed, v, docs, done, done + [item], cur, now);
      if item.parse.Failed? {
        report := report.(filesUnparsed := report.filesUnparsed + 1);
        ConsumedUnchanged(env.embed, v, done, offered, store.View(), known, pending, item, existing);
        return;
      }
      var newHashes := Hashes(item.parse.chunks);
      if newHashes == existing.Keys {
        report := report.(filesIndexed := report.filesIndexed + 1, chunksReused := report.chunksReused + |newHashes|);
        ConsumedUnchanged(env.embed, v, done, offered, store.View(), known, pending, item, existing);
        return;
      }
      report := report.(filesIndexed := report.filesIndexed + 1);
      var stale := VanishedRows(v, item, existing, newHashes);
      StaleAllLive(env.embed, v, done, offered, store.View(), known, pending, item, stale);
      MidwayTombstone(env.embed, v, done, offered, store.View(), known, pending, item, stale);
      if stale != [] {
        TombstoneBoth(stale);
        TracedTombstone(env.embed, v, docs, done + [item], cur, now, store.View(), lexical.Docs(), stale);
      } else {
        TombstoneNone(store.View());
      }
      known', pending', error, offered' := OfferChunks(v, docs, done + [item], offered, item, existing, known, pending);
    }

    /** The last flush of a pass, which completes it. */
    method FlushRest(ghost v: View, ghost docs: map<RowId, LexicalDoc>, ghost arrivals: seq<WorkItem>, ghost offered: set<ContentHash>,
                     ghost known: set<ContentHash>, pending: seq<Chunk>) returns (error: Option<IndexError>)
      requires Valid() && Balanced()
      requires Midway(env.embed, v, arrivals, offered, store.View(), known, pending)
      requires Traced(env.embed, v, docs, arrivals, store.View(), lexical.Docs())
      requires forall item | item in arrivals :: CurrentHashes(item) <= known
      modifies this, store, lexical
      ensures Valid() && Balanced()
      ensures ActivePaths(store.disk) == old(ActivePaths(store.disk))
      ensures Progress(env.embed, v, arrivals, store.View())
      ensures Traced(env.embed, v, docs, arrivals, store.View(), lexical.Docs())
      ensures error.None? ==> CompletedPass(env.embed, v, arrivals, store.View())
      ensures error.None? ==> Accounted(report, []) == old(Accounted(report, pending))
      ensures FilesSeen(report) == old(FilesSeen(report)) && report.liveBefore == old(report).liveBefore
    {
      hide Midway, Progress, CompletedPass, Consistent, ViewOf, Agree, Represents, AsMap, LiveRows, UniqueLive, LiveHashes, Traced;
      error := None;
      MidwayProgress(env.embed, v, arrivals, offered, store.View(), known, pending);
      if pending != [] {
        error := FlushPending(v, docs, arrivals, offered, known, pending);
      }
      if error.None? {
        MidwayDone(env.embed, v, arrivals, offered, store.View(), known);
      }
    }

    /** One pass over the parsed files, in the order they arrive. */
    method ProcessWorkItems(arrivals: seq<WorkItem>) returns (error: Option<IndexError>)
      requires Valid() && Balanced() && DistinctRels(arrivals)
      modifies this, store, lexical
      ensures Valid() && Balanced()
      ensures ActivePaths(store.disk) == old(ActivePaths(store.disk))
      ensures InterruptedPass(env.embed, old(store.View()), arrivals, store.View())
      ensures Traced(env.embed, old(store.View()), old(lexical.Docs()), arrivals, store.View(), lexical.Docs())
      ensures error.None? ==> CompletedPass(env.embed, old(store.View()), arrivals, store.View())
      ensures error.None? ==> FilesSeen(report) == old(FilesSeen(report)) + |arrivals|
      ensures error.None? ==> Accounted(report, []) == old(Accounted(report, [])) + TotalWeight(old(store.View()), arrivals)
      ensures report.liveBefore == old(report).liveBefore
    {
      hide Midway, Progress, Consistent, ViewOf, Agree, Represents, AsMap, LiveRows, UniqueLive, IsExisting, StaleFor, LiveHashes, Traced, CompletedPass,
        InterruptedPass;
      ghost var v, docs := store.View(), lexical.Docs();
      TracedStart(env.embed, v, docs, []);
      store.LiveHashesDistinct();
      MidwayStart(env.embed, v);
      MidwayProgress(env.embed, v, [], {}, v, LiveHashes(v), []);
      var existing := FindExisting(arrivals);
      var known := KnownHashes();
      var pending: seq<Chunk> := [];
      ghost var offered: set<ContentHash> := {};
      error := None;
      assert arrivals[..0] == [];
      for i := 0 to |arrivals|
        invariant Valid() && Balanced() && error.None?
        invariant ActivePaths(store.disk) == old(ActivePaths(store.disk))
        invariant Midway(env.embed, v, arrivals[..i], offered, store.View(), known, pending)
        invariant Traced(env.embed, v, docs, arrivals[..i], store.View(), lexical.Docs())
        invariant forall j | 0 <= j < i :: CurrentHashes(arrivals[j]) <= known
        invariant FilesSeen(report) == old(FilesSeen(report)) + i
        invariant Accounted(report, pending) == old(Accounted(report, [])) + TotalWeight(v, arrivals[..i])
        invariant report.liveBefore == old(report).liveBefore
      {
        var item := arrivals[i];
        assert item in arrivals;
        assert arrivals[..i + 1] == arrivals[..i] + [item];
        WeightSnoc(v, arrivals[..i], item, existing[item.rel]);
        known, pending, error, offered := ConsumeFile(v, docs, arrivals[..i], offered, item, existing[item.rel], known, pending);
        if error.Some? {
          InterruptedAt(env.embed, v, arrivals, i + 1, store.View());
          TracedMore(env.embed, v, docs, arrivals[..i + 1], arrivals, store.View(), lexical.Docs());
          return;
        }
      }
      assert arrivals[..|arrivals|] == arrivals;
      error := FlushRest(v, docs, arrivals, offered, known, pending);
      InterruptedAt(env.embed, v, arrivals, |arrivals|, store.View());
    }

    /** Records the commit the index now describes, marked when the worktree was dirty. */
    method RecordCommit(git: Worktree) returns (r: Result<string, IndexError>)
      requires Valid() && Balanced()
      modifies store
      ensures Valid() && Balanced()
      ensures ActivePaths(store.disk) == old(ActivePaths(store.disk))
      ensures store.View() == old(store.View())
      ensures r.Ok? <==> git.head.Some?
      ensures r.Ok? ==> r.value == CommitLabel(git, config.dirtyWorktree) && store.Contents().commit == Some(r.value)
      ensures r.Ok? ==> r.value == git.head.value + if git.dirty && config.dirtyWorktree == IndexWorktree then "+dirty" else ""
    {
      if git.head.None? {
        return Err(GitFailed);
      }
      var commit := git.head.value;
      if git.dirty && config.dirtyWorktree == IndexWorktree {
        commit := commit + DIRTY_COMMIT_SUFFIX;
      }
      store.SetIndexedCommit(commit);
      return Ok(commit);
    }

    /** Compacts the store and renumbers the lexical index to match. */
    method CompactBoth(generation: string)
      requires Valid() && Balanced() && NameFresh(Op.CompactStore(generation), store.disk)
      modifies this`report, store, lexical
      ensures Valid() && Balanced()
      ensures store.View() == Compact(old(store.View())) && lexical.Docs() == Substitute(old(lexical.Docs()), RowMapping(old(store.View())))
      ensures store.Contents() == old(store.Contents()).(view := Compact(old(store.View())))
      ensures report == old(report).(compacted := report.compacted)
    {
      hide Consistent, ViewOf, PerformAll, Writes, LiveRows, Compact, Agree, Represents, AsMap, CarryAll, Substitute, RenumberStepwise, RowMapping, Packed;
      ghost var v, docs := store.View(), lexical.Docs();
      NothingPending(lexical.committed);
      AgreeCompact(v, docs);
      CompactPreserves(v);
      var compaction := store.CompactStore(generation);
      lexical.Renumber(compaction.rowMapping);
      lexical.Commit();
      report := report.(compacted := Some(compaction));
    }

    /** Compacts when too much of the store is dead, and renumbers the lexical index to match. */
    method MaybeCompact(generation: string)
      requires Valid() && Balanced() && NameFresh(Op.CompactStore(generation), store.disk)
      modifies this`report, store, lexical
      ensures Valid() && Balanced()
      ensures store.View() == Settled(config.compactThreshold, old(store.View()))
      ensures lexical.Docs() == SettledDocs(config.compactThreshold, old(store.View()), old(lexical.Docs()))
      ensures store.Contents() == old(store.Contents()).(view := Settled(config.compactThreshold, old(store.View())))
      ensures var v, n := old(store.View()), |old(store.View())|;
        if n > 0 && (n - LiveCount(v)) as real > config.compactThreshold * n as real
        then store.View() == Compact(v) && lexical.Docs() == Substitute(old(lexical.Docs()), RowMapping(v))
        else store.View() == v && lexical.Docs() == old(lexical.Docs())
      ensures report == old(report).(compacted := report.compacted)
    {
      hide Consistent, ViewOf, LiveCount, Compact, Agree, Represents, AsMap, CarryAll, Substitute, DeadFraction, RowMapping;
      ghost var v, docs := store.View(), lexical.Docs();
      if v == [] {
        NothingToCompact(v, docs);
      } else {
        FractionDecides(config.compactThreshold, v);
      }
      if DeadFraction(store.View()) > config.compactThreshold {
        CompactBoth(generation);
      }
    }

    /** Everything after the pass: the commit, a compaction, and the counter reconciliation. */
    method Finish(git: Worktree, generation: string) returns (r: Result<IndexReport, IndexError>)
      requires Valid() && Balanced() && NameFresh(Op.CompactStore(generation), store.disk)
      modifies this`report, store, lexical
      ensures Valid() && Balanced()
      ensures r.Ok? <==> git.head.Some?
      ensures r.Ok? ==> store.View() == Settled(config.compactThreshold, old(store.View()))
      ensures r.Ok? ==> lexical.Docs() == SettledDocs(config.compactThreshold, old(store.View()), old(lexical.Docs()))
      ensures r.Ok? && config.compactThreshold >= 0.0 ==>
        (|store.View()| - LiveCount(store.View())) as real <= config.compactThreshold * |store.View()| as real
      ensures r.Ok? ==> r.value == report && Reconciles(r.value) && r.value.liveAfter == LiveCount(store.View())
      ensures r.Ok? ==> store.Contents().commit == Some(CommitLabel(git, config.dirtyWorktree))
      ensures r.Err? ==> store.View() == old(store.View()) && lexical.Docs() == old(lexical.Docs())
      ensures report.liveBefore == old(report).liveBefore
    {
      hide Consistent, ViewOf, PerformAll, Writes, LiveRows, Compact, Agree, Represents, AsMap, CarryAll, Settled, SettledDocs;
      var recorded := RecordCommit(git);
      if recorded.Err? {
        return Err(recorded.error);
      }
      report := report.(commit := recorded.value);
      SettledTwice(config.compactThreshold, store.View());
      MaybeCompact(generation);
      report := report.(liveAfter := LiveCount(store.View()));
      assert Reconciles(report);
      return Ok(report);
    }

    /** A full index of the files found by the walk. */
    method IndexAll(work: seq<WorkItem>, git: Worktree, generation: string)
        returns (r: Result<IndexReport, IndexError>, ghost arrivals: seq<WorkItem>)
      requires Valid() && DistinctRels(work)
      requires NameFresh(Op.CompactStore(generation), store.disk)
      modifies this, store, lexical
      ensures Valid() && DistinctRels(arrivals) && SameItems(arrivals, work)
      ensures r.Ok? ==> IndexRun(env.embed, config.compactThreshold, old(store.View()), arrivals, store.View())
      ensures r.Ok? ==> exists mid ::
        CompletedPass(env.embed, old(store.View()), arrivals, mid) && SettledByCount(config.compactThreshold, mid, store.View())
      ensures r.Ok? && config.compactThreshold >= 0.0 ==>
        (|store.View()| - LiveCount(store.View())) as real <= config.compactThreshold * |store.View()| as real
      ensures r.Ok? ==> Reconciles(r.value) && r.value.liveBefore == LiveCount(old(store.View())) && r.value.liveAfter == LiveCount(store.View())
      ensures r.Ok? ==> git.head.Some? && store.Contents().commit == Some(CommitLabel(git, config.dirtyWorktree))
      ensures r.Err? ==> InterruptedPass(env.embed, old(store.View()), arrivals, store.View())
      ensures Traced(env.embed, old(store.View()), old(lexical.Docs()), arrivals, store.View(), lexical.Docs())
      ensures git.dirty && config.dirtyWorktree == Refuse ==> r == Err(DirtyRefused) && store.View() == old(store.View())
    {
      hide Consistent, ViewOf, LiveRows, Agree, Represents, AsMap, CarryAll, Settled, SettledDocs, SettledByCount, CompletedPass, InterruptedPass,
        Traced, IndexRun, LiveCount;
      ghost var v, docs := store.View(), lexical.Docs();
      arrivals := work;
      TracedStart(env.embed, v, docs, arrivals);
      report := EmptyReport(LiveCount(store.View()));
      store.LiveHashesDistinct();
      NothingDone(env.embed, v, arrivals);
      if git.dirty && config.dirtyWorktree == Refuse {
        return Err(DirtyRefused), arrivals;
      }
      var delivered := Deliver(work);
      arrivals := delivered;
      var error := ProcessWorkItems(delivered);
      if error.Some? {
        return Err(error.value), arrivals;
      }
      ghost var mid, now := store.View(), lexical.Docs();
      r := Finish(git, generation);
      TracedSettled(env.embed, config.compactThreshold, v, docs, arrivals, mid, now);
      RunEnds(env.embed, config.compactThreshold, v, arrivals, mid);
    }

    /** A deleted path: its live rows go, in the store and in the index. */
    method ApplyDelete(path: string)
      requires Valid() && Balanced()
      modifies this, store, lexical
      ensures Valid() && Balanced()
      ensures ActivePaths(store.disk) == old(ActivePaths(store.disk))
      ensures store.View() == Tombstone(old(store.View()), RowsForFile(old(store.View()), path))
      ensures Dropped(old(store.View()), store.View(), path)
      ensures Unlisted(old(lexical.Docs()), lexical.Docs(), RowsForFile(old(store.View()), path))
      ensures report.liveBefore == old(report).liveBefore
    {
      hide Consistent, ViewOf, Agree, Represents, AsMap, CarryAll, LiveRows, RowsForFile, Tombstone;
      DroppedFile(store.View(), path);
      var rows := RowsForFile(store.View(), path);
      RowsForFileMeaning(store.View(), path);
      if rows != [] {
        TombstoneBoth(rows);
        report := report.(filesIndexed := report.filesIndexed + 1);
      } else {
        TombstoneNone(store.View());
      }
    }

    /** A renamed path: its live rows keep their hashes and take the new path, in both places. */
    method ApplyRename(from: string, to: string) returns (n: nat)
      requires Valid() && Balanced()
      modifies store, lexical
      ensures Valid() && Balanced()
      ensures ActivePaths(store.disk) == old(ActivePaths(store.disk))
      ensures store.View() == Rekey(old(store.View()), from, to) && Repathed(old(store.View()), store.View(), from, to)
      ensures LiveHashes(store.View()) == LiveHashes(old(store.View()))
      ensures Redirected(old(store.View()), old(lexical.Docs()), lexical.Docs(), from, to)
      ensures n == |RowsForFile(old(store.View()), from)|
    {
      hide Consistent, Uniform, ViewOf, Represents, AsMap, CarryAll, LiveRows, LiveHashes, RowsForFile, Rekey, Repathed, Redirected, RepathStepwise, Agree;
      ghost var v, docs := store.View(), lexical.Docs();
      NothingPending(lexical.committed);
      RekeyMeaning(v, from, to);
      AgreeRekey(v, docs, from, to);
      var rows := RowsForFile(store.View(), from);
      n := store.RekeyFile(from, to);
      if n > 0 {
        lexical.UpdateFilePaths(PathsTo(rows, to));
        lexical.Commit();
      } else {
        NoRepath(docs, to);
      }
    }

    /** Applies git's changes: deletions and renames at once, the rest as work for the pass. The
        first file that cannot be read ends it, with the `n` changes up to that one applied. */
    method ApplyFileChanges(changes: seq<FileChange>, tree: map<string, WorkItem>, failing: set<string>, work: seq<WorkItem>)
        returns (error: Option<IndexError>, work': seq<WorkItem>, ghost n: nat)
      requires Valid() && Balanced() && WellFormed(tree, failing) && FromTree(tree, work)
      modifies this, store, lexical
      ensures Valid() && Balanced()
      ensures ActivePaths(store.disk) == old(ActivePaths(store.disk))
      ensures n <= |changes| && Applied(old(store.View()), old(lexical.Docs()), changes[..n], store.View(), lexical.Docs())
      ensures error.None? ==> n == |changes| && forall c | c in changes :: !Fails(c, failing)
      ensures error.Some? ==> n > 0 && Fails(changes[n - 1], failing) && forall c | c in changes[..n - 1] :: !Fails(c, failing)
      ensures FromTree(tree, work') && work <= work'
      ensures error.None? ==> forall c | c in changes && !c.Deleted? && TargetOf(c) in tree :: tree[TargetOf(c)] in work'
      ensures report.liveBefore == old(report).liveBefore
    {
      hide Consistent, Uniform, ViewOf, Agree, Represents, AsMap, CarryAll, LiveRows, LiveHashes, RowsForFile, Rekey, Tombstone, ChangedView,
        Refiled, Retold, Dropped, Unlisted, Repathed, Redirected;
      ghost var v, docs := store.View(), lexical.Docs();
      NothingChanged(v, docs, changes);
      work', n := work, 0;
      for i := 0 to |changes|
        invariant n == i && forall j | 0 <= j < i :: !Fails(changes[j], failing)
        invariant Valid() && Balanced()
        invariant ActivePaths(store.disk) == old(ActivePaths(store.disk))
        invariant Applied(v, docs, changes[..i], store.View(), lexical.Docs())
        invariant FromTree(tree, work') && work <= work'
        invariant forall j | 0 <= j < i && !changes[j].Deleted? && TargetOf(changes[j]) in tree :: tree[TargetOf(changes[j])] in work'
        invariant report.liveBefore == old(report).liveBefore
      {
        ChangedStep(v, changes, i);
        var change := changes[i];
        assert changes[..i + 1] == changes[..i] + [change];
        ghost var cur, now := store.View(), lexical.Docs();
        n := i + 1;
        if change.Deleted? {
          ApplyDelete(change.path);
          RefiledDelete(v, docs, cur, now, store.View(), lexical.Docs(), changes[..i], change.path);
        } else if change.Renamed? {
          var moved := ApplyRename(change.from, change.to);
          RefiledRename(v, docs, cur, now, store.View(), lexical.Docs(), changes[..i], change.from, change.to);
          if moved > 0 && change.to !in tree && change.to !in failing {
            report := report.(filesIndexed := report.filesIndexed + 1);
          }
        } else {
          RefiledRead(v, cur, changes[..i], change);
        }
        if !change.Deleted? && TargetOf(change) in failing {
          return Some(ReadFailed(TargetOf(change))), work', n;
        }
        if !change.Deleted? && TargetOf(change) in tree {
          work' := work' + [tree[TargetOf(change)]];
        }
      }
      assert changes[..|changes|] == changes;
      error := None;
    }

    /** An incremental index: git's changes and the dirty paths, then one pass over what they touch. */
    method Update(tree: map<string, WorkItem>, failing: set<string>, walked: seq<WorkItem>, changes: Option<seq<FileChange>>,
                  git: Worktree, generation: string)
        returns (r: Result<IndexReport, IndexError>, ghost items: seq<WorkItem>, ghost mid: View, ghost now: map<RowId, LexicalDoc>)
      requires Valid() && WellFormed(tree, failing) && DistinctRels(walked)
      requires NameFresh(Op.CompactStore(generation), store.disk)
      modifies this, store, lexical
      ensures Valid()
      ensures r.Ok? ==> Reconciles(r.value) && r.value.liveBefore == LiveCount(old(store.View())) && r.value.liveAfter == LiveCount(store.View())
      ensures r.Ok? ==> UniqueLive(mid) && DistinctRels(items) && IndexRun(env.embed, config.compactThreshold, mid, items, store.View())
      ensures r.Ok? && old(store.Contents()).commit.Some? ==>
        && Applied(old(store.View()), old(lexical.Docs()), if changes.Some? then changes.value else [], mid, now)
        && FromTree(tree, items)
        && (changes.Some? ==> forall c | c in changes.value && !c.Deleted? && TargetOf(c) in tree :: tree[TargetOf(c)] in items)
        && (git.dirty && config.dirtyWorktree == IndexWorktree ==> forall p | p in git.dirtyPaths && p in tree :: tree[p] in items)
      ensures r.Ok? ==> git.head.Some? && store.Contents().commit == Some(CommitLabel(git, config.dirtyWorktree))
      ensures r.Ok? && changes.None? && old(store.Contents()).commit.Some? ==> EndsWith(old(store.Contents()).commit.value, "+dirty")
      ensures old(store.Contents()).commit.None? ==>
        mid == old(store.View()) && now == old(lexical.Docs()) && (r.Ok? ==> SameItems(items, walked))
      ensures r.Err? ==>
        || (mid == old(store.View()) && now == old(lexical.Docs()))
        || (changes.Some? && exists n :: 0 <= n <= |changes.value| && Applied(old(store.View()), old(lexical.Docs()), changes.value[..n], mid, now))
      ensures Agree(mid, now) && Traced(env.embed, mid, now, items, store.View(), lexical.Docs())
      ensures old(Embodied(env.embed, store.View(), lexical.Docs())) ==> Embodied(env.embed, store.View(), lexical.Docs())
      ensures r.Err? ==> InterruptedPass(env.embed, mid, items, store.View())
    {
      hide Consistent, ViewOf, LiveRows, Agree, Represents, AsMap, CarryAll, Settled, SettledDocs, SettledByCount, CompletedPass, InterruptedPass,
        Traced, Embodied, Applied, WellFormed, IndexRun;
      ghost var v, docs := store.View(), lexical.Docs();
      items, mid, now := [], v, docs;
      NothingChanged(v, docs, []);
      TracedStart(env.embed, v, docs, []);
      UpdateEmbodied(env.embed, v, docs);
      store.LiveHashesDistinct();
      NothingDone(env.embed, v, []);
      report := EmptyReport(LiveCount(store.View()));
      if git.dirty && config.dirtyWorktree == Refuse {
        return Err(DirtyRefused), items, mid, now;
      }
      var base := store.Contents().commit;
      if base.None? {
        store.LiveHashesDistinct();
        r, items := IndexAll(walked, git, generation);
        return;
      }
      var dirtyWork := DirtyWork(tree, failing, git, config.dirtyWorktree);
      if dirtyWork.Err? {
        return Err(dirtyWork.error), items, mid, now;
      }
      var work := dirtyWork.value;
      if changes.Some? {
        var failed;
        ghost var n;
        failed, work, n := ApplyFileChanges(changes.value, tree, failing, dirtyWork.value);
        mid, now := store.View(), lexical.Docs();
        assert n == |changes.value| ==> changes.value[..n] == changes.value;
        if failed.Some? {
          store.LiveHashesDistinct();
          NothingDone(env.embed, mid, []);
          TracedStart(env.embed, mid, now, []);
          return Err(failed.value), items, mid, now;
        }
      } else if !EndsWith(base.value, DIRTY_COMMIT_SUFFIX) {
        return Err(GitFailed), items, mid, now;
      }
      mid, now := store.View(), lexical.Docs();
      store.LiveHashesDistinct();
      var unique := FirstPerRel(tree, work);
      var delivered := Deliver(unique);
      items := delivered;
      var error := ProcessWorkItems(delivered);
      if error.Some? {
        return Err(error.value), items, mid, now;
      }
      ghost var cur, then' := store.View(), lexical.Docs();
      r := Finish(git, generation);
      TracedSettled(env.embed, config.compactThreshold, mid, now, items, cur, then');
      RunEnds(env.embed, config.compactThreshold, mid, items, cur);
    }
  }

  lemma {:induction false} CoveredPrefix(rows: seq<RowId>, n: nat)
    requires Ascending(rows) && n <= |rows| && forall k: nat | k < n :: k in rows
    ensures forall k | 0 <= k < n :: rows[k] == k
  {
    if n > 0 {
      CoveredPrefix(rows, n - 1);
      AscendingLowerBound(rows, n - 1);
      var last: nat := n - 1;
      assert last in rows;
      var j :| 0 <= j < |rows| && rows[j] == last;
      assert j >= n - 1;
    }
  }

  // ---------- The limits of the count check ----------

  /** No dead row comes before a live one. */
  ghost predicate LiveFirst(v: View) {
    forall k | 0 <= k < LiveCount(v) :: LiveAt(v, k)
  }

  lemma LiveFirstRows(v: View)
    requires LiveFirst(v)
    ensures forall k | 0 <= k < LiveCount(v) :: LiveRows(v)[k] == k
    ensures forall r :: LiveAt(v, r) <==> 0 <= r < LiveCount(v)
  {
    var rows := LiveRows(v);
    LiveRowsMeaning(v);
    CoveredPrefix(rows, |rows|);
    forall r | LiveAt(v, r)
      ensures r < LiveCount(v)
    {
      assert r in rows;
    }
  }

  /** If a crash separates a compaction from the lexical commit that follows it, the counts still
      match, and the two agree only when no dead row came before a live one. */
  lemma CountCheckBlindSpot(v: View, docs: map<RowId, LexicalDoc>)
    requires Agree(v, docs)
    ensures |docs| == LiveCount(Compact(v))
    ensures Agree(Compact(v), docs) <==> LiveFirst(v)
  {
    hide LiveRows, Compact;
    AgreeCount(v, docs);
    CompactPreserves(v);
    CompactMeaning(v);
    if Agree(Compact(v), docs) {
      assert forall k | 0 <= k < LiveCount(v) :: LiveAt(Compact(v), k) && k in docs;
    }
    if LiveFirst(v) {
      LiveFirstRows(v);
    }
  }

  lemma MovedRowDisagrees(v: View, docs: map<RowId, LexicalDoc>, from: string, to: string, r: RowId)
    requires Agree(v, docs) && LiveAt(v, r) && v[r].rec.file == from
    ensures from != to ==> !Agree(Rekey(v, from, to), docs)
  {
    assert r in docs && docs[r].file == from && Rekey(v, from, to)[r].rec.file == to;
  }

  lemma UnmovedAgree(v: View, docs: map<RowId, LexicalDoc>, from: string, to: string)
    requires Agree(v, docs)
    ensures from == to || (forall r | LiveAt(v, r) :: v[r].rec.file != from) ==> Agree(Rekey(v, from, to), docs)
  {
    if from == to || forall r | LiveAt(v, r) :: v[r].rec.file != from {
      assert Rekey(v, from, to) == v;
    }
  }

  /** The same gap after a rename in the store: the counts always match, and the two agree only
      when the rename moved nothing. */
  lemma RenameBlindSpot(v: View, docs: map<RowId, LexicalDoc>, from: string, to: string)
    requires Agree(v, docs)
    ensures |docs| == LiveCount(Rekey(v, from, to))
    ensures Agree(Rekey(v, from, to), docs) <==> from == to || RowsForFile(v, from) == []
  {
    hide LiveRows, RowsForFile, Rekey, Agree;
    AgreeCount(v, docs);
    RekeyMeaning(v, from, to);
    RowsForFileMeaning(v, from);
    var rows := RowsForFile(v, from);
    if rows != [] {
      assert rows[0] in rows;
      MovedRowDisagrees(v, docs, from, to, rows[0]);
    } else {
      assert forall r | LiveAt(v, r) :: r !in rows && v[r].rec.file != from;
    }
    UnmovedAgree(v, docs, from, to);
  }

  lemma Smaller(a: set<RowId>, b: set<RowId>, x: RowId)
    requires a <= b && x in b && x !in a
    ensures |a| < |b|
  {
    assert b == (b - a) + a;
    assert x in b - a;
  }

  /** After a crash between a tombstone and its lexical commit, the counts differ exactly when a
      live row was tombstoned. */
  lemma TombstoneGapSeen(v: View, docs: map<RowId, LexicalDoc>, rows: seq<RowId>)
    requires Agree(v, docs)
    ensures |docs| != LiveCount(Tombstone(v, rows)) <==> Tombstone(v, rows) != v
  {
    hide LiveRows;
    AgreeCount(v, docs);
    var t := Tombstone(v, rows);
    LiveCountIsCardinality(v);
    LiveCountIsCardinality(t);
    LiveRowsMeaning(v);
    LiveRowsMeaning(t);
    TombstoneMeaning(v, rows);
    var before, after := RowSet(LiveRows(v)), RowSet(LiveRows(t));
    assert after <= before;
    if t != v {
      var r :| 0 <= r < |v| && t[r] != v[r];
      assert r in before && r !in after;
      Smaller(after, before, r);
    }
  }

  lemma InsertedTail(v: View, chunks: seq<(ChunkRecord, Vector)>) returns (tail: View)
    requires UniqueLive(v)
    ensures InsertAll(v, chunks).0 == v + tail && forall k | 0 <= k < |tail| :: tail[k].live
  {
    hide LiveRows, InsertAll, UniqueLive;
    var w := InsertAll(v, chunks).0;
    InsertAllMeaning(v, chunks);
    tail := w[|v|..];
    assert w == v + tail;
    forall k | 0 <= k < |tail|
      ensures tail[k].live
    {
      InsertAllAdded(v, chunks, |v| + k);
    }
  }

  /** After a crash between a batch and its lexical commit, the counts differ exactly when the
      batch added a row. */
  lemma InsertGapSeen(v: View, docs: map<RowId, LexicalDoc>, chunks: seq<(ChunkRecord, Vector)>)
    requires UniqueLive(v) && Agree(v, docs)
    ensures |docs| != LiveCount(InsertAll(v, chunks).0) <==> InsertAll(v, chunks).0 != v
  {
    hide LiveRows, InsertAll, UniqueLive;
    AgreeCount(v, docs);
    var tail := InsertedTail(v, chunks);
    LiveCountAppend(v, tail);
  }

  // ---------- The gaps, with inputs ----------

  function SampleRow(file: string, digest: int, live: bool, vec: Vector): StoredRow {
    StoredRow(SampleRecord(file, digest), live, vec)
  }

  function SampleDoc(file: string): LexicalDoc {
    LexicalDoc("f", "fn f()", None, file, "")
  }

  /** A dead row before a live one: the compaction goes unnoticed and the copies disagree. */
  lemma CompactionGapExists(vec: Vector) returns (v: View, docs: map<RowId, LexicalDoc>)
    ensures forall row | row in v :: row.vec == vec
    ensures UniqueLive(v) && Agree(v, docs)
    ensures |docs| == LiveCount(Compact(v)) && !Agree(Compact(v), docs)
  {
    v := [SampleRow("a", 1, false, vec), SampleRow("a", 2, true, vec)];
    docs := map[1 := SampleDoc("a")];
    assert v[..1] == [v[0]] && v[..1][..0] == [];
    assert LiveRows(v[..1]) == [];
    assert LiveRows(v) == [1];
    CountCheckBlindSpot(v, docs);
    assert LiveCount(v) == 1 && !LiveAt(v, 0);
  }

  /** A file with a live row is renamed: the rename goes unnoticed and the copies disagree. */
  lemma RenameGapExists(vec: Vector) returns (v: View, docs: map<RowId, LexicalDoc>, from: string, to: string)
    ensures forall row | row in v :: row.vec == vec
    ensures UniqueLive(v) && Agree(v, docs)
    ensures |docs| == LiveCount(Rekey(v, from, to)) && !Agree(Rekey(v, from, to), docs)
  {
    v, from, to := [SampleRow("a", 1, true, vec)], "a", "b";
    docs := map[0 := SampleDoc("a")];
    RenameBlindSpot(v, docs, from, to);
    MovedRowDisagrees(v, docs, from, to, 0);
  }
}
