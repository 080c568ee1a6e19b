// What a crash in the middle of an index run leaves in the store and in the lexical index, and
// whether the check made on reopening the index notices.

module Recovery {
  import opened Wrappers
  import opened Records
  import opened StoreView
  import opened StoreDir
  import opened Crash
  import opened Lexical
  import opened Agreement
  import opened Pipeline

  /** One change an index run makes in both copies: the store first, then one lexical commit. */
  datatype IndexStep =
    | Flush(batch: seq<Chunk>)
    | Remove(rows: seq<RowId>)
    | Rename(from: string, to: string)
    | Shrink(generation: string)
    | Label(commit: string)

  function StoreOp(embed: string -> Vector, s: IndexStep): Op {
    match s
    case Flush(batch) => InsertBatch(Embedded(embed, batch), false)
    case Remove(rows) => TombstoneRows(rows)
    case Rename(from, to) => RekeyFile(from, to)
    case Shrink(generation) => CompactStore(generation)
    case Label(commit) => SetIndexedCommit(commit)
  }

  /** The documents the lexical commit makes visible. */
  function DocsAfter(v: View, docs: map<RowId, LexicalDoc>, s: IndexStep): map<RowId, LexicalDoc> {
    match s
    case Flush(batch) => AddAll(docs, NumberedDocs(|v|, batch))
    case Remove(rows) => RemoveAll(docs, rows)
    case Rename(from, to) => RepathStepwise(docs, docs, PathsTo(RowsForFile(v, from), to))
    case Shrink(_) => RenumberStepwise(docs, docs, RowMapping(v))
    case Label(_) => docs
  }

  /** What the pipeline sees to before a step. */
  ghost predicate ReadyFor(embed: string -> Vector, d: Disk, s: IndexStep)
    requires Recoverable(d)
  {
    && NameFresh(StoreOp(embed, s), d)
    && (s.Flush? ==> DimsMatch(ActiveMatrix(d).dims, Embedded(embed, s.batch)) && NovelBatch(ViewOf(d), Embedded(embed, s.batch)))
  }

  /** A step from its first write to its lexical commit. */
  ghost predicate StepDone(embed: string -> Vector, d: Disk, docs: map<RowId, LexicalDoc>, s: IndexStep,
                           d': Disk, docs': map<RowId, LexicalDoc>) {
    Consistent(d) ==>
      && ReadyFor(embed, d, s)
      && d' == PerformAll(d, Writes(StoreOp(embed, s), d))
      && docs' == DocsAfter(ViewOf(d), docs, s)
  }

  ghost predicate StepsDone(embed: string -> Vector, disks: seq<Disk>, docs: seq<map<RowId, LexicalDoc>>, steps: seq<IndexStep>) {
    && |disks| == |docs| == |steps| + 1
    && forall i | 0 <= i < |steps| :: StepDone(embed, disks[i], docs[i], steps[i], disks[i + 1], docs[i + 1])
  }

  lemma StepAgrees(embed: string -> Vector, d: Disk, docs: map<RowId, LexicalDoc>, s: IndexStep)
    requires Consistent(d) && ReadyFor(embed, d, s) && Agree(ViewOf(d), docs)
    ensures var d' := PerformAll(d, Writes(StoreOp(embed, s), d));
      Consistent(d') && Agree(ViewOf(d'), DocsAfter(ViewOf(d), docs, s))
  {
    hide Agree, Writes, PerformAll, ViewOf, Tombstone, Rekey, Compact, RowMapping, AddAll, RemoveAll, InsertAll, Substitute,
      RepathStepwise, RenumberStepwise, NovelBatch, RowsForFile;
    OpDone(d, StoreOp(embed, s));
    ViewUnique(d);
    var v := ViewOf(d);
    match s
    case Flush(batch) =>
      InsertAllNovel(v, Embedded(embed, batch));
      AgreeAppend(v, docs, embed, batch);
    case Remove(rows) => AgreeTombstone(v, docs, rows);
    case Rename(from, to) => AgreeRekey(v, docs, from, to);
    case Shrink(_) => AgreeCompact(v, docs);
    case Label(_) =>
  }

  lemma LastStep(embed: string -> Vector, disks: seq<Disk>, docs: seq<map<RowId, LexicalDoc>>, steps: seq<IndexStep>)
    requires StepsDone(embed, disks, docs, steps) && steps != []
    requires Consistent(disks[|steps| - 1]) && Agree(ViewOf(disks[|steps| - 1]), docs[|steps| - 1])
    ensures Consistent(disks[|steps|]) && Agree(ViewOf(disks[|steps|]), docs[|steps|])
  {
    hide Agree, Writes, PerformAll, DocsAfter, ReadyFor, ViewOf;
    var last := |steps| - 1;
    assert StepDone(embed, disks[last], docs[last], steps[last], disks[last + 1], docs[last + 1]);
    StepAgrees(embed, disks[last], docs[last], steps[last]);
  }

  /** Between its steps, an index run on a created store keeps both copies in agreement. */
  lemma {:induction false} RunAgrees(embed: string -> Vector, disks: seq<Disk>, docs: seq<map<RowId, LexicalDoc>>, steps: seq<IndexStep>,
                                     dims: nat, modelId: string)
    requires StepsDone(embed, disks, docs, steps) && disks[0] == CreatedStore(dims, modelId) && docs[0] == map[]
    ensures Consistent(disks[|steps|]) && Agree(ViewOf(disks[|steps|]), docs[|steps|])
  {
    hide StepDone;
    if steps == [] {
      assert ViewOf(disks[0]) == [];
    } else {
      var last := |steps| - 1;
      RunAgrees(embed, disks[..last + 1], docs[..last + 1], steps[..last], dims, modelId);
      LastStep(embed, disks, docs, steps);
    }
  }

  /** The counts match and the copies disagree. */
  ghost predicate Unnoticed(v: View, docs: map<RowId, LexicalDoc>) {
    |docs| == LiveCount(v) && !Agree(v, docs)
  }

  /** The two kinds of step whose loss the counts do not show: a compaction that moves a row, and
      a rename of a file that has rows. */
  ghost predicate Blind(v: View, s: IndexStep) {
    match s
    case Shrink(_) => !LiveFirst(v)
    case Rename(from, to) => from != to && RowsForFile(v, from) != []
    case _ => false
  }

  function EffectView(embed: string -> Vector, dims: nat, v: View, s: IndexStep): View {
    Effect(StoreOp(embed, s), Contents(v, None, dims, "")).view
  }

  /** A step whose lexical commit is lost goes unnoticed exactly when it is one of these two. */
  lemma LostCommit(embed: string -> Vector, dims: nat, v: View, docs: map<RowId, LexicalDoc>, s: IndexStep)
    requires UniqueLive(v) && Agree(v, docs)
    ensures Unnoticed(EffectView(embed, dims, v, s), docs) <==> Blind(v, s)
  {
    hide Agree, Tombstone, Rekey, Compact, InsertAll, RowsForFile, LiveRows, UniqueLive, LiveFirst;
    AgreeCount(v, docs);
    match s
    case Flush(batch) => InsertGapSeen(v, docs, Embedded(embed, batch));
    case Remove(rows) => TombstoneGapSeen(v, docs, rows);
    case Rename(from, to) => RenameBlindSpot(v, docs, from, to);
    case Shrink(_) => CountCheckBlindSpot(v, docs);
    case Label(_) =>
  }

  /** Every crash point of an index run. The run has carried out `steps` and is cut off in step
      `s`, after any number of its durable writes and before its lexical commit. The store opens;
      and the copies agree, or the counts differ and the index is refused, except for one of the
      two blind steps, cut off after its effect on the store. */
  lemma CrashClassified(embed: string -> Vector, disks: seq<Disk>, docs: seq<map<RowId, LexicalDoc>>, steps: seq<IndexStep>,
                        dims: nat, modelId: string, s: IndexStep, writes: nat)
    requires StepsDone(embed, disks, docs, steps) && disks[0] == CreatedStore(dims, modelId) && docs[0] == map[]
    requires Consistent(disks[|steps|]) ==> ReadyFor(embed, disks[|steps|], s) && writes <= |Writes(StoreOp(embed, s), disks[|steps|])|
    ensures Consistent(disks[|steps|]) && ReadyFor(embed, disks[|steps|], s)
    ensures var d, left := disks[|steps|], docs[|steps|];
      var reopened := Open(PerformAll(d, Writes(StoreOp(embed, s), d)[..writes]));
      && reopened.Ok? && Consistent(reopened.value)
      && var before, after := ViewOf(d), ViewOf(reopened.value);
        && (after == before || after == EffectView(embed, ActiveMatrix(d).dims, before, s))
        && (Unnoticed(after, left) <==>
              after == EffectView(embed, ActiveMatrix(d).dims, before, s) && Blind(before, s))
  {
    hide Agree, Writes, PerformAll, ViewOf, Tombstone, Rekey, Compact, InsertAll, RowsForFile, LiveRows, UniqueLive, Blind, Open,
      NameFresh, StepDone, NovelBatch;
    RunAgrees(embed, disks, docs, steps, dims, modelId);
    var d, left := disks[|steps|], docs[|steps|];
    ReopenSucceeds(d, StoreOp(embed, s), writes);
    ViewUnique(d);
    LostCommit(embed, ActiveMatrix(d).dims, ViewOf(d), left, s);
  }
}
