// Crash safety of the chunk store: the durable writes of every operation, in order, and what a
// directory shows when it is reopened after any number of them.

module Crash {
  import opened Wrappers
  import opened Records
  import opened StoreView
  import opened StoreDir

  datatype Op =
    | InsertBatch(chunks: seq<(ChunkRecord, Vector)>, commitFails: bool)
    | TombstoneRows(rows: seq<RowId>)
    | RekeyFile(from: string, to: string)
    | CompactStore(generation: string)
    | SetIndexedCommit(commit: string)

  /** Everything a reader of an opened store can see. */
  datatype Contents = Contents(view: View, commit: Option<string>, dims: nat, modelId: string)

  function ContentsOf(d: Disk): Contents
    requires Recoverable(d)
  {
    Contents(ViewOf(d), CommitOf(d), ActiveMatrix(d).dims, ActiveMatrix(d).modelId)
  }

  predicate DimsMatch(dims: nat, chunks: seq<(ChunkRecord, Vector)>) {
    forall c | c in chunks :: |c.1| == dims
  }

  /** What an operation is for, on contents alone. */
  function Effect(op: Op, c: Contents): Contents {
    match op
    case InsertBatch(chunks, commitFails) =>
      if !DimsMatch(c.dims, chunks) || commitFails then c else c.(view := InsertAll(c.view, chunks).0)
    case TombstoneRows(rows) => c.(view := Tombstone(c.view, rows))
    case RekeyFile(from, to) => c.(view := Rekey(c.view, from, to))
    case CompactStore(_) => c.(view := Compact(c.view))
    case SetIndexedCommit(commit) => c.(commit := Some(commit))
  }

  // ---------- Row widths ----------

  /** Every row is as wide as the store's dimension says. */
  ghost predicate Uniform(c: Contents) {
    forall i | 0 <= i < |c.view| :: |c.view[i].vec| == c.dims
  }

  lemma InsertUniform(c: Contents, chunks: seq<(ChunkRecord, Vector)>)
    requires Uniform(c) && UniqueLive(c.view) && DimsMatch(c.dims, chunks)
    ensures Uniform(c.(view := InsertAll(c.view, chunks).0))
  {
    hide InsertAll;
    InsertAllMeaning(c.view, chunks);
    var w := InsertAll(c.view, chunks).0;
    forall i | 0 <= i < |w|
      ensures |w[i].vec| == c.dims
    {
      if i >= |c.view| {
        InsertAllAdded(c.view, chunks, i);
      } else {
        assert w[i] == c.view[i];
      }
    }
  }

  /** Every operation keeps rows uniform: a batch of another width is refused. */
  lemma EffectUniform(op: Op, c: Contents)
    requires Uniform(c) && UniqueLive(c.view)
    ensures Uniform(Effect(op, c))
  {
    match op
    case InsertBatch(chunks, commitFails) =>
      if DimsMatch(c.dims, chunks) {
        InsertUniform(c, chunks);
      }
    case CompactStore(_) =>
      CompactMeaning(c.view);
    case _ =>
  }

  // ---------- The durable writes of each operation ----------

  function AppendWrites(m: FileName, first: RowId, rows: View): seq<Write> {
    if rows == [] then []
    else
      var last := |rows| - 1;
      AppendWrites(m, first, rows[..last])
      + [WriteSlot(m, first + last, rows[last].vec), WriteHeader(m, first + last + 1)]
  }

  function DbRows(first: RowId, rows: View): seq<DbRow> {
    seq(|rows|, i requires 0 <= i < |rows| => DbRow(first + i, rows[i].rec, rows[i].live))
  }

  function TombstoneTable(chunks: seq<DbRow>, rows: seq<RowId>): seq<DbRow> {
    seq(|chunks|, i requires 0 <= i < |chunks| => chunks[i].(live := chunks[i].live && chunks[i].rowid !in rows))
  }

  function RekeyTable(chunks: seq<DbRow>, from: string, to: string): seq<DbRow> {
    seq(|chunks|, i requires 0 <= i < |chunks| =>
      if chunks[i].live && chunks[i].rec.file == from then chunks[i].(rec := chunks[i].rec.(file := to)) else chunks[i])
  }

  ghost function Added(v: View, chunks: seq<(ChunkRecord, Vector)>): View
    requires |v| <= |InsertAll(v, chunks).0|
  {
    InsertAll(v, chunks).0[|v|..]
  }

  ghost function InsertWrites(d: Disk, chunks: seq<(ChunkRecord, Vector)>, commitFails: bool): seq<Write>
    requires Recoverable(d) && |ViewOf(d)| <= |InsertAll(ViewOf(d), chunks).0|
  {
    var p := ActivePaths(d);
    var n := |ViewOf(d)|;
    var added := Added(ViewOf(d), chunks);
    AppendWrites(p.matrix, n, added)
    + [WriteHeader(p.matrix, n + |added|)]
    + [if commitFails then WriteHeader(p.matrix, n)
       else CommitChunks(p.db, ActiveDb(d).chunks + DbRows(n, added))]
  }

  function MetaWrites(db: FileName, commit: Option<string>): seq<Write> {
    if commit.Some? then [CommitMeta(db, commit.value)] else []
  }

  /** Writing a complete new generation beside the active one. */
  function BuildWrites(pair: Pair, c: Contents): seq<Write> {
    var live := Compact(c.view);
    [RemoveDb(pair.db), RemoveMatrix(pair.matrix), CreateMatrix(pair.matrix, c.dims, c.modelId), CreateDb(pair.db)]
    + MetaWrites(pair.db, c.commit)
    + AppendWrites(pair.matrix, 0, live)
    + [WriteHeader(pair.matrix, |live|), CommitChunks(pair.db, DbRows(0, live)), TrimMatrix(pair.matrix)]
  }

  function GenerationPair(generation: string): Pair {
    Pair(Generation(generation), Generation(generation))
  }

  ghost function CompactWrites(d: Disk, generation: string): seq<Write>
    requires Recoverable(d)
  {
    var former := ActivePaths(d);
    BuildWrites(GenerationPair(generation), ContentsOf(d))
    + [PublishManifest(GenerationPair(generation)), RemoveMatrix(former.matrix), RemoveDb(former.db)]
  }

  lemma ViewUnique(d: Disk)
    requires Recoverable(d)
    ensures UniqueLive(ViewOf(d))
  {
    var v := ViewOf(d);
    var chunks := ActiveDb(d).chunks;
    assert forall i | LiveAt(v, i) :: chunks[i].live && chunks[i].rec == v[i].rec;
  }

  ghost function Writes(op: Op, d: Disk): seq<Write>
    requires Consistent(d)
  {
    match op
    case InsertBatch(chunks, commitFails) =>
      ViewUnique(d);
      InsertAllMeaning(ViewOf(d), chunks);
      if DimsMatch(ActiveMatrix(d).dims, chunks) then InsertWrites(d, chunks, commitFails) else []
    case TombstoneRows(rows) => [CommitChunks(ActivePaths(d).db, TombstoneTable(ActiveDb(d).chunks, rows))]
    case RekeyFile(from, to) => [CommitChunks(ActivePaths(d).db, RekeyTable(ActiveDb(d).chunks, from, to))]
    case CompactStore(generation) => CompactWrites(d, generation)
    case SetIndexedCommit(commit) => [CommitMeta(ActivePaths(d).db, commit)]
  }

  /** Generation names come from the clock; a compaction never reuses the name of the active pair. */
  predicate NameFresh(op: Op, d: Disk) {
    op.CompactStore? ==> ActivePaths(d).db != Generation(op.generation) && ActivePaths(d).matrix != Generation(op.generation)
  }

  // ---------- Writes that a reader cannot see ----------

  /** `d'` shows a reader exactly what `d` does. */
  ghost predicate Undisturbed(d: Disk, d': Disk)
    requires Recoverable(d)
  {
    var n := |ActiveDb(d).chunks|;
    && ActivePaths(d') == ActivePaths(d)
    && HasActive(d')
    && ActiveDb(d') == ActiveDb(d)
    && ActiveMatrix(d').dims == ActiveMatrix(d).dims
    && ActiveMatrix(d').modelId == ActiveMatrix(d).modelId
    && n <= ActiveMatrix(d').rows <= |ActiveMatrix(d').slots|
    && ActiveMatrix(d').slots[..n] == ActiveMatrix(d).slots[..n]
  }

  lemma UndisturbedContents(d: Disk, d': Disk)
    requires Recoverable(d) && Undisturbed(d, d')
    ensures Recoverable(d') && ContentsOf(d') == ContentsOf(d)
  {
    var n := |ActiveDb(d).chunks|;
    forall i | 0 <= i < n
      ensures ViewOf(d')[i] == ViewOf(d)[i]
    {
      assert ActiveMatrix(d').slots[..n][i] == ActiveMatrix(d).slots[..n][i];
    }
    assert ViewOf(d') == ViewOf(d);
  }

  /** A write that leaves the files of `pair` and the manifest alone. */
  predicate Foreign(pair: Pair, w: Write) {
    match w
    case WriteSlot(m, _, _) => m != pair.matrix
    case WriteHeader(m, _) => m != pair.matrix
    case TrimMatrix(m) => m != pair.matrix
    case CreateMatrix(m, _, _) => m != pair.matrix
    case CreateDb(db) => db != pair.db
    case CommitChunks(db, _) => db != pair.db
    case CommitMeta(db, _) => db != pair.db
    case PublishManifest(_) => false
    case RemoveDb(db) => db != pair.db
    case RemoveMatrix(m) => m != pair.matrix
  }

  lemma ForeignUndisturbed(d: Disk, d1: Disk, w: Write)
    requires Recoverable(d) && Undisturbed(d, d1) && Foreign(ActivePaths(d), w)
    ensures Undisturbed(d, Perform(d1, w))
  {
  }

  lemma {:induction false} ForeignPrefix(d: Disk, ws: seq<Write>)
    requires Recoverable(d) && forall w | w in ws :: Foreign(ActivePaths(d), w)
    ensures Undisturbed(d, PerformAll(d, ws))
  {
    if ws != [] {
      var last := |ws| - 1;
      ForeignPrefix(d, ws[..last]);
      ForeignUndisturbed(d, PerformAll(d, ws[..last]), ws[last]);
    }
  }

  // ---------- Appending rows to one matrix file ----------

  function MatrixAppend(m: MatrixFile, rows: View): MatrixFile {
    if rows == [] then m
    else
      var last := |rows| - 1;
      var before := MatrixAppend(m, rows[..last]);
      before.(slots := PutSlot(before.slots, m.rows + last, rows[last].vec), rows := m.rows + last + 1)
  }

  lemma {:induction false} MatrixAppendMeaning(m: MatrixFile, rows: View)
    requires m.rows <= |m.slots|
    ensures var a := MatrixAppend(m, rows);
      && a.dims == m.dims && a.modelId == m.modelId
      && a.rows == m.rows + |rows| <= |a.slots|
      && a.slots[..m.rows] == m.slots[..m.rows]
      && (forall i | 0 <= i < |rows| :: a.slots[m.rows + i] == rows[i].vec)
      && (m.slots == [] ==> |a.slots| == a.rows)
  {
    if rows != [] {
      MatrixAppendMeaning(m, rows[..|rows| - 1]);
    }
  }

  lemma AppendStep(d: Disk, name: FileName, m: MatrixFile, row: RowId, vec: Vector)
    ensures Perform(Perform(WithMatrix(d, name, m), WriteSlot(name, row, vec)), WriteHeader(name, row + 1))
      == WithMatrix(d, name, m.(slots := PutSlot(m.slots, row, vec), rows := row + 1))
  {
    var a := m.(slots := PutSlot(m.slots, row, vec));
    assert Perform(WithMatrix(d, name, m), WriteSlot(name, row, vec)) == WithMatrix(d, name, a);
  }

  lemma NothingAppended(d: Disk, name: FileName)
    requires name in d.matrices
    ensures PerformAll(d, []) == WithMatrix(d, name, d.matrices[name])
  {
    assert WithMatrix(d, name, d.matrices[name]).matrices == d.matrices;
  }

  lemma PerformAllSnoc(d: Disk, ws: seq<Write>, w: Write)
    ensures PerformAll(d, ws + [w]) == Perform(PerformAll(d, ws), w)
  {
    assert (ws + [w])[..|ws + [w]| - 1] == ws;
  }

  lemma {:induction false} AppendPerformed(d: Disk, name: FileName, rows: View)
    requires name in d.matrices
    ensures PerformAll(d, AppendWrites(name, d.matrices[name].rows, rows))
      == WithMatrix(d, name, MatrixAppend(d.matrices[name], rows))
  {
    hide PerformAll, Perform, WithMatrix;
    var m := d.matrices[name];
    if rows != [] {
      var last := |rows| - 1;
      AppendPerformed(d, name, rows[..last]);
      var ws := AppendWrites(name, m.rows, rows[..last]);
      var slot := WriteSlot(name, m.rows + last, rows[last].vec);
      var header := WriteHeader(name, m.rows + last + 1);
      assert AppendWrites(name, m.rows, rows) == (ws + [slot]) + [header];
      PerformAllSnoc(d, ws, slot);
      PerformAllSnoc(d, ws + [slot], header);
      AppendStep(d, name, MatrixAppend(m, rows[..last]), m.rows + last, rows[last].vec);
    } else {
      NothingAppended(d, name);
    }
  }

  lemma NothingDisturbed(d: Disk)
    requires Consistent(d)
    ensures Undisturbed(d, PerformAll(d, [])) && AppendWrites(ActivePaths(d).matrix, ActiveMatrix(d).rows, []) == []
  {
  }

  lemma AppendUndisturbed(d: Disk, rows: View)
    requires Consistent(d)
    ensures Undisturbed(d, WithMatrix(d, ActivePaths(d).matrix, MatrixAppend(ActiveMatrix(d), rows)))
  {
    MatrixAppendMeaning(ActiveMatrix(d), rows);
  }

  lemma {:induction false} SlotUndisturbed(d: Disk, rows: View, vec: Vector)
    requires Consistent(d)
    ensures Undisturbed(d, Perform(WithMatrix(d, ActivePaths(d).matrix, MatrixAppend(ActiveMatrix(d), rows)),
      WriteSlot(ActivePaths(d).matrix, ActiveMatrix(d).rows + |rows|, vec)))
  {
    MatrixAppendMeaning(ActiveMatrix(d), rows);
  }

  /** At any point inside an append to the active matrix, a reader sees the old rows. */
  lemma {:induction false} AppendPrefix(d: Disk, rows: View, k: nat)
    requires Consistent(d)
    requires k <= |AppendWrites(ActivePaths(d).matrix, ActiveMatrix(d).rows, rows)|
    ensures Undisturbed(d, PerformAll(d, AppendWrites(ActivePaths(d).matrix, ActiveMatrix(d).rows, rows)[..k]))
  {
    hide Undisturbed, PerformAll, Perform, WithMatrix, MatrixAppend;
    var name := ActivePaths(d).matrix;
    var m := ActiveMatrix(d);
    if rows == [] {
      NothingDisturbed(d);
    } else {
      var last := |rows| - 1;
      var init := AppendWrites(name, m.rows, rows[..last]);
      var ws := AppendWrites(name, m.rows, rows);
      if k <= |init| {
        AppendPrefix(d, rows[..last], k);
        assert ws[..k] == init[..k];
      } else {
        AppendPerformed(d, name, rows[..last]);
        var slot := WriteSlot(name, m.rows + last, rows[last].vec);
        assert ws[..|init| + 1] == init + [slot];
        PerformAllSnoc(d, init, slot);
        SlotUndisturbed(d, rows[..last], rows[last].vec);
        if k == |ws| {
          assert ws[..k] == ws;
          AppendPerformed(d, name, rows);
          AppendUndisturbed(d, rows);
        }
      }
    }
  }

  // ---------- Inserting ----------

  lemma InsertPrefix(d: Disk, chunks: seq<(ChunkRecord, Vector)>, commitFails: bool, k: nat)
    requires Consistent(d) && DimsMatch(ActiveMatrix(d).dims, chunks)
    requires k < |Writes(InsertBatch(chunks, commitFails), d)|
    ensures Undisturbed(d, PerformAll(d, Writes(InsertBatch(chunks, commitFails), d)[..k]))
  {
    hide InsertAll, AppendWrites, PerformAll, Dense, UniqueLiveRows;
    var ws := Writes(InsertBatch(chunks, commitFails), d);
    var name := ActivePaths(d).matrix;
    ViewUnique(d);
    InsertAllMeaning(ViewOf(d), chunks);
    var added := Added(ViewOf(d), chunks);
    var appends := AppendWrites(name, |ViewOf(d)|, added);
    if k <= |appends| {
      AppendPrefix(d, added, k);
      assert ws[..k] == appends[..k];
    } else {
      AppendPerformed(d, name, added);
      MatrixAppendMeaning(ActiveMatrix(d), added);
      assert ws[..k] == appends + [WriteHeader(name, |ViewOf(d)| + |added|)];
      PerformAllSnoc(d, appends, WriteHeader(name, |ViewOf(d)| + |added|));
      AppendPrefix(d, added, |appends|);
      assert appends[..|appends|] == appends;
    }
  }

  lemma InsertRolledBack(d: Disk, chunks: seq<(ChunkRecord, Vector)>)
    requires Consistent(d) && DimsMatch(ActiveMatrix(d).dims, chunks)
    ensures var d' := PerformAll(d, Writes(InsertBatch(chunks, true), d));
      Consistent(d') && ContentsOf(d') == ContentsOf(d)
  {
    ViewUnique(d);
    InsertAllMeaning(ViewOf(d), chunks);
    var ws := Writes(InsertBatch(chunks, true), d);
    var last := |ws| - 1;
    InsertPrefix(d, chunks, true, last);
    assert ws[last] == WriteHeader(ActivePaths(d).matrix, |ViewOf(d)|);
    var d' := Perform(PerformAll(d, ws[..last]), ws[last]);
    assert Undisturbed(d, d');
    UndisturbedContents(d, d');
  }

  lemma InsertedMatrix(d: Disk, chunks: seq<(ChunkRecord, Vector)>)
    requires Consistent(d) && DimsMatch(ActiveMatrix(d).dims, chunks)
    ensures UniqueLive(ViewOf(d)) && ViewOf(d) <= InsertAll(ViewOf(d), chunks).0
    ensures var ws := Writes(InsertBatch(chunks, false), d);
      var added := Added(ViewOf(d), chunks);
      |ws| > 0 && PerformAll(d, ws[..|ws| - 1])
      == WithMatrix(d, ActivePaths(d).matrix, MatrixAppend(ActiveMatrix(d), added))
  {
    hide InsertAll, AppendWrites, PerformAll, Dense, UniqueLiveRows;
    var name := ActivePaths(d).matrix;
    ViewUnique(d);
    InsertAllMeaning(ViewOf(d), chunks);
    var added := Added(ViewOf(d), chunks);
    var appends := AppendWrites(name, |ViewOf(d)|, added);
    var header := WriteHeader(name, |ViewOf(d)| + |added|);
    var ws := Writes(InsertBatch(chunks, false), d);
    assert ws[..|ws| - 1] == appends + [header];
    PerformAllSnoc(d, appends, header);
    AppendPerformed(d, name, added);
    MatrixAppendMeaning(ActiveMatrix(d), added);
  }

  lemma UniqueRowsFromView(chunks: seq<DbRow>, slots: seq<Vector>)
    requires |chunks| <= |slots| && UniqueLive(ZipRows(chunks, slots))
    ensures UniqueLiveRows(chunks)
  {
    var v := ZipRows(chunks, slots);
    assert forall i | 0 <= i < |chunks| && chunks[i].live :: LiveAt(v, i) && v[i].rec == chunks[i].rec;
  }

  /** The table and the matrix after an append are those of the longer view. */
  lemma ExtendedRows(d: Disk, added: View)
    requires Consistent(d)
    ensures var n, m := |ViewOf(d)|, ActiveMatrix(d);
      var chunks, slots := ActiveDb(d).chunks + DbRows(n, added), MatrixAppend(m, added).slots;
      && |chunks| == n + |added| <= |slots| && Dense(chunks)
      && ZipRows(chunks, slots) == ViewOf(d) + added
  {
    hide MatrixAppend;
    var m := ActiveMatrix(d);
    MatrixAppendMeaning(m, added);
    var slots := MatrixAppend(m, added).slots;
    var n := |ViewOf(d)|;
    var chunks := ActiveDb(d).chunks + DbRows(n, added);
    var w := ZipRows(chunks, slots);
    forall i | 0 <= i < |chunks|
      ensures w[i] == (ViewOf(d) + added)[i] && chunks[i].rowid == i
    {
      if i < n {
        assert slots[..n][i] == m.slots[..n][i];
      } else {
        assert slots[m.rows + (i - n)] == added[i - n].vec;
      }
    }
    assert w == ViewOf(d) + added;
  }

  lemma ViewLength(d: Disk)
    requires Recoverable(d)
    ensures |ViewOf(d)| == |ActiveDb(d).chunks|
  {
  }

  lemma CommittedInsert(d: Disk, d1: Disk, added: View)
    requires Consistent(d)
    requires d1 == WithMatrix(d, ActivePaths(d).matrix, MatrixAppend(ActiveMatrix(d), added))
    requires UniqueLive(ViewOf(d) + added)
    ensures var d' := Perform(d1, CommitChunks(ActivePaths(d).db, ActiveDb(d).chunks + DbRows(|ViewOf(d)|, added)));
      && Consistent(d')
      && ContentsOf(d') == ContentsOf(d).(view := ViewOf(d) + added)
  {
    hide DbRows, MatrixAppend, UniqueLive, UniqueLiveRows, ZipRows, Dense;
    var m := ActiveMatrix(d);
    MatrixAppendMeaning(m, added);
    ExtendedRows(d, added);
    ViewLength(d);
    UniqueRowsFromView(ActiveDb(d).chunks + DbRows(|ViewOf(d)|, added), MatrixAppend(m, added).slots);
  }

  lemma InsertCommitted(d: Disk, chunks: seq<(ChunkRecord, Vector)>)
    requires Consistent(d) && DimsMatch(ActiveMatrix(d).dims, chunks)
    ensures var d' := PerformAll(d, Writes(InsertBatch(chunks, false), d));
      Consistent(d') && ContentsOf(d') == ContentsOf(d).(view := InsertAll(ViewOf(d), chunks).0)
  {
    hide InsertAll, AppendWrites, Dense, UniqueLiveRows, UniqueLive, DbRows, ViewOf;
    var v := ViewOf(d);
    ViewUnique(d);
    InsertAllMeaning(v, chunks);
    InsertedMatrix(d, chunks);
    var ws := Writes(InsertBatch(chunks, false), d);
    var last := |ws| - 1;
    assert v + Added(v, chunks) == InsertAll(v, chunks).0;
    assert ws[last] == CommitChunks(ActivePaths(d).db, ActiveDb(d).chunks + DbRows(|v|, Added(v, chunks)));
    CommittedInsert(d, PerformAll(d, ws[..last]), Added(v, chunks));
  }

  // ---------- Tombstones, renames and the commit id: one table commit each ----------

  /** Committing a table of the same length that keeps rowids replaces the view and nothing else. */
  lemma TableCommitted(d: Disk, chunks: seq<DbRow>, w: View)
    requires Consistent(d)
    requires |chunks| == |ActiveDb(d).chunks| && Dense(chunks)
    requires ZipRows(chunks, ActiveMatrix(d).slots) == w && UniqueLive(w)
    ensures var d' := PerformAll(d, [CommitChunks(ActivePaths(d).db, chunks)]);
      Consistent(d') && ContentsOf(d') == ContentsOf(d).(view := w)
  {
    var write := CommitChunks(ActivePaths(d).db, chunks);
    assert [write][..0] == [];
    assert PerformAll(d, [write]) == Perform(d, write);
    UniqueRowsFromView(chunks, ActiveMatrix(d).slots);
  }

  lemma TombstoneDone(d: Disk, rows: seq<RowId>)
    requires Consistent(d)
    ensures var d' := PerformAll(d, Writes(TombstoneRows(rows), d));
      Consistent(d') && ContentsOf(d') == Effect(TombstoneRows(rows), ContentsOf(d))
  {
    ViewUnique(d);
    TombstoneMeaning(ViewOf(d), rows);
    var chunks := TombstoneTable(ActiveDb(d).chunks, rows);
    assert ZipRows(chunks, ActiveMatrix(d).slots) == Tombstone(ViewOf(d), rows);
    TableCommitted(d, chunks, Tombstone(ViewOf(d), rows));
  }

  lemma RekeyDone(d: Disk, from: string, to: string)
    requires Consistent(d)
    ensures var d' := PerformAll(d, Writes(RekeyFile(from, to), d));
      Consistent(d') && ContentsOf(d') == Effect(RekeyFile(from, to), ContentsOf(d))
  {
    ViewUnique(d);
    RekeyMeaning(ViewOf(d), from, to);
    var chunks := RekeyTable(ActiveDb(d).chunks, from, to);
    assert ZipRows(chunks, ActiveMatrix(d).slots) == Rekey(ViewOf(d), from, to);
    TableCommitted(d, chunks, Rekey(ViewOf(d), from, to));
  }

  lemma CommitIdDone(d: Disk, commit: string)
    requires Consistent(d)
    ensures var d' := PerformAll(d, Writes(SetIndexedCommit(commit), d));
      Consistent(d') && ContentsOf(d') == Effect(SetIndexedCommit(commit), ContentsOf(d))
  {
    var write := CommitMeta(ActivePaths(d).db, commit);
    assert [write][..0] == [];
    assert PerformAll(d, [write]) == Perform(d, write);
    assert ViewOf(Perform(d, write)) == ViewOf(d);
  }

  // ---------- Compaction ----------

  lemma {:induction false} AppendForeign(pair: Pair, m: FileName, first: RowId, rows: View)
    requires m != pair.matrix
    ensures forall w | w in AppendWrites(m, first, rows) :: Foreign(pair, w)
  {
    if rows != [] {
      AppendForeign(pair, m, first, rows[..|rows| - 1]);
    }
  }

  lemma BuildForeign(pair: Pair, built: Pair, c: Contents)
    requires built.db != pair.db && built.matrix != pair.matrix
    ensures forall w | w in BuildWrites(built, c) :: Foreign(pair, w)
  {
    AppendForeign(pair, built.matrix, 0, Compact(c.view));
  }

  function CreateWrites(pair: Pair, c: Contents): seq<Write> {
    [RemoveDb(pair.db), RemoveMatrix(pair.matrix), CreateMatrix(pair.matrix, c.dims, c.modelId), CreateDb(pair.db)]
    + MetaWrites(pair.db, c.commit)
  }

  lemma Created(d: Disk, pair: Pair, c: Contents)
    ensures var d' := PerformAll(d, CreateWrites(pair, c));
      && pair.db in d'.dbs && d'.dbs[pair.db] == DbFile(SCHEMA_VERSION, [], c.commit)
      && pair.matrix in d'.matrices && d'.matrices[pair.matrix] == MatrixFile(c.dims, c.modelId, 0, [])
  {
    hide PerformAll;
    var w0 := RemoveDb(pair.db);
    var w1 := RemoveMatrix(pair.matrix);
    var w2 := CreateMatrix(pair.matrix, c.dims, c.modelId);
    var w3 := CreateDb(pair.db);
    PerformNone(d);
    PerformAllSnoc(d, [], w0);
    PerformAllSnoc(d, [w0], w1);
    PerformAllSnoc(d, [w0, w1], w2);
    PerformAllSnoc(d, [w0, w1, w2], w3);
    assert [] + [w0] == [w0] && [w0] + [w1] == [w0, w1] && [w0, w1] + [w2] == [w0, w1, w2];
    assert [w0, w1, w2] + [w3] == [w0, w1, w2, w3];
    if c.commit.Some? {
      PerformAllSnoc(d, [w0, w1, w2, w3], CommitMeta(pair.db, c.commit.value));
    } else {
      assert CreateWrites(pair, c) == [w0, w1, w2, w3];
    }
  }

  lemma FinishBuild(d: Disk, pair: Pair, m0: MatrixFile, live: View)
    requires m0.rows == 0 && m0.slots == []
    requires pair.db in d.dbs && pair.matrix in d.matrices && d.matrices[pair.matrix] == MatrixAppend(m0, live)
    ensures var d' := Perform(Perform(Perform(d, WriteHeader(pair.matrix, |live|)),
                        CommitChunks(pair.db, DbRows(0, live))), TrimMatrix(pair.matrix));
      && pair.db in d'.dbs && d'.dbs[pair.db] == d.dbs[pair.db].(chunks := DbRows(0, live))
      && pair.matrix in d'.matrices && d'.matrices[pair.matrix] == MatrixAppend(m0, live)
  {
    MatrixAppendMeaning(m0, live);
    var a := MatrixAppend(m0, live);
    assert a.slots[..a.rows] == a.slots;
  }

  /** The new generation is a complete file pair that holds exactly the live rows. */
  lemma Built(d: Disk, pair: Pair, c: Contents)
    ensures var d' := PerformAll(d, BuildWrites(pair, c));
      var m := MatrixAppend(MatrixFile(c.dims, c.modelId, 0, []), Compact(c.view));
      && pair.db in d'.dbs && d'.dbs[pair.db] == DbFile(SCHEMA_VERSION, DbRows(0, Compact(c.view)), c.commit)
      && pair.matrix in d'.matrices && d'.matrices[pair.matrix] == m
  {
    hide PerformAll, Compact, AppendWrites, MatrixAppend;
    var live := Compact(c.view);
    var m0 := MatrixFile(c.dims, c.modelId, 0, []);
    var creates := CreateWrites(pair, c);
    var appends := AppendWrites(pair.matrix, 0, live);
    var header := WriteHeader(pair.matrix, |live|);
    var commit := CommitChunks(pair.db, DbRows(0, live));
    var trim := TrimMatrix(pair.matrix);
    Created(d, pair, c);
    PerformAllConcat(d, creates, appends);
    AppendPerformed(PerformAll(d, creates), pair.matrix, live);
    MatrixAppendMeaning(m0, live);
    var d2 := PerformAll(d, creates + appends);
    PerformAllSnoc(d, creates + appends, header);
    PerformAllSnoc(d, creates + appends + [header], commit);
    PerformAllSnoc(d, creates + appends + [header] + [commit], trim);
    assert BuildWrites(pair, c) == creates + appends + [header] + [commit] + [trim];
    FinishBuild(d2, pair, m0, live);
  }

  /** The table and the matrix of a new generation are those of the rows copied into it. */
  lemma FreshRows(dims: nat, modelId: string, live: View)
    requires forall i | 0 <= i < |live| :: live[i].live
    ensures var chunks, slots := DbRows(0, live), MatrixAppend(MatrixFile(dims, modelId, 0, []), live).slots;
      && |chunks| == |live| <= |slots| && Dense(chunks)
      && ZipRows(chunks, slots) == live
  {
    hide MatrixAppend;
    var m0 := MatrixFile(dims, modelId, 0, []);
    MatrixAppendMeaning(m0, live);
    var slots := MatrixAppend(m0, live).slots;
    var z := ZipRows(DbRows(0, live), slots);
    forall i | 0 <= i < |live|
      ensures z[i] == live[i]
    {
      assert slots[m0.rows + i] == live[i].vec;
    }
  }

  lemma PublishedContents(d: Disk, pair: Pair, c: Contents)
    requires UniqueLive(c.view)
    ensures var d' := Perform(PerformAll(d, BuildWrites(pair, c)), PublishManifest(pair));
      Consistent(d') && ContentsOf(d') == c.(view := Compact(c.view))
  {
    hide Compact, LiveRows, LiveHashes, UniqueLive, UniqueLiveRows, MatrixAppend, BuildWrites, PerformAll, ZipRows, DbRows, Dense;
    Built(d, pair, c);
    var live := Compact(c.view);
    var m0 := MatrixFile(c.dims, c.modelId, 0, []);
    MatrixAppendMeaning(m0, live);
    CompactUnique(c.view);
    CompactPreserves(c.view);
    FreshRows(c.dims, c.modelId, live);
    UniqueRowsFromView(DbRows(0, live), MatrixAppend(m0, live).slots);
  }

  lemma CompactPrefix(d: Disk, generation: string, k: nat)
    requires Consistent(d) && NameFresh(CompactStore(generation), d)
    requires k <= |Writes(CompactStore(generation), d)|
    ensures var d' := PerformAll(d, Writes(CompactStore(generation), d)[..k]);
      && Recoverable(d')
      && ContentsOf(d') == if k <= |BuildWrites(GenerationPair(generation), ContentsOf(d))|
                           then ContentsOf(d) else Effect(CompactStore(generation), ContentsOf(d))
  {
    hide BuildWrites, PerformAll, ViewOf, Compact, Dense, UniqueLiveRows;
    var pair := GenerationPair(generation);
    var build := BuildWrites(pair, ContentsOf(d));
    var ws := Writes(CompactStore(generation), d);
    var former := ActivePaths(d);
    BuildForeign(former, pair, ContentsOf(d));
    if k <= |build| {
      assert ws[..k] == build[..k];
      ForeignPrefix(d, build[..k]);
      UndisturbedContents(d, PerformAll(d, build[..k]));
    } else {
      var publish := PublishManifest(pair);
      var rest := [RemoveMatrix(former.matrix), RemoveDb(former.db)][..k - |build| - 1];
      assert ws[..k] == (build + [publish]) + rest;
      PerformAllConcat(d, build + [publish], rest);
      PerformAllSnoc(d, build, publish);
      ViewUnique(d);
      PublishedContents(d, pair, ContentsOf(d));
      var d1 := PerformAll(d, build + [publish]);
      ForeignPrefix(d1, rest);
      UndisturbedContents(d1, PerformAll(d1, rest));
    }
  }

  lemma ForeignKeepsActive(d: Disk, w: Write)
    requires HasActive(d) && Foreign(ActivePaths(d), w)
    ensures ActivePaths(Perform(d, w)) == ActivePaths(d) && HasActive(Perform(d, w))
    ensures ActiveDb(Perform(d, w)) == ActiveDb(d) && ActiveMatrix(Perform(d, w)) == ActiveMatrix(d)
  {
  }

  lemma {:induction false} ForeignKeepsRows(d: Disk, ws: seq<Write>)
    requires Recoverable(d) && forall w | w in ws :: Foreign(ActivePaths(d), w)
    ensures ActivePaths(PerformAll(d, ws)) == ActivePaths(d) && HasActive(PerformAll(d, ws))
    ensures ActiveMatrix(PerformAll(d, ws)).rows == ActiveMatrix(d).rows
  {
    if ws != [] {
      var last := |ws| - 1;
      ForeignKeepsRows(d, ws[..last]);
      ForeignKeepsActive(PerformAll(d, ws[..last]), ws[last]);
    }
  }

  lemma CompactDone(d: Disk, generation: string)
    requires Consistent(d) && NameFresh(CompactStore(generation), d)
    ensures var d' := PerformAll(d, Writes(CompactStore(generation), d));
      Consistent(d') && ContentsOf(d') == Effect(CompactStore(generation), ContentsOf(d))
  {
    hide BuildWrites, PerformAll, Compact, ViewOf, Dense, UniqueLiveRows;
    var pair := GenerationPair(generation);
    var build := BuildWrites(pair, ContentsOf(d));
    var ws := Writes(CompactStore(generation), d);
    var former := ActivePaths(d);
    CompactPrefix(d, generation, |ws|);
    assert ws[..|ws|] == ws;
    var publish := PublishManifest(pair);
    var rest := [RemoveMatrix(former.matrix), RemoveDb(former.db)];
    assert ws == (build + [publish]) + rest;
    PerformAllConcat(d, build + [publish], rest);
    PerformAllSnoc(d, build, publish);
    ViewUnique(d);
    PublishedContents(d, pair, ContentsOf(d));
    var d1, d' := PerformAll(d, build + [publish]), PerformAll(d, ws);
    assert d' == PerformAll(d1, rest);
    ForeignKeepsRows(d1, rest);
    ViewLength(d1);
    ViewLength(d');
  }

  // ---------- The theorem for one operation ----------

  lemma {:induction false} KeepsManifest(d: Disk, ws: seq<Write>)
    requires forall w | w in ws :: !w.PublishManifest?
    ensures PerformAll(d, ws).manifest == d.manifest
  {
    if ws != [] {
      KeepsManifest(d, ws[..|ws| - 1]);
      assert ws[|ws| - 1] in ws;
    }
  }

  lemma {:induction false} AppendNoPublish(m: FileName, first: RowId, rows: View)
    ensures forall w | w in AppendWrites(m, first, rows) :: !w.PublishManifest?
  {
    if rows != [] {
      AppendNoPublish(m, first, rows[..|rows| - 1]);
    }
  }

  lemma NoPublish(op: Op, d: Disk)
    requires Consistent(d) && !op.CompactStore?
    ensures forall w | w in Writes(op, d) :: !w.PublishManifest?
  {
    if op.InsertBatch? {
      hide AppendWrites, InsertAll, Dense, UniqueLiveRows;
      ViewUnique(d);
      InsertAllMeaning(ViewOf(d), op.chunks);
      AppendNoPublish(ActivePaths(d).matrix, |ViewOf(d)|, Added(ViewOf(d), op.chunks));
    }
  }

  /** Carried out completely, an operation has its effect and leaves nothing to repair. */
  lemma OpDone(d: Disk, op: Op)
    requires Consistent(d) && NameFresh(op, d)
    ensures var d' := PerformAll(d, Writes(op, d));
      Consistent(d') && ContentsOf(d') == Effect(op, ContentsOf(d))
    ensures !op.CompactStore? ==> ActivePaths(PerformAll(d, Writes(op, d))) == ActivePaths(d)
  {
    if !op.CompactStore? {
      NoPublish(op, d);
      KeepsManifest(d, Writes(op, d));
    }
    match op
    case InsertBatch(chunks, commitFails) =>
      if DimsMatch(ActiveMatrix(d).dims, chunks) {
        if commitFails {
          InsertRolledBack(d, chunks);
        } else {
          InsertCommitted(d, chunks);
        }
      }
    case TombstoneRows(rows) => TombstoneDone(d, rows);
    case RekeyFile(from, to) => RekeyDone(d, from, to);
    case CompactStore(generation) => CompactDone(d, generation);
    case SetIndexedCommit(commit) => CommitIdDone(d, commit);
  }

  lemma OpKeepsUniform(d: Disk, op: Op)
    requires Consistent(d) && NameFresh(op, d) && Uniform(ContentsOf(d))
    ensures var d' := PerformAll(d, Writes(op, d));
      Consistent(d') && Uniform(ContentsOf(d'))
  {
    hide Uniform, Writes, PerformAll, ViewOf;
    OpDone(d, op);
    ViewUnique(d);
    EffectUniform(op, ContentsOf(d));
  }

  /** Cut off after any number of its writes, an operation leaves a directory that opens, and
      what it then shows is the state before the operation or the state after it. */
  lemma CrashSafe(d: Disk, op: Op, k: nat)
    requires Consistent(d) && NameFresh(op, d) && k <= |Writes(op, d)|
    ensures var d' := PerformAll(d, Writes(op, d)[..k]);
      && Recoverable(d')
      && (ContentsOf(d') == ContentsOf(d) || ContentsOf(d') == Effect(op, ContentsOf(d)))
  {
    var ws := Writes(op, d);
    if k == |ws| {
      assert ws[..k] == ws;
      OpDone(d, op);
    } else if op.InsertBatch? {
      InsertPrefix(d, op.chunks, op.commitFails, k);
      UndisturbedContents(d, PerformAll(d, ws[..k]));
    } else if op.CompactStore? {
      CompactPrefix(d, op.generation, k);
    } else {
      assert |ws| == 1 && ws[..k] == [];
    }
  }

  // ---------- Whole runs ----------

  datatype Event =
    | Completed(op: Op)
    | Crashed(op: Op, writes: nat)

  /** A store directory as `create` leaves it. */
  function CreatedStore(dims: nat, modelId: string): Disk {
    Disk(None, map[Original := DbFile(SCHEMA_VERSION, [], None)], map[Original := MatrixFile(dims, modelId, 0, [])])
  }

  /** One event of a run: an operation completes, or it is cut off and the store is reopened. */
  ghost predicate Step(d: Disk, e: Event, d': Disk) {
    Consistent(d) ==>
      && NameFresh(e.op, d)
      && match e
         case Completed(op) => d' == PerformAll(d, Writes(op, d))
         case Crashed(op, k) =>
           k <= |Writes(op, d)| && Open(PerformAll(d, Writes(op, d)[..k])) == Ok(d')
  }

  ghost predicate Run(disks: seq<Disk>, events: seq<Event>) {
    && |disks| == |events| + 1
    && forall i | 0 <= i < |events| :: Step(disks[i], events[i], disks[i + 1])
  }

  /** The contents after the operations that took effect, in order. */
  function Replay(c: Contents, events: seq<Event>, took: seq<bool>): Contents
    requires |took| == |events|
  {
    if events == [] then c
    else
      var last := |events| - 1;
      var before := Replay(c, events[..last], took[..last]);
      if took[last] then Effect(events[last].op, before) else before
  }

  lemma OpenKeepsContents(d: Disk)
    requires Recoverable(d)
    ensures Open(d).Ok? && Recoverable(Open(d).value) && ContentsOf(Open(d).value) == ContentsOf(d)
  {
    OpenRecovers(d);
  }

  /** The open that follows a crash is never refused. */
  lemma ReopenSucceeds(d: Disk, op: Op, k: nat)
    requires Consistent(d) && NameFresh(op, d) && k <= |Writes(op, d)|
    ensures var reopened := Open(PerformAll(d, Writes(op, d)[..k]));
      && reopened.Ok? && Consistent(reopened.value)
      && Verify(ActiveDb(reopened.value).chunks, ActiveMatrix(reopened.value).rows).Intact?
      && (ContentsOf(reopened.value) == ContentsOf(d) || ContentsOf(reopened.value) == Effect(op, ContentsOf(d)))
  {
    CrashSafe(d, op, k);
    var d' := PerformAll(d, Writes(op, d)[..k]);
    OpenRecovers(d');
    DenseKeyed(ActiveDb(Open(d').value).chunks);
    VerifyMeaning(ActiveDb(Open(d').value).chunks, ActiveMatrix(Open(d').value).rows);
    OpenKeepsContents(d');
  }

  /** Over any run of completed and interrupted operations from a created store, every state is
      consistent, and the contents are those of some operations carried out one after another:
      all the completed ones, and each interrupted one either wholly or not at all. */
  lemma {:induction false} RunIsReplay(disks: seq<Disk>, events: seq<Event>, dims: nat, modelId: string)
      returns (took: seq<bool>)
    requires Run(disks, events) && disks[0] == CreatedStore(dims, modelId)
    ensures |took| == |events|
    ensures forall i | 0 <= i < |events| :: events[i].Completed? ==> took[i]
    ensures Consistent(disks[|events|])
    ensures ContentsOf(disks[|events|]) == Replay(Contents([], None, dims, modelId), events, took)
  {
    if events == [] {
      took := [];
      assert ViewOf(disks[0]) == [];
    } else {
      var last := |events| - 1;
      var before := RunIsReplay(disks[..last + 1], events[..last], dims, modelId);
      var d := disks[last];
      var e := events[last];
      assert Step(d, e, disks[last + 1]);
      match e {
        case Completed(op) => OpDone(d, op);
        case Crashed(op, k) => ReopenSucceeds(d, op, k);
      }
      took := before + [ContentsOf(disks[last + 1]) == Effect(e.op, ContentsOf(d))];
      assert took[..last] == before;
    }
  }

  lemma StepKeepsUniform(d: Disk, e: Event, d': Disk)
    requires Step(d, e, d') && Consistent(d) && Uniform(ContentsOf(d))
    ensures Consistent(d') && Uniform(ContentsOf(d'))
  {
    hide Uniform, Writes, PerformAll, ViewOf;
    match e
    case Completed(op) => OpKeepsUniform(d, op);
    case Crashed(op, k) =>
      ReopenSucceeds(d, op, k);
      ViewUnique(d);
      EffectUniform(op, ContentsOf(d));
  }

  /** In every run, every vector a reader can see has the store's dimension. */
  lemma {:induction false} RunIsUniform(disks: seq<Disk>, events: seq<Event>, dims: nat, modelId: string)
    requires Run(disks, events) && disks[0] == CreatedStore(dims, modelId)
    ensures Consistent(disks[|events|]) && Uniform(ContentsOf(disks[|events|]))
  {
    if events == [] {
      assert ViewOf(disks[0]) == [];
    } else {
      var last := |events| - 1;
      RunIsUniform(disks[..last + 1], events[..last], dims, modelId);
      assert Step(disks[last], events[last], disks[last + 1]);
      StepKeepsUniform(disks[last], events[last], disks[last + 1]);
    }
  }
}
