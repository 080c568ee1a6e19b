// The chunk store itself: an open pair of database and matrix files, changed one durable write
// at a time. `log` records those writes so that each method can be held to its exact sequence.

module Store {
  import opened Wrappers
  import opened Records
  import opened StoreView
  import opened StoreDir
  import opened Crash

  datatype StoreStats = StoreStats(live: nat, dead: nat)

  datatype CompactionReport = CompactionReport(
    liveBefore: nat,
    deadReclaimed: nat,
    liveAfter: nat,
    rowMapping: seq<(RowId, RowId)>
  )

  ghost predicate Wrote(d0: Disk, log0: seq<Write>, ws: seq<Write>, d: Disk, log: seq<Write>) {
    d == PerformAll(d0, ws) && log == log0 + ws
  }

  lemma WroteNothing(d0: Disk, log0: seq<Write>)
    ensures Wrote(d0, log0, [], d0, log0)
  {
    assert log0 + [] == log0;
  }

  lemma PerformOne(d: Disk, w: Write)
    ensures PerformAll(d, [w]) == Perform(d, w)
  {
    PerformAllSnoc(d, [], w);
    PerformNone(d);
    assert [] + [w] == [w];
  }

  lemma NoRows(name: FileName)
    ensures AppendWrites(name, 0, []) == [] && DbRows(0, []) == []
  {
  }

  lemma AppendWritesSnoc(name: FileName, first: RowId, added: View, row: StoredRow)
    ensures AppendWrites(name, first, added + [row])
      == AppendWrites(name, first, added) + [WriteSlot(name, first + |added|, row.vec)] + [WriteHeader(name, first + |added| + 1)]
  {
    assert (added + [row])[..|added|] == added;
  }

  lemma DbRowsSnoc(first: RowId, added: View, row: StoredRow)
    ensures DbRows(first, added + [row]) == DbRows(first, added) + [DbRow(first + |added|, row.rec, row.live)]
  {
  }

  lemma RowsSnoc(name: FileName, rows: View, i: nat)
    requires i < |rows|
    ensures AppendWrites(name, 0, rows[..i + 1])
      == AppendWrites(name, 0, rows[..i]) + [WriteSlot(name, i, rows[i].vec)] + [WriteHeader(name, i + 1)]
    ensures DbRows(0, rows[..i + 1]) == DbRows(0, rows[..i]) + [DbRow(i, rows[i].rec, rows[i].live)]
  {
    assert rows[..i + 1] == rows[..i] + [rows[i]];
    AppendWritesSnoc(name, 0, rows[..i], rows[i]);
  }

  lemma {:induction false} LiveCountBound(v: View)
    ensures LiveCount(v) <= |v|
  {
    if v != [] {
      LiveCountBound(v[..|v| - 1]);
    }
  }

  /** What the batch loop knows after the chunks `done`: the rows it added, the rows its table of
      seen hashes names, and the ids it answered. */
  ghost predicate InBatch(v: View, done: seq<(ChunkRecord, Vector)>, added: View,
                          batch: map<ContentHash, RowId>, result: seq<RowId>)
  {
    && InsertAll(v, done).0 == v + added
    && InsertAll(v, done).1 == result
    && batch.Keys == ChunkHashes(done)
    && forall h | h in batch :: LiveWith(v + added, batch[h], h)
  }

  lemma InBatchAnswers(v: View, done: seq<(ChunkRecord, Vector)>, added: View,
                       batch: map<ContentHash, RowId>, result: seq<RowId>)
    requires InBatch(v, done, added, batch, result)
    ensures InsertAll(v, done).0 == v + added && InsertAll(v, done).1 == result
  {
  }

  /** The state in the middle of a batch: `added` has been appended to the matrix of `d0`, unseen. */
  ghost predicate Appending(d0: Disk, added: View, d: Disk) {
    && Consistent(d0)
    && d == PerformAll(d0, AppendWrites(ActivePaths(d0).matrix, ActiveMatrix(d0).rows, added))
    && Undisturbed(d0, d)
    && ActiveMatrix(d).rows == ActiveMatrix(d0).rows + |added|
  }

  /** ... together with the metadata collected for it and the writes made for it. */
  ghost predicate MidBatch(d0: Disk, log0: seq<Write>, added: View, newRows: seq<DbRow>, d: Disk, log: seq<Write>) {
    && Appending(d0, added, d)
    && newRows == DbRows(ActiveMatrix(d0).rows, added)
    && log == log0 + AppendWrites(ActivePaths(d0).matrix, ActiveMatrix(d0).rows, added)
  }

  lemma BatchStart(d0: Disk, log0: seq<Write>)
    requires Consistent(d0)
    ensures Recoverable(d0) && UniqueLive(ViewOf(d0)) && InBatch(ViewOf(d0), [], [], map[], []) && MidBatch(d0, log0, [], [], d0, log0)
  {
    ViewUnique(d0);
    assert ViewOf(d0) + [] == ViewOf(d0);
    assert log0 + [] == log0;
  }

  lemma MidBatchView(d0: Disk, log0: seq<Write>, added: View, newRows: seq<DbRow>, d: Disk, log: seq<Write>)
    requires MidBatch(d0, log0, added, newRows, d, log)
    ensures Recoverable(d) && ViewOf(d) == ViewOf(d0) && ActiveMatrix(d0).rows == |ViewOf(d0)|
  {
    UndisturbedContents(d0, d);
  }

  lemma AppendingAll(d0: Disk, added: View)
    requires Consistent(d0)
    ensures Appending(d0, added, PerformAll(d0, AppendWrites(ActivePaths(d0).matrix, ActiveMatrix(d0).rows, added)))
  {
    var name, first := ActivePaths(d0).matrix, ActiveMatrix(d0).rows;
    var all := AppendWrites(name, first, added);
    AppendPrefix(d0, added, |all|);
    assert all[..|all|] == all;
    AppendPerformed(d0, name, added);
    MatrixAppendMeaning(ActiveMatrix(d0), added);
  }

  lemma AppendGrows(d0: Disk, added: View, row: StoredRow)
    requires Consistent(d0)
    ensures var name, n := ActivePaths(d0).matrix, ActiveMatrix(d0).rows + |added|;
      var d := PerformAll(d0, AppendWrites(name, ActiveMatrix(d0).rows, added));
      Appending(d0, added + [row], Perform(Perform(d, WriteSlot(name, n, row.vec)), WriteHeader(name, n + 1)))
  {
    hide Perform, PerformAll, AppendWrites, Undisturbed;
    var name, first := ActivePaths(d0).matrix, ActiveMatrix(d0).rows;
    var ws := AppendWrites(name, first, added);
    var slot := WriteSlot(name, first + |added|, row.vec);
    AppendWritesSnoc(name, first, added, row);
    PerformAllSnoc(d0, ws, slot);
    PerformAllSnoc(d0, ws + [slot], WriteHeader(name, first + |added| + 1));
    AppendingAll(d0, added + [row]);
  }

  /** The two writes that end a batch complete the sequence the batch is specified by. */
  lemma RefusedBatch(d: Disk, chunks: seq<(ChunkRecord, Vector)>, commitFails: bool)
    requires Consistent(d) && !DimsMatch(ActiveMatrix(d).dims, chunks)
    ensures var op := Op.InsertBatch(chunks, commitFails);
      Writes(op, d) == [] && PerformAll(d, Writes(op, d)) == d && Effect(op, ContentsOf(d)) == ContentsOf(d)
  {
  }

  lemma InsertWritesShape(d0: Disk, chunks: seq<(ChunkRecord, Vector)>, commitFails: bool, added: View, d: Disk)
    requires Appending(d0, added, d) && DimsMatch(ActiveMatrix(d0).dims, chunks)
    requires InsertAll(ViewOf(d0), chunks).0 == ViewOf(d0) + added
    ensures var p, n := ActivePaths(d0), ActiveMatrix(d0).rows;
      var header := WriteHeader(p.matrix, ActiveMatrix(d).rows);
      var last := if commitFails then WriteHeader(p.matrix, n) else CommitChunks(p.db, ActiveDb(d0).chunks + DbRows(n, added));
      var op := Op.InsertBatch(chunks, commitFails);
      var d' := Perform(Perform(d, header), last);
      && Writes(op, d0) == AppendWrites(p.matrix, n, added) + [header] + [last]
      && d' == PerformAll(d0, Writes(op, d0)) && ActivePaths(d') == p
      && Consistent(d') && ContentsOf(d') == Effect(op, ContentsOf(d0))
      && ViewOf(d') == if commitFails then ViewOf(d0) else InsertAll(ViewOf(d0), chunks).0
  {
    hide Perform, PerformAll, AppendWrites, InsertAll, Dense, UniqueLiveRows;
    var p, n := ActivePaths(d0), ActiveMatrix(d0).rows;
    var header := WriteHeader(p.matrix, n + |added|);
    var last := if commitFails then WriteHeader(p.matrix, n) else CommitChunks(p.db, ActiveDb(d0).chunks + DbRows(n, added));
    var ws := AppendWrites(p.matrix, n, added);
    assert Added(ViewOf(d0), chunks) == added;
    PerformAllSnoc(d0, ws, header);
    PerformAllSnoc(d0, ws + [header], last);
    OpDone(d0, Op.InsertBatch(chunks, commitFails));
  }

  lemma FindUnique(v: View, h: ContentHash, r: RowId)
    requires UniqueLive(v) && LiveWith(v, r, h)
    ensures FindLive(v, h) == Some(r)
  {
  }

  lemma BatchSeen(v: View, chunks: seq<(ChunkRecord, Vector)>, i: nat, added: View,
                  batch: map<ContentHash, RowId>, result: seq<RowId>)
    requires i < |chunks| && UniqueLive(v) && InBatch(v, chunks[..i], added, batch, result)
    requires chunks[i].0.contentHash in batch
    ensures InBatch(v, chunks[..i + 1], added, batch, result + [batch[chunks[i].0.contentHash]])
  {
    var h := chunks[i].0.contentHash;
    assert chunks[..i + 1][..i] == chunks[..i];
    InsertAllMeaning(v, chunks[..i]);
    FindUnique(v + added, h, batch[h]);
  }

  lemma InsertAllSnoc(v: View, chunks: seq<(ChunkRecord, Vector)>, i: nat)
    requires i < |chunks|
    ensures var before := InsertAll(v, chunks[..i]);
      var one := InsertOne(before.0, chunks[i].0, chunks[i].1);
      InsertAll(v, chunks[..i + 1]) == (one.0, before.1 + [one.1])
    ensures ChunkHashes(chunks[..i + 1]) == ChunkHashes(chunks[..i]) + {chunks[i].0.contentHash}
  {
    assert chunks[..i + 1][..i] == chunks[..i];
  }

  lemma BatchStored(v: View, chunks: seq<(ChunkRecord, Vector)>, i: nat, added: View,
                    batch: map<ContentHash, RowId>, result: seq<RowId>)
    requires i < |chunks| && UniqueLive(v) && InBatch(v, chunks[..i], added, batch, result)
    requires FindLive(v, chunks[i].0.contentHash).Some?
    ensures var h := chunks[i].0.contentHash;
      var row := FindLive(v, h).value;
      InBatch(v, chunks[..i + 1], added, batch[h := row], result + [row])
  {
    hide InsertAll, FindLive, ChunkHashes, UniqueLive;
    var h := chunks[i].0.contentHash;
    var row := FindLive(v, h).value;
    InsertAllMeaning(v, chunks[..i]);
    assert LiveWith(v + added, row, h);
    FindUnique(v + added, h, row);
    InsertAllSnoc(v, chunks, i);
  }

  lemma NotFound(v: View, done: seq<(ChunkRecord, Vector)>, h: ContentHash)
    requires UniqueLive(v) && h !in ChunkHashes(done) && FindLive(v, h).None?
    ensures FindLive(InsertAll(v, done).0, h).None?
  {
    InsertAllMeaning(v, done);
    LiveHashesMeaning(v);
    LiveHashesMeaning(InsertAll(v, done).0);
  }

  lemma {:induction false} BatchNovel(v: View, chunks: seq<(ChunkRecord, Vector)>, i: nat, added: View,
                   batch: map<ContentHash, RowId>, result: seq<RowId>)
    requires i < |chunks| && UniqueLive(v) && InBatch(v, chunks[..i], added, batch, result)
    requires chunks[i].0.contentHash !in batch && FindLive(v, chunks[i].0.contentHash).None?
    ensures var (rec, vec) := chunks[i];
      var row := |v| + |added|;
      InBatch(v, chunks[..i + 1], added + [StoredRow(rec, true, vec)], batch[rec.contentHash := row], result + [row])
  {
    hide InsertAll, FindLive, ChunkHashes;
    var (rec, vec) := chunks[i];
    var w := v + added;
    InsertAllSnoc(v, chunks, i);
    NotFound(v, chunks[..i], rec.contentHash);
    var w' := v + (added + [StoredRow(rec, true, vec)]);
    assert w' == w + [StoredRow(rec, true, vec)];
    assert forall h | h in batch :: LiveWith(w, batch[h], h) && LiveWith(w', batch[h], h);
    assert LiveWith(w', |w|, rec.contentHash);
  }

  lemma BatchStep(v: View, chunks: seq<(ChunkRecord, Vector)>, i: nat, added: View,
                  batch: map<ContentHash, RowId>, result: seq<RowId>)
    requires i < |chunks| && UniqueLive(v) && InBatch(v, chunks[..i], added, batch, result)
    ensures var h := chunks[i].0.contentHash;
      var stored := FindLive(v, h);
      var row := |v| + |added|;
      if h in batch then InBatch(v, chunks[..i + 1], added, batch, result + [batch[h]])
      else if stored.Some? then InBatch(v, chunks[..i + 1], added, batch[h := stored.value], result + [stored.value])
      else InBatch(v, chunks[..i + 1], added + [StoredRow(chunks[i].0, true, chunks[i].1)], batch[h := row], result + [row])
  {
    hide InBatch, FindLive;
    if chunks[i].0.contentHash in batch {
      BatchSeen(v, chunks, i, added, batch, result);
    } else if FindLive(v, chunks[i].0.contentHash).Some? {
      BatchStored(v, chunks, i, added, batch, result);
    } else {
      BatchNovel(v, chunks, i, added, batch, result);
    }
  }

  class ChunkStore {
    var disk: Disk
    ghost var log: seq<Write>

    ghost predicate Valid()
      reads this
    {
      Consistent(disk) && Uniform(ContentsOf(disk))
    }

    function View(): View
      requires Valid()
      reads this
    {
      ViewOf(disk)
    }

    function Contents(): Contents
      requires Valid()
      reads this
    {
      ContentsOf(disk)
    }

    lemma LiveHashesDistinct()
      requires Valid()
      ensures UniqueLive(View())
    {
      ViewUnique(disk);
    }

    constructor Attach(d: Disk)
      ensures disk == d && log == []
    {
      disk := d;
      log := [];
    }

    constructor Create(dims: nat, modelId: string)
      ensures Valid() && log == []
      ensures disk == CreatedStore(dims, modelId)
      ensures View() == []
    {
      disk := CreatedStore(dims, modelId);
      log := [];
    }

    /** One durable write. */
    method Put(w: Write)
      modifies this
      ensures disk == Perform(old(disk), w)
      ensures log == old(log) + [w]
    {
      disk := Perform(disk, w);
      log := log + [w];
    }

    // ---------- Opening ----------

    /** Drops trailing matrix rows that have no metadata, when the metadata is a dense prefix. */
    method ReclaimTrailingOrphans()
      requires HasActive(disk)
      modifies this
      ensures disk == (if ReclaimedRows(ActiveDb(old(disk)).chunks, ActiveMatrix(old(disk)).rows) == ActiveMatrix(old(disk)).rows
                       then old(disk)
                       else Perform(old(disk), WriteHeader(ActivePaths(old(disk)).matrix,
                              ReclaimedRows(ActiveDb(old(disk)).chunks, ActiveMatrix(old(disk)).rows))))
    {
      var chunks := ActiveDb(disk).chunks;
      var expected := if chunks == [] then 0 else chunks[|chunks| - 1].rowid + 1;
      if |chunks| != expected || ActiveMatrix(disk).rows <= expected {
        return;
      }
      for i := 0 to expected
        invariant forall id: RowId | id < i :: HasRowid(chunks, id)
      {
        if !HasRowid(chunks, i) {
          return;
        }
      }
      Put(WriteHeader(ActivePaths(disk).matrix, expected));
    }

    static method Open(d: Disk) returns (r: Result<ChunkStore, StoreError>)
      ensures r.Ok? <==> StoreDir.Open(d).Ok?
      ensures r.Ok? ==> fresh(r.value) && r.value.disk == StoreDir.Open(d).value && r.value.log == []
      ensures r.Err? ==> r.error == StoreDir.Open(d).error
    {
      if !HasActive(d) {
        return Err(Io("no such file"));
      }
      if ActiveDb(d).schemaVersion != SCHEMA_VERSION {
        return Err(SchemaVersion(SCHEMA_VERSION, ActiveDb(d).schemaVersion));
      }
      var store := new ChunkStore.Attach(d);
      store.ReclaimTrailingOrphans();
      var integrity := store.Verify();
      if integrity.Broken? {
        return Err(Corrupt(integrity));
      }
      store.ClearLog();
      return Ok(store);
    }

    ghost method ClearLog()
      modifies this`log
      ensures log == []
    {
      log := [];
    }

    /** The correspondence check: which rows lack metadata, which metadata lacks a row, and which
        live rows share a hash. */
    method Verify() returns (r: Integrity)
      requires HasActive(disk)
      ensures r == StoreDir.Verify(ActiveDb(disk).chunks, ActiveMatrix(disk).rows)
    {
      var chunks := ActiveDb(disk).chunks;
      var rows := ActiveMatrix(disk).rows;
      var orphan: seq<RowId> := [];
      for i := 0 to rows
        invariant orphan == OrphanRows(chunks, i)
      {
        if !HasRowid(chunks, i) {
          orphan := orphan + [i];
        }
      }
      var missing: seq<RowId> := [];
      for i := 0 to |chunks|
        invariant missing == MissingRows(chunks[..i], rows)
      {
        assert chunks[..i + 1][..i] == chunks[..i];
        if chunks[i].rowid >= rows {
          missing := missing + [chunks[i].rowid];
        }
      }
      assert chunks[..|chunks|] == chunks;
      var duplicate: seq<RowId> := [];
      for i := 0 to |chunks|
        invariant duplicate == DuplicateRows(chunks, i)
      {
        if SharesHash(chunks, i) {
          duplicate := duplicate + [chunks[i].rowid];
        }
      }
      if orphan == [] && missing == [] && duplicate == [] {
        r := Intact(LiveEntries(chunks));
      } else {
        r := Broken(orphan, missing, duplicate);
      }
    }

    // ---------- Changing the store ----------

    method CheckDims(chunks: seq<(ChunkRecord, Vector)>) returns (wrong: Option<StoreError>)
      requires Valid()
      ensures wrong.None? <==> DimsMatch(Contents().dims, chunks)
    {
      var dims := ActiveMatrix(disk).dims;
      for i := 0 to |chunks|
        invariant forall j | 0 <= j < i :: |chunks[j].1| == dims
      {
        if |chunks[i].1| != dims {
          assert chunks[i] in chunks;
          return Some(DimensionMismatch(dims, |chunks[i].1|));
        }
      }
      return None;
    }

    /** Appends one row to the active matrix: its bytes, then the header that counts it. */
    method AppendRow(ghost d0: Disk, ghost log0: seq<Write>, ghost added: View, newRows: seq<DbRow>,
                     rec: ChunkRecord, vec: Vector)
        returns (row: RowId, newRows': seq<DbRow>)
      requires MidBatch(d0, log0, added, newRows, disk, log)
      modifies this
      ensures MidBatch(d0, log0, added + [StoredRow(rec, true, vec)], newRows', disk, log)
      ensures row == ActiveMatrix(d0).rows + |added|
    {
      hide Perform, PerformAll, AppendWrites, DbRows;
      AppendGrows(d0, added, StoredRow(rec, true, vec));
      AppendWritesSnoc(ActivePaths(d0).matrix, ActiveMatrix(d0).rows, added, StoredRow(rec, true, vec));
      DbRowsSnoc(ActiveMatrix(d0).rows, added, StoredRow(rec, true, vec));
      row := ActiveMatrix(disk).rows;
      var name := ActivePaths(disk).matrix;
      Put(WriteSlot(name, row, vec));
      Put(WriteHeader(name, row + 1));
      newRows' := newRows + [DbRow(row, rec, true)];
    }

    /** Resolves every chunk of a batch to a row, appending one for each hash seen for the first time. */
    method AppendNovel(chunks: seq<(ChunkRecord, Vector)>)
        returns (result: seq<RowId>, newRows: seq<DbRow>, ghost added: View)
      requires Consistent(disk)
      modifies this
      ensures InsertAll(ViewOf(old(disk)), chunks).0 == ViewOf(old(disk)) + added
      ensures InsertAll(ViewOf(old(disk)), chunks).1 == result
      ensures MidBatch(old(disk), old(log), added, newRows, disk, log)
    {
      hide InsertAll, AppendWrites, Perform, PerformAll, FindLive, ChunkHashes, InBatch, MidBatch, Appending, UniqueLive;
      hide Consistent, ViewOf;
      ghost var d0, log0 := disk, log;
      BatchStart(d0, log0);
      ghost var v := ViewOf(disk);
      result, newRows, added := [], [], [];
      var batch: map<ContentHash, RowId> := map[];
      assert chunks[..0] == [];
      for i := 0 to |chunks|
        invariant InBatch(v, chunks[..i], added, batch, result)
        invariant MidBatch(d0, log0, added, newRows, disk, log)
      {
        MidBatchView(d0, log0, added, newRows, disk, log);
        BatchStep(v, chunks, i, added, batch, result);
        var rec, vec := chunks[i].0, chunks[i].1;
        var stored := FindLive(ViewOf(disk), rec.contentHash);
        if rec.contentHash in batch {
          result := result + [batch[rec.contentHash]];
        } else if stored.Some? {
          batch := batch[rec.contentHash := stored.value];
          result := result + [stored.value];
        } else {
          var row;
          row, newRows := AppendRow(d0, log0, added, newRows, rec, vec);
          added := added + [StoredRow(rec, true, vec)];
          batch := batch[rec.contentHash := row];
          result := result + [row];
        }
      }
      assert chunks[..|chunks|] == chunks;
      InBatchAnswers(v, chunks, added, batch, result);
    }

    /** An atomic batch: one row id per chunk, reusing the row of any hash that is live. */
    method InsertBatch(chunks: seq<(ChunkRecord, Vector)>, commitFails: bool)
        returns (r: Result<seq<RowId>, StoreError>)
      requires Valid()
      modifies this
      ensures Valid()
      ensures disk == PerformAll(old(disk), Writes(Op.InsertBatch(chunks, commitFails), old(disk)))
      ensures log == old(log) + Writes(Op.InsertBatch(chunks, commitFails), old(disk))
      ensures Contents() == Effect(Op.InsertBatch(chunks, commitFails), old(Contents()))
      ensures ActivePaths(disk) == old(ActivePaths(disk))
      ensures View() == if r.Ok? then InsertAll(old(View()), chunks).0 else old(View())
      ensures r.Ok? <==> DimsMatch(old(Contents()).dims, chunks) && !commitFails
      ensures r.Ok? ==> r.value == InsertAll(old(View()), chunks).1
    {
      hide InsertAll, Writes, Perform, PerformAll, Effect, AppendWrites, ViewOf, DbRows, Uniform;
      ghost var op := Op.InsertBatch(chunks, commitFails);
      var wrong := CheckDims(chunks);
      OpKeepsUniform(disk, op);
      if wrong.Some? {
        RefusedBatch(disk, chunks, commitFails);
        return Err(wrong.value);
      }
      ghost var d0 := disk;
      var p, rowsBefore, table := ActivePaths(disk), ActiveMatrix(disk).rows, ActiveDb(disk).chunks;
      var result, newRows, added := AppendNovel(chunks);
      InsertWritesShape(d0, chunks, commitFails, added, disk);
      Put(WriteHeader(p.matrix, ActiveMatrix(disk).rows));
      Put(if commitFails then WriteHeader(p.matrix, rowsBefore) else CommitChunks(p.db, table + newRows));
      r := if commitFails then Err(Io("commit failed")) else Ok(result);
    }

    method TombstoneRows(rows: seq<RowId>)
      requires Valid()
      modifies this
      ensures Valid() && Contents() == Effect(Op.TombstoneRows(rows), old(Contents()))
      ensures ActivePaths(disk) == old(ActivePaths(disk))
      ensures View() == Tombstone(old(View()), rows) && Marked(old(View()), View(), rows)
      ensures disk == PerformAll(old(disk), Writes(Op.TombstoneRows(rows), old(disk)))
      ensures log == old(log) + Writes(Op.TombstoneRows(rows), old(disk))
    {
      OpDone(disk, Op.TombstoneRows(rows));
      OpKeepsUniform(disk, Op.TombstoneRows(rows));
      TombstoneMeaning(View(), rows);
      var chunks := ActiveDb(disk).chunks;
      var updated := chunks;
      for i := 0 to |rows|
        invariant updated == TombstoneTable(chunks, rows[..i])
      {
        updated := TombstoneTable(updated, [rows[i]]);
        assert updated == TombstoneTable(chunks, rows[..i + 1]);
      }
      assert rows[..|rows|] == rows;
      ghost var d0 := disk;
      PerformOne(d0, CommitChunks(ActivePaths(disk).db, updated));
      Put(CommitChunks(ActivePaths(disk).db, updated));
    }

    /** Moves every live row of one file to another path, and says how many there were. */
    method RekeyFile(from: string, to: string) returns (n: nat)
      requires Valid()
      modifies this
      ensures Valid() && Contents() == Effect(Op.RekeyFile(from, to), old(Contents()))
      ensures ActivePaths(disk) == old(ActivePaths(disk))
      ensures View() == Rekey(old(View()), from, to) && Repathed(old(View()), View(), from, to)
      ensures LiveHashes(View()) == LiveHashes(old(View()))
      ensures disk == PerformAll(old(disk), Writes(Op.RekeyFile(from, to), old(disk)))
      ensures log == old(log) + Writes(Op.RekeyFile(from, to), old(disk))
      ensures n == |RowsForFile(old(View()), from)|
    {
      OpDone(disk, Op.RekeyFile(from, to));
      OpKeepsUniform(disk, Op.RekeyFile(from, to));
      RekeyMeaning(View(), from, to);
      n := |RowsForFile(View(), from)|;
      var updated := RekeyTable(ActiveDb(disk).chunks, from, to);
      PerformOne(disk, CommitChunks(ActivePaths(disk).db, updated));
      Put(CommitChunks(ActivePaths(disk).db, updated));
    }

    method SetIndexedCommit(commit: string)
      requires Valid()
      modifies this
      ensures Valid() && Contents() == Effect(Op.SetIndexedCommit(commit), old(Contents()))
      ensures Contents() == old(Contents()).(commit := Some(commit))
      ensures ActivePaths(disk) == old(ActivePaths(disk))
      ensures View() == old(View())
      ensures disk == PerformAll(old(disk), Writes(Op.SetIndexedCommit(commit), old(disk)))
      ensures log == old(log) + Writes(Op.SetIndexedCommit(commit), old(disk))
    {
      OpDone(disk, Op.SetIndexedCommit(commit));
      OpKeepsUniform(disk, Op.SetIndexedCommit(commit));
      PerformOne(disk, CommitMeta(ActivePaths(disk).db, commit));
      Put(CommitMeta(ActivePaths(disk).db, commit));
    }

    /** The next write of a sequence `ws` that started at `d0` and `log0`. */
    method PutNext(w: Write, ghost d0: Disk, ghost log0: seq<Write>, ghost ws: seq<Write>)
        returns (ghost ws': seq<Write>)
      requires Wrote(d0, log0, ws, disk, log)
      modifies this
      ensures ws' == ws + [w] && Wrote(d0, log0, ws', disk, log)
    {
      hide PerformAll, Perform;
      PerformAllSnoc(d0, ws, w);
      Put(w);
      ws' := ws + [w];
    }

    /** Copies rows into a new matrix file and collects their metadata. */
    method CopyRows(name: FileName, live: View, ghost d0: Disk, ghost log0: seq<Write>, ghost creates: seq<Write>)
        returns (table: seq<DbRow>, ghost ws: seq<Write>)
      requires Wrote(d0, log0, creates, disk, log)
      modifies this
      ensures ws == creates + AppendWrites(name, 0, live)
      ensures table == DbRows(0, live)
      ensures Wrote(d0, log0, ws, disk, log)
    {
      hide AppendWrites, DbRows, Wrote;
      NoRows(name);
      table, ws := [], creates;
      for i := 0 to |live|
        invariant ws == creates + AppendWrites(name, 0, live[..i])
        invariant table == DbRows(0, live[..i])
        invariant Wrote(d0, log0, ws, disk, log)
      {
        RowsSnoc(name, live, i);
        ws := PutNext(WriteSlot(name, i, live[i].vec), d0, log0, ws);
        ws := PutNext(WriteHeader(name, i + 1), d0, log0, ws);
        table := table + [DbRow(i, live[i].rec, live[i].live)];
      }
      assert live[..|live|] == live;
    }

    /** Writes a complete new generation with the live rows only, without touching the active pair. */
    method BuildGeneration(pair: Pair, live: View, dims: nat, modelId: string, commit: Option<string>, ghost c: Contents)
        returns (ghost ws: seq<Write>)
      requires c.dims == dims && c.modelId == modelId && c.commit == commit && Compact(c.view) == live
      modifies this
      ensures Wrote(old(disk), old(log), ws, disk, log)
      ensures ws == BuildWrites(pair, c)
    {
      hide AppendWrites, Compact, DbRows, Wrote;
      ghost var d0, log0 := disk, log;
      WroteNothing(d0, log0);
      ws := PutNext(RemoveDb(pair.db), d0, log0, []);
      ws := PutNext(RemoveMatrix(pair.matrix), d0, log0, ws);
      ws := PutNext(CreateMatrix(pair.matrix, dims, modelId), d0, log0, ws);
      ws := PutNext(CreateDb(pair.db), d0, log0, ws);
      if commit.Some? {
        ws := PutNext(CommitMeta(pair.db, commit.value), d0, log0, ws);
      }
      assert ws == CreateWrites(pair, c);
      var table;
      table, ws := CopyRows(pair.matrix, live, d0, log0, ws);
      ws := PutNext(WriteHeader(pair.matrix, |live|), d0, log0, ws);
      ws := PutNext(CommitChunks(pair.db, table), d0, log0, ws);
      ws := PutNext(TrimMatrix(pair.matrix), d0, log0, ws);
    }

    /** The live rows, read by their row ids in ascending order. */
    method SelectLive() returns (live: View)
      requires Valid()
      ensures live == Compact(View())
    {
      hide LiveRows, Compact, UniqueLiveRows, Dense, Uniform, ViewOf;
      var v := View();
      CompactMeaning(v);
      var rows := LiveRows(v);
      live := [];
      for k := 0 to |rows|
        invariant live == Compact(v)[..k]
      {
        live := live + [v[rows[k]]];
      }
    }

    /** Replaces the active pair by a generation that holds only the live rows, renumbered. */
    method CompactStore(generation: string) returns (report: CompactionReport)
      requires Valid() && NameFresh(Op.CompactStore(generation), disk)
      modifies this
      ensures Valid() && Contents() == Effect(Op.CompactStore(generation), old(Contents()))
      ensures View() == Compact(old(View()))
      ensures disk == PerformAll(old(disk), Writes(Op.CompactStore(generation), old(disk)))
      ensures log == old(log) + Writes(Op.CompactStore(generation), old(disk))
      ensures report.liveBefore == report.liveAfter == LiveCount(old(View()))
      ensures report.liveBefore + report.deadReclaimed == |old(View())|
      ensures report.rowMapping == RowMapping(old(View())) && Packed(old(View()), View(), report.rowMapping)
    {
      hide PerformAll, Perform, BuildWrites, LiveRows, LiveHashes, Compact, RowMapping, Packed, UniqueLiveRows, Dense, Uniform;
      ghost var d0, log0, c := disk, log, Contents();
      OpDone(disk, Op.CompactStore(generation));
      OpKeepsUniform(disk, Op.CompactStore(generation));
      var v := View();
      CompactionMapping(v);
      CompactPreserves(v);
      LiveCountBound(v);
      var live := SelectLive();
      var former, pair := ActivePaths(disk), GenerationPair(generation);
      ghost var ws := BuildGeneration(pair, live, ActiveMatrix(disk).dims, ActiveMatrix(disk).modelId, ActiveDb(disk).indexedCommit, c);
      ws := PutNext(PublishManifest(pair), d0, log0, ws);
      ws := PutNext(RemoveMatrix(former.matrix), d0, log0, ws);
      ws := PutNext(RemoveDb(former.db), d0, log0, ws);
      assert ws == Writes(Op.CompactStore(generation), d0);
      report := CompactionReport(LiveCount(v), |v| - LiveCount(v), LiveCount(View()), RowMapping(v));
    }
  }
}
