// The store directory as durable state: generations of database and matrix files, the manifest
// that selects one pair, and the single writes that a crash can separate.

module StoreDir {
  import opened Wrappers
  import opened Records
  import opened StoreView

  const SCHEMA_VERSION: nat := 1

  datatype FileName = Original | Generation(id: string)

  /** One row of the chunks table. The primary key keeps the table in rowid order. */
  datatype DbRow = DbRow(rowid: RowId, rec: ChunkRecord, live: bool)

  datatype DbFile = DbFile(schemaVersion: nat, chunks: seq<DbRow>, indexedCommit: Option<string>)

  /** `rows` is the header's count; slots at or past it hold bytes nothing refers to. */
  datatype MatrixFile = MatrixFile(dims: nat, modelId: string, rows: nat, slots: seq<Vector>)

  datatype Pair = Pair(db: FileName, matrix: FileName)

  datatype Disk = Disk(manifest: Option<Pair>, dbs: map<FileName, DbFile>, matrices: map<FileName, MatrixFile>)

  datatype Integrity =
    | Intact(live: nat)
    | Broken(orphanRows: seq<RowId>, missingRows: seq<RowId>, duplicateRows: seq<RowId>)

  datatype StoreError =
    | DimensionMismatch(expected: nat, got: nat)
    | ModelMismatch(expectedModel: string, gotModel: string)
    | SchemaVersion(expectedVersion: nat, gotVersion: nat)
    | Corrupt(integrity: Integrity)
    | Io(detail: string)

  // ---------- Durable writes ----------

  datatype Write =
    | WriteSlot(matrix: FileName, index: nat, vec: Vector)
    | WriteHeader(matrix: FileName, rows: nat)
    | TrimMatrix(matrix: FileName)
    | CreateMatrix(matrix: FileName, dims: nat, modelId: string)
    | CreateDb(db: FileName)
    | CommitChunks(db: FileName, chunks: seq<DbRow>)
    | CommitMeta(db: FileName, commit: string)
    | PublishManifest(pair: Pair)
    | RemoveDb(db: FileName)
    | RemoveMatrix(matrix: FileName)

  function PutSlot(slots: seq<Vector>, index: nat, vec: Vector): seq<Vector> {
    if index < |slots| then slots[index := vec]
    else if index == |slots| then slots + [vec]
    else slots
  }

  function WithDb(d: Disk, name: FileName, db: DbFile): Disk {
    d.(dbs := d.dbs[name := db])
  }

  function WithMatrix(d: Disk, name: FileName, m: MatrixFile): Disk {
    d.(matrices := d.matrices[name := m])
  }

  function Perform(d: Disk, w: Write): Disk {
    match w
    case WriteSlot(n, i, v) =>
      if n in d.matrices then WithMatrix(d, n, d.matrices[n].(slots := PutSlot(d.matrices[n].slots, i, v))) else d
    case WriteHeader(n, rows) =>
      if n in d.matrices then WithMatrix(d, n, d.matrices[n].(rows := rows)) else d
    case TrimMatrix(n) =>
      if n in d.matrices && d.matrices[n].rows <= |d.matrices[n].slots|
      then WithMatrix(d, n, d.matrices[n].(slots := d.matrices[n].slots[..d.matrices[n].rows])) else d
    case CreateMatrix(n, dims, model) => WithMatrix(d, n, MatrixFile(dims, model, 0, []))
    case CreateDb(n) => WithDb(d, n, DbFile(SCHEMA_VERSION, [], None))
    case CommitChunks(n, chunks) =>
      if n in d.dbs then WithDb(d, n, d.dbs[n].(chunks := chunks)) else d
    case CommitMeta(n, commit) =>
      if n in d.dbs then WithDb(d, n, d.dbs[n].(indexedCommit := Some(commit))) else d
    case PublishManifest(pair) => d.(manifest := Some(pair))
    case RemoveDb(n) => d.(dbs := d.dbs - {n})
    case RemoveMatrix(n) => d.(matrices := d.matrices - {n})
  }

  function PerformAll(d: Disk, ws: seq<Write>): Disk {
    if ws == [] then d else Perform(PerformAll(d, ws[..|ws| - 1]), ws[|ws| - 1])
  }

  lemma PerformNone(d: Disk)
    ensures PerformAll(d, []) == d
  {
  }

  lemma {:induction false} PerformAllConcat(d: Disk, a: seq<Write>, b: seq<Write>)
    ensures PerformAll(d, a + b) == PerformAll(PerformAll(d, a), b)
  {
    if b == [] {
      assert a + b == a;
    } else {
      var last := |b| - 1;
      assert (a + b)[..|a + b| - 1] == a + b[..last];
      PerformAllConcat(d, a, b[..last]);
    }
  }

  // ---------- Opening ----------

  function ActivePaths(d: Disk): Pair {
    if d.manifest.Some? then d.manifest.value else Pair(Original, Original)
  }

  predicate HasActive(d: Disk) {
    ActivePaths(d).db in d.dbs && ActivePaths(d).matrix in d.matrices
  }

  function ActiveDb(d: Disk): DbFile
    requires HasActive(d)
  {
    d.dbs[ActivePaths(d).db]
  }

  function ActiveMatrix(d: Disk): MatrixFile
    requires HasActive(d)
  {
    d.matrices[ActivePaths(d).matrix]
  }

  predicate HasRowid(chunks: seq<DbRow>, id: RowId) {
    exists i :: 0 <= i < |chunks| && chunks[i].rowid == id
  }

  /** The row count a reopened matrix is left with: trailing rows without metadata are dropped
      when the metadata is exactly the ids below MAX(rowid) + 1. */
  function ReclaimedRows(chunks: seq<DbRow>, matrixRows: nat): nat {
    var expected := if chunks == [] then 0 else chunks[|chunks| - 1].rowid + 1;
    if |chunks| != expected then matrixRows
    else if matrixRows <= expected then matrixRows
    else if forall id: RowId | id < expected :: HasRowid(chunks, id) then expected
    else matrixRows
  }

  function OrphanRows(chunks: seq<DbRow>, matrixRows: nat): seq<RowId> {
    if matrixRows == 0 then []
    else OrphanRows(chunks, matrixRows - 1) + if HasRowid(chunks, matrixRows - 1) then [] else [matrixRows - 1]
  }

  function MissingRows(chunks: seq<DbRow>, matrixRows: nat): seq<RowId> {
    if chunks == [] then []
    else
      var last := chunks[|chunks| - 1];
      MissingRows(chunks[..|chunks| - 1], matrixRows) + if last.rowid >= matrixRows then [last.rowid] else []
  }

  predicate SharesHash(all: seq<DbRow>, i: nat)
    requires i < |all|
  {
    all[i].live && exists j :: 0 <= j < |all| && j != i && all[j].live && all[j].rec.contentHash == all[i].rec.contentHash
  }

  function DuplicateRows(all: seq<DbRow>, n: nat): seq<RowId>
    requires n <= |all|
  {
    if n == 0 then []
    else DuplicateRows(all, n - 1) + if SharesHash(all, n - 1) then [all[n - 1].rowid] else []
  }

  function LiveEntries(chunks: seq<DbRow>): nat {
    if chunks == [] then 0
    else LiveEntries(chunks[..|chunks| - 1]) + if chunks[|chunks| - 1].live then 1 else 0
  }

  function Verify(chunks: seq<DbRow>, matrixRows: nat): Integrity {
    var orphan := OrphanRows(chunks, matrixRows);
    var missing := MissingRows(chunks, matrixRows);
    var duplicate := DuplicateRows(chunks, |chunks|);
    if orphan == [] && missing == [] && duplicate == [] then Intact(LiveEntries(chunks))
    else Broken(orphan, missing, duplicate)
  }

  /** Reading a store directory: the state it is left in, or why it is refused. */
  function Open(d: Disk): Result<Disk, StoreError> {
    if !HasActive(d) then Err(Io("no such file"))
    else if ActiveDb(d).schemaVersion != SCHEMA_VERSION then
      Err(SchemaVersion(SCHEMA_VERSION, ActiveDb(d).schemaVersion))
    else
      var m := ActiveMatrix(d);
      var rows := ReclaimedRows(ActiveDb(d).chunks, m.rows);
      var d' := if rows == m.rows then d else Perform(d, WriteHeader(ActivePaths(d).matrix, rows));
      var integrity := Verify(ActiveDb(d).chunks, rows);
      if integrity.Broken? then Err(Corrupt(integrity)) else Ok(d')
  }

  // ---------- What a good directory is ----------

  predicate Dense(chunks: seq<DbRow>) {
    forall i | 0 <= i < |chunks| :: chunks[i].rowid == i
  }

  /** The primary key: rowids are stored in strictly increasing order. */
  ghost predicate Keyed(chunks: seq<DbRow>) {
    forall i, j | 0 <= i < j < |chunks| :: chunks[i].rowid < chunks[j].rowid
  }

  ghost predicate UniqueLiveRows(chunks: seq<DbRow>) {
    forall i, j | 0 <= i < |chunks| && 0 <= j < |chunks| && i != j && chunks[i].live && chunks[j].live ::
      chunks[i].rec.contentHash != chunks[j].rec.contentHash
  }

  /** A directory that opening repairs: the table is dense, and the matrix has at least its rows. */
  ghost predicate Recoverable(d: Disk) {
    && HasActive(d)
    && ActiveDb(d).schemaVersion == SCHEMA_VERSION
    && Dense(ActiveDb(d).chunks)
    && UniqueLiveRows(ActiveDb(d).chunks)
    && |ActiveDb(d).chunks| <= ActiveMatrix(d).rows <= |ActiveMatrix(d).slots|
  }

  /** A directory that needs no repair: metadata rows and matrix rows correspond one to one. */
  ghost predicate Consistent(d: Disk) {
    Recoverable(d) && |ActiveDb(d).chunks| == ActiveMatrix(d).rows
  }

  function ZipRows(chunks: seq<DbRow>, slots: seq<Vector>): View
    requires |chunks| <= |slots|
  {
    seq(|chunks|, i requires 0 <= i < |chunks| => StoredRow(chunks[i].rec, chunks[i].live, slots[i]))
  }

  function ViewOf(d: Disk): View
    requires Recoverable(d)
  {
    ZipRows(ActiveDb(d).chunks, ActiveMatrix(d).slots)
  }

  function CommitOf(d: Disk): Option<string>
    requires HasActive(d)
  {
    ActiveDb(d).indexedCommit
  }

  // ---------- Opening repairs exactly the recoverable directories it should ----------

  lemma {:induction false} OrphansNone(chunks: seq<DbRow>, n: nat)
    ensures OrphanRows(chunks, n) == [] <==> forall id: RowId | id < n :: HasRowid(chunks, id)
  {
    if n > 0 {
      OrphansNone(chunks, n - 1);
    }
  }

  lemma {:induction false} MissingNone(chunks: seq<DbRow>, n: nat)
    ensures MissingRows(chunks, n) == [] <==> forall i | 0 <= i < |chunks| :: chunks[i].rowid < n
  {
    if chunks != [] {
      MissingNone(chunks[..|chunks| - 1], n);
    }
  }

  lemma {:induction false} DuplicatesNone(all: seq<DbRow>, n: nat)
    requires n <= |all|
    ensures DuplicateRows(all, n) == [] <==> forall i | 0 <= i < n :: !SharesHash(all, i)
  {
    if n > 0 {
      DuplicatesNone(all, n - 1);
    }
  }

  lemma {:induction false} KeyedLowerBound(chunks: seq<DbRow>, i: nat)
    requires Keyed(chunks) && i < |chunks|
    ensures chunks[i].rowid >= i
  {
    if i > 0 {
      KeyedLowerBound(chunks, i - 1);
    }
  }

  /** A keyed table that holds every id below n starts with exactly 0, 1, ..., n - 1. */
  lemma {:induction false} KeyedCovers(chunks: seq<DbRow>, n: nat)
    requires Keyed(chunks)
    requires forall id: RowId | id < n :: HasRowid(chunks, id)
    ensures n <= |chunks| && forall i | 0 <= i < n :: chunks[i].rowid == i
  {
    if n > 0 {
      KeyedCovers(chunks, n - 1);
      assert HasRowid(chunks, n - 1);
      var j :| 0 <= j < |chunks| && chunks[j].rowid == n - 1;
      assert j >= n - 1;
      KeyedLowerBound(chunks, n - 1);
      assert chunks[n - 1].rowid <= chunks[j].rowid;
    }
  }

  lemma DenseCovers(chunks: seq<DbRow>, n: nat)
    requires Dense(chunks) && n <= |chunks|
    ensures forall id: RowId | id < n :: HasRowid(chunks, id)
  {
    forall id: RowId | id < n
      ensures HasRowid(chunks, id)
    {
      assert chunks[id].rowid == id;
    }
  }

  /** Verification passes exactly when metadata rowids are 0..rows and live hashes are distinct. */
  lemma VerifyMeaning(chunks: seq<DbRow>, matrixRows: nat)
    requires Keyed(chunks)
    ensures Verify(chunks, matrixRows).Intact? <==>
      Dense(chunks) && |chunks| == matrixRows && UniqueLiveRows(chunks)
  {
    OrphansNone(chunks, matrixRows);
    MissingNone(chunks, matrixRows);
    DuplicatesNone(chunks, |chunks|);
    if Verify(chunks, matrixRows).Intact? {
      KeyedCovers(chunks, matrixRows);
      if |chunks| > 0 {
        KeyedLowerBound(chunks, |chunks| - 1);
      }
      assert Dense(chunks);
      forall i, j | 0 <= i < |chunks| && 0 <= j < |chunks| && i != j && chunks[i].live && chunks[j].live
        ensures chunks[i].rec.contentHash != chunks[j].rec.contentHash
      {
        assert !SharesHash(chunks, i);
      }
      assert UniqueLiveRows(chunks);
    }
    if Dense(chunks) && |chunks| == matrixRows && UniqueLiveRows(chunks) {
      DenseCovers(chunks, matrixRows);
      assert OrphanRows(chunks, matrixRows) == [];
      assert MissingRows(chunks, matrixRows) == [];
      assert forall i | 0 <= i < |chunks| :: !SharesHash(chunks, i);
      assert DuplicateRows(chunks, |chunks|) == [];
    }
  }

  lemma DenseKeyed(chunks: seq<DbRow>)
    requires Dense(chunks)
    ensures Keyed(chunks)
  {
  }

  /** Opening a recoverable directory succeeds, leaves it consistent, and shows the same rows. */
  lemma OpenRecovers(d: Disk)
    requires Recoverable(d)
    ensures Open(d).Ok? && Consistent(Open(d).value)
    ensures ViewOf(Open(d).value) == ViewOf(d)
    ensures CommitOf(Open(d).value) == CommitOf(d)
    ensures ActivePaths(Open(d).value) == ActivePaths(d)
  {
    var chunks := ActiveDb(d).chunks;
    var m := ActiveMatrix(d);
    DenseKeyed(chunks);
    DenseCovers(chunks, |chunks|);
    assert ReclaimedRows(chunks, m.rows) == |chunks|;
    VerifyMeaning(chunks, |chunks|);
  }

  /** Opening succeeds on exactly the recoverable directories. */
  lemma OpenIff(d: Disk)
    requires HasActive(d) && Keyed(ActiveDb(d).chunks) && ActiveMatrix(d).rows <= |ActiveMatrix(d).slots|
    ensures Open(d).Ok? <==> Recoverable(d)
  {
    var chunks := ActiveDb(d).chunks;
    var m := ActiveMatrix(d);
    VerifyMeaning(chunks, ReclaimedRows(chunks, m.rows));
    if Recoverable(d) {
      OpenRecovers(d);
    }
  }
}
