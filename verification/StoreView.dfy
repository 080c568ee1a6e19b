// What an opened store means: row r of the view is metadata row r together with matrix row r.
// Every store operation is first described here, on the view alone.

module StoreView {
  import opened Wrappers
  import opened Records

  datatype StoredRow = StoredRow(rec: ChunkRecord, live: bool, vec: Vector)

  type View = seq<StoredRow>

  predicate LiveAt(v: View, r: int) {
    0 <= r < |v| && v[r].live
  }

  predicate LiveWith(v: View, r: int, h: ContentHash) {
    LiveAt(v, r) && v[r].rec.contentHash == h
  }

  ghost predicate UniqueLive(v: View) {
    forall i, j | LiveAt(v, i) && LiveAt(v, j) && i != j :: v[i].rec.contentHash != v[j].rec.contentHash
  }

  ghost function LiveHashes(v: View): set<ContentHash> {
    if v == [] then {}
    else
      var last := |v| - 1;
      LiveHashes(v[..last]) + if v[last].live then {v[last].rec.contentHash} else {}
  }

  lemma {:induction false} LiveHashesMeaning(v: View)
    ensures forall h :: h in LiveHashes(v) <==> exists r :: LiveWith(v, r, h)
  {
    if v != [] {
      var last := |v| - 1;
      var init := v[..last];
      LiveHashesMeaning(init);
      forall h
        ensures h in LiveHashes(v) <==> exists r :: LiveWith(v, r, h)
      {
        if h in LiveHashes(init) {
          var r :| LiveWith(init, r, h);
          assert LiveWith(v, r, h);
        }
        if v[last].live && v[last].rec.contentHash == h {
          assert LiveWith(v, last, h);
        }
        if r :| LiveWith(v, r, h) {
          assert r == last || LiveWith(init, r, h);
        }
      }
    }
  }

  lemma LiveHashIn(v: View, r: RowId)
    requires LiveAt(v, r)
    ensures v[r].rec.contentHash in LiveHashes(v)
  {
    LiveHashesMeaning(v);
    assert LiveWith(v, r, v[r].rec.contentHash);
  }

  lemma LiveHashWitness(v: View, h: ContentHash) returns (r: RowId)
    requires h in LiveHashes(v)
    ensures LiveWith(v, r, h)
  {
    LiveHashesMeaning(v);
    r :| LiveWith(v, r, h);
  }

  /** Live positions in ascending order. */
  function LiveRows(v: View): seq<RowId> {
    if v == [] then []
    else
      var last := |v| - 1;
      LiveRows(v[..last]) + if v[last].live then [last] else []
  }

  function LiveCount(v: View): nat {
    |LiveRows(v)|
  }

  ghost predicate Ascending(rows: seq<RowId>) {
    forall j, k | 0 <= j < k < |rows| :: rows[j] < rows[k]
  }

  lemma AscendingSnoc(rows: seq<RowId>, next: RowId)
    requires Ascending(rows) && forall r | r in rows :: r < next
    ensures Ascending(rows + [next])
  {
    assert forall k | 0 <= k < |rows| :: rows[k] in rows;
  }

  lemma {:induction false} LiveRowsMeaning(v: View)
    ensures Ascending(LiveRows(v))
    ensures forall r :: r in LiveRows(v) <==> LiveAt(v, r)
  {
    if v != [] {
      var last := |v| - 1;
      LiveRowsMeaning(v[..last]);
      AscendingSnoc(LiveRows(v[..last]), last);
      assert forall r :: LiveAt(v, r) <==> LiveAt(v[..last], r) || (r == last && v[last].live);
    }
  }

  /** The live row that carries `h`, as a scan of the table finds it. */
  function FindLive(v: View, h: ContentHash): (found: Option<RowId>)
    ensures found.Some? ==> LiveWith(v, found.value, h)
    ensures found.None? ==> forall r :: !LiveWith(v, r, h)
  {
    if v == [] then None
    else
      var last := |v| - 1;
      var earlier := FindLive(v[..last], h);
      if earlier.Some? then assert LiveWith(v[..last], earlier.value, h); earlier
      else if v[last].live && v[last].rec.contentHash == h then Some(last)
      else
        assert forall r | LiveWith(v, r, h) :: LiveWith(v[..last], r, h);
        None
  }

  /** One element of a batch: reuse the live row of its hash, or take a new row at the end. */
  function InsertOne(v: View, rec: ChunkRecord, vec: Vector): (View, RowId) {
    match FindLive(v, rec.contentHash)
    case Some(row) => (v, row)
    case None => (v + [StoredRow(rec, true, vec)], |v|)
  }

  function InsertAll(v: View, chunks: seq<(ChunkRecord, Vector)>): (View, seq<RowId>) {
    if chunks == [] then (v, [])
    else
      var last := |chunks| - 1;
      var (v', ids) := InsertAll(v, chunks[..last]);
      var (v'', id) := InsertOne(v', chunks[last].0, chunks[last].1);
      (v'', ids + [id])
  }

  function Tombstone(v: View, rows: seq<RowId>): View {
    seq(|v|, i requires 0 <= i < |v| => v[i].(live := v[i].live && i !in rows))
  }

  function RowsForFile(v: View, file: string): seq<RowId> {
    if v == [] then []
    else
      var last := |v| - 1;
      RowsForFile(v[..last], file) + if v[last].live && v[last].rec.file == file then [last] else []
  }

  lemma {:induction false} RowsForFileMeaning(v: View, file: string)
    ensures Ascending(RowsForFile(v, file))
    ensures forall r :: r in RowsForFile(v, file) <==> LiveAt(v, r) && v[r].rec.file == file
  {
    if v != [] {
      var last := |v| - 1;
      RowsForFileMeaning(v[..last], file);
      AscendingSnoc(RowsForFile(v[..last], file), last);
      assert forall r :: LiveAt(v, r) <==> LiveAt(v[..last], r) || (r == last && v[last].live);
    }
  }

  function Rekey(v: View, from: string, to: string): View {
    seq(|v|, i requires 0 <= i < |v| =>
      if v[i].live && v[i].rec.file == from then v[i].(rec := v[i].rec.(file := to)) else v[i])
  }

  /** `w` is `v` with exactly the live rows of `from` under the path `to`: nothing else of a row,
      and no other row, is different. */
  ghost predicate Repathed(v: View, w: View, from: string, to: string) {
    && |w| == |v|
    && forall i | 0 <= i < |v| ::
      && w[i].live == v[i].live && w[i].vec == v[i].vec
      && w[i].rec.file == (if v[i].live && v[i].rec.file == from then to else v[i].rec.file)
      && w[i].rec.(file := v[i].rec.file) == v[i].rec
  }

  /** `w` is `v` with exactly the given rows dead: every record and vector stays. */
  ghost predicate Marked(v: View, w: View, rows: seq<RowId>) {
    && |w| == |v|
    && forall i | 0 <= i < |v| :: w[i].rec == v[i].rec && w[i].vec == v[i].vec && (w[i].live <==> v[i].live && i !in rows)
  }

  /** `w` holds the live rows of `v` in order, row `m[k].0` unchanged as row `k`. */
  ghost predicate Packed(v: View, w: View, m: seq<(RowId, RowId)>) {
    && |m| == |w|
    && (forall j, k | 0 <= j < k < |m| :: m[j].0 < m[k].0)
    && (forall k | 0 <= k < |m| :: m[k].1 == k <= m[k].0 && LiveAt(v, m[k].0) && w[k] == v[m[k].0])
    && (forall r | LiveAt(v, r) :: exists k :: 0 <= k < |m| && m[k].0 == r)
  }

  /** The rows a compaction copies, in the order it copies them. */
  function Compact(v: View): View {
    if v == [] then []
    else
      var last := |v| - 1;
      Compact(v[..last]) + if v[last].live then [v[last]] else []
  }

  /** (old row, new row) for every live row, ascending. */
  function RowMapping(v: View): seq<(RowId, RowId)> {
    var rows := LiveRows(v);
    seq(|rows|, k requires 0 <= k < |rows| => (rows[k], k))
  }

  // ---------- Batches ----------

  ghost function ChunkHashes(chunks: seq<(ChunkRecord, Vector)>): set<ContentHash> {
    if chunks == [] then {}
    else ChunkHashes(chunks[..|chunks| - 1]) + {chunks[|chunks| - 1].0.contentHash}
  }

  lemma InsertOneMeaning(v: View, rec: ChunkRecord, vec: Vector)
    requires UniqueLive(v)
    ensures var (v', id) := InsertOne(v, rec, vec);
      && UniqueLive(v')
      && v <= v'
      && LiveWith(v', id, rec.contentHash)
      && LiveHashes(v') == LiveHashes(v) + {rec.contentHash}
      && (v' == v || (v' == v + [StoredRow(rec, true, vec)] && rec.contentHash !in LiveHashes(v)))
  {
    LiveHashesMeaning(v);
    match FindLive(v, rec.contentHash)
    case Some(row) => LiveHashIn(v, row);
    case None =>
      var v' := v + [StoredRow(rec, true, vec)];
      assert v'[..|v|] == v;
      forall i | LiveAt(v, i)
        ensures v[i].rec.contentHash != rec.contentHash
      {
        assert !LiveWith(v, i, rec.contentHash);
      }
  }

  /** A batch answers every chunk with a live row of its hash, leaves the rows that were
      there alone, and adds exactly one live row for every hash that was not live. */
  lemma {:induction false} InsertAllMeaning(v: View, chunks: seq<(ChunkRecord, Vector)>)
    requires UniqueLive(v)
    ensures var (v', ids) := InsertAll(v, chunks);
      && UniqueLive(v')
      && v <= v'
      && |ids| == |chunks|
      && LiveHashes(v') == LiveHashes(v) + ChunkHashes(chunks)
  {
    if chunks != [] {
      var last := |chunks| - 1;
      InsertAllMeaning(v, chunks[..last]);
      InsertOneMeaning(InsertAll(v, chunks[..last]).0, chunks[last].0, chunks[last].1);
    }
  }

  lemma {:induction false} InsertAllIds(v: View, chunks: seq<(ChunkRecord, Vector)>, k: nat)
    requires UniqueLive(v) && k < |chunks|
    ensures |InsertAll(v, chunks).1| == |chunks|
    ensures LiveWith(InsertAll(v, chunks).0, InsertAll(v, chunks).1[k], chunks[k].0.contentHash)
  {
    var last := |chunks| - 1;
    InsertAllMeaning(v, chunks[..last]);
    InsertOneMeaning(InsertAll(v, chunks[..last]).0, chunks[last].0, chunks[last].1);
    if k < last {
      InsertAllIds(v, chunks[..last], k);
    }
  }

  /** Every added row is live and holds the record and the vector of some chunk of the
      batch whose hash was not live before. */
  lemma {:induction false} InsertAllAdded(v: View, chunks: seq<(ChunkRecord, Vector)>, r: RowId)
    requires UniqueLive(v) && |v| <= r < |InsertAll(v, chunks).0|
    ensures var row := InsertAll(v, chunks).0[r];
      row.live && (row.rec, row.vec) in chunks && row.rec.contentHash !in LiveHashes(v)
  {
    if chunks != [] {
      var last := |chunks| - 1;
      var v1 := InsertAll(v, chunks[..last]).0;
      InsertAllMeaning(v, chunks[..last]);
      InsertOneMeaning(v1, chunks[last].0, chunks[last].1);
      if r < |v1| {
        InsertAllAdded(v, chunks[..last], r);
      }
    }
  }

  function Appended(chunks: seq<(ChunkRecord, Vector)>): View {
    seq(|chunks|, k requires 0 <= k < |chunks| => StoredRow(chunks[k].0, true, chunks[k].1))
  }

  function Successors(first: RowId, n: nat): seq<RowId> {
    seq(n, k requires 0 <= k < n => first + k)
  }

  ghost predicate NovelBatch(v: View, chunks: seq<(ChunkRecord, Vector)>) {
    && (forall k | 0 <= k < |chunks| :: chunks[k].0.contentHash !in LiveHashes(v))
    && (forall j, k | 0 <= j < k < |chunks| :: chunks[j].0.contentHash != chunks[k].0.contentHash)
  }

  lemma {:induction false} ChunkHashesMeaning(chunks: seq<(ChunkRecord, Vector)>)
    ensures forall h :: h in ChunkHashes(chunks) <==> exists k :: 0 <= k < |chunks| && chunks[k].0.contentHash == h
  {
    if chunks != [] {
      ChunkHashesMeaning(chunks[..|chunks| - 1]);
    }
  }

  lemma {:induction false} NovelLast(v: View, chunks: seq<(ChunkRecord, Vector)>)
    requires UniqueLive(v) && NovelBatch(v, chunks) && chunks != []
    ensures var init := chunks[..|chunks| - 1];
      NovelBatch(v, init) && FindLive(InsertAll(v, init).0, chunks[|chunks| - 1].0.contentHash).None?
  {
    hide InsertAll, LiveHashes, ChunkHashes, UniqueLive;
    var last := |chunks| - 1;
    InsertAllMeaning(v, chunks[..last]);
    ChunkHashesMeaning(chunks[..last]);
    LiveHashesMeaning(InsertAll(v, chunks[..last]).0);
  }

  lemma BatchSnoc(v: View, chunks: seq<(ChunkRecord, Vector)>)
    requires chunks != []
    ensures var last := |chunks| - 1;
      && v + Appended(chunks) == v + Appended(chunks[..last]) + [StoredRow(chunks[last].0, true, chunks[last].1)]
      && Successors(|v|, |chunks|) == Successors(|v|, last) + [|v| + last]
      && |v + Appended(chunks[..last])| == |v| + last
  {
  }

  /** A batch of pairwise distinct hashes, none of them live, is appended as it stands. */
  lemma {:induction false} InsertAllNovel(v: View, chunks: seq<(ChunkRecord, Vector)>)
    requires UniqueLive(v) && NovelBatch(v, chunks)
    ensures InsertAll(v, chunks).0 == v + Appended(chunks)
    ensures InsertAll(v, chunks).1 == Successors(|v|, |chunks|)
  {
    if chunks == [] {
      assert v + Appended(chunks) == v;
    } else {
      var last := |chunks| - 1;
      NovelLast(v, chunks);
      InsertAllNovel(v, chunks[..last]);
      BatchSnoc(v, chunks);
    }
  }

  // ---------- Tombstones and counts ----------

  ghost function RowSet(rows: seq<RowId>): set<RowId> {
    set r | r in rows
  }

  lemma {:induction false} DistinctCardinality(rows: seq<RowId>)
    requires forall j, k | 0 <= j < k < |rows| :: rows[j] != rows[k]
    ensures |RowSet(rows)| == |rows|
  {
    if rows != [] {
      var last := |rows| - 1;
      DistinctCardinality(rows[..last]);
      assert RowSet(rows) == RowSet(rows[..last]) + {rows[last]};
    }
  }

  lemma LiveCountIsCardinality(v: View)
    ensures LiveCount(v) == |RowSet(LiveRows(v))|
  {
    LiveRowsMeaning(v);
    DistinctCardinality(LiveRows(v));
  }

  lemma TombstoneMeaning(v: View, rows: seq<RowId>)
    ensures |Tombstone(v, rows)| == |v|
    ensures forall r :: LiveAt(Tombstone(v, rows), r) <==> LiveAt(v, r) && r !in rows
    ensures UniqueLive(v) ==> UniqueLive(Tombstone(v, rows))
    ensures Marked(v, Tombstone(v, rows), rows)
  {
    var t := Tombstone(v, rows);
    assert forall r | LiveAt(t, r) :: LiveAt(v, r) && t[r].rec == v[r].rec;
  }

  /** Tombstoning n distinct live rows lowers the live count by exactly n. */
  lemma TombstoneCount(v: View, rows: seq<RowId>)
    requires forall r | r in rows :: LiveAt(v, r)
    requires forall j, k | 0 <= j < k < |rows| :: rows[j] != rows[k]
    ensures LiveCount(Tombstone(v, rows)) + |rows| == LiveCount(v)
  {
    var t := Tombstone(v, rows);
    LiveCountIsCardinality(v);
    LiveCountIsCardinality(t);
    DistinctCardinality(rows);
    assert RowSet(LiveRows(v)) == RowSet(LiveRows(t)) + RowSet(rows) && RowSet(LiveRows(t)) !! RowSet(rows) by {
      TombstoneMeaning(v, rows);
      LiveRowsMeaning(v);
      LiveRowsMeaning(t);
    }
  }

  lemma {:induction false} LiveCountAppend(v: View, tail: View)
    requires forall k | 0 <= k < |tail| :: tail[k].live
    ensures LiveCount(v + tail) == LiveCount(v) + |tail|
  {
    if tail == [] {
      assert v + tail == v;
    } else {
      var last := |tail| - 1;
      LiveCountAppend(v, tail[..last]);
      assert (v + tail)[..|v + tail| - 1] == v + tail[..last];
    }
  }

  lemma {:induction false} SameLiveSameCount(v: View, w: View)
    requires |v| == |w| && forall i | 0 <= i < |v| :: v[i].live == w[i].live
    ensures LiveRows(v) == LiveRows(w)
  {
    if v != [] {
      SameLiveSameCount(v[..|v| - 1], w[..|w| - 1]);
    }
  }

  lemma {:induction false} RepathedHashes(v: View, w: View, from: string, to: string)
    requires Repathed(v, w, from, to)
    ensures LiveHashes(w) == LiveHashes(v)
  {
    if v != [] {
      var last := |v| - 1;
      RepathedHashes(v[..last], w[..last], from, to);
    }
  }

  lemma RekeyMeaning(v: View, from: string, to: string)
    ensures |Rekey(v, from, to)| == |v|
    ensures UniqueLive(v) ==> UniqueLive(Rekey(v, from, to))
    ensures LiveRows(Rekey(v, from, to)) == LiveRows(v)
    ensures forall r :: LiveAt(Rekey(v, from, to), r) <==> LiveAt(v, r)
    ensures Repathed(v, Rekey(v, from, to), from, to) && LiveHashes(Rekey(v, from, to)) == LiveHashes(v)
  {
    var w := Rekey(v, from, to);
    SameLiveSameCount(v, w);
    RepathedHashes(v, w, from, to);
    assert forall r | LiveAt(w, r) :: LiveAt(v, r) && w[r].rec.contentHash == v[r].rec.contentHash;
  }

  // ---------- Compaction ----------

  /** Compaction keeps exactly the live rows: new row k is the k-th live row, unchanged. */
  lemma {:induction false} CompactMeaning(v: View)
    ensures |Compact(v)| == LiveCount(v)
    ensures forall k | 0 <= k < |LiveRows(v)| :: LiveAt(v, LiveRows(v)[k]) && Compact(v)[k] == v[LiveRows(v)[k]]
  {
    if v != [] {
      CompactMeaning(v[..|v| - 1]);
    }
  }

  lemma {:induction false} AscendingLowerBound(rows: seq<RowId>, k: nat)
    requires Ascending(rows)
    requires k < |rows|
    ensures k <= rows[k]
  {
    if k > 0 {
      AscendingLowerBound(rows, k - 1);
    }
  }

  /** The mapping is a strictly increasing bijection from the live rows onto 0..live that
      never moves a row up, and it carries every record, vector and live flag along. */
  lemma CompactionMapping(v: View)
    ensures var m := RowMapping(v);
      |m| == LiveCount(v) && Packed(v, Compact(v), m)
  {
    CompactMeaning(v);
    LiveRowsMeaning(v);
    var rows := LiveRows(v);
    var m := RowMapping(v);
    forall k | 0 <= k < |rows|
      ensures k <= rows[k]
    {
      AscendingLowerBound(rows, k);
    }
    forall r | LiveAt(v, r)
      ensures exists k :: 0 <= k < |m| && m[k].0 == r
    {
      assert r in rows;
      var k :| 0 <= k < |rows| && rows[k] == r;
      assert m[k].0 == r;
    }
  }

  lemma CompactStep(v: View)
    requires v != []
    ensures Compact(v) == Compact(v[..|v| - 1]) + if v[|v| - 1].live then [v[|v| - 1]] else []
  {
  }

  lemma LiveSnoc(v: View, row: StoredRow)
    ensures LiveHashes(v + [row]) == LiveHashes(v) + if row.live then {row.rec.contentHash} else {}
    ensures LiveCount(v + [row]) == LiveCount(v) + if row.live then 1 else 0
  {
    assert (v + [row])[..|v|] == v;
  }

  lemma {:induction false} CompactPreserves(v: View)
    ensures LiveHashes(Compact(v)) == LiveHashes(v)
    ensures LiveCount(Compact(v)) == LiveCount(v)
    ensures forall k | 0 <= k < |Compact(v)| :: Compact(v)[k].live
  {
    if v == [] {
      assert Compact(v) == [];
    } else {
      hide Compact, LiveHashes, LiveCount;
      var last := |v| - 1;
      CompactPreserves(v[..last]);
      CompactStep(v);
      LiveSnoc(v[..last], v[last]);
      assert v == v[..last] + [v[last]];
      if v[last].live {
        LiveSnoc(Compact(v[..last]), v[last]);
      } else {
        assert Compact(v) == Compact(v[..last]);
      }
    }
  }

  lemma CompactUnique(v: View)
    requires UniqueLive(v)
    ensures UniqueLive(Compact(v))
  {
    CompactMeaning(v);
    LiveRowsMeaning(v);
    var rows := LiveRows(v);
    forall i, j | LiveAt(Compact(v), i) && LiveAt(Compact(v), j) && i != j
      ensures Compact(v)[i].rec.contentHash != Compact(v)[j].rec.contentHash
    {
      assert rows[i] != rows[j];
    }
  }
}
