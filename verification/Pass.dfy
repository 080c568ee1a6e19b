// One indexing pass over a set of parsed files: what it does to the store, for every order in
// which the thread pool delivers the files and for every batch size.

module Pass {
  import opened Wrappers
  import opened Records
  import opened StoreView
  import opened Agreement

  datatype Parse =
    | Failed
    | Parsed(chunks: seq<Chunk>)

  datatype WorkItem = WorkItem(rel: string, parse: Parse)

  function CurrentHashes(item: WorkItem): set<ContentHash> {
    if item.parse.Parsed? then Hashes(item.parse.chunks) else {}
  }

  ghost predicate DistinctRels(items: seq<WorkItem>) {
    forall i, j | 0 <= i < j < |items| :: items[i].rel != items[j].rel
  }

  /** Chunks carry the path of the file they were cut from. */
  ghost predicate OwnChunks(items: seq<WorkItem>) {
    forall item, c | item in items && item.parse.Parsed? && c in item.parse.chunks :: c.rec.file == item.rel
  }

  ghost predicate StaleFor(v: View, item: WorkItem, r: int) {
    && LiveAt(v, r)
    && item.parse.Parsed?
    && v[r].rec.file == item.rel
    && v[r].rec.contentHash !in CurrentHashes(item)
  }

  /** A live row of a parsed file whose hash the file no longer has. */
  ghost predicate Stale(v: View, items: seq<WorkItem>, r: int) {
    exists item :: item in items && StaleFor(v, item, r)
  }

  ghost predicate Current(items: seq<WorkItem>, h: ContentHash) {
    exists item :: item in items && h in CurrentHashes(item)
  }

  /** Row `row` holds a chunk of one of the parsed files, with the embedding of its body. */
  ghost predicate CutFrom(embed: string -> Vector, items: seq<WorkItem>, row: StoredRow) {
    exists item, c :: item in items && item.parse.Parsed? && c in item.parse.chunks
      && row == StoredRow(c.rec, true, embed(c.body))
  }

  /** The rows that were there keep everything but their live flag, which exactly the stale ones
      lose; every added row is live, holds a chunk of these files, and its hash was not live. */
  ghost predicate Progress(embed: string -> Vector, v: View, items: seq<WorkItem>, v': View) {
    && |v| <= |v'|
    && (forall r | 0 <= r < |v| :: v'[r] == v[r].(live := v[r].live && !Stale(v, items, r)))
    && (forall r | |v| <= r < |v'| :: CutFrom(embed, items, v'[r]) && v'[r].rec.contentHash !in LiveHashes(v))
    && UniqueLive(v')
  }

  ghost predicate AddedHash(v: View, v': View, h: ContentHash) {
    exists r :: |v| <= r < |v'| && v'[r].rec.contentHash == h
  }

  /** A pass that ran to its end: moreover, every current hash was live before or has been added. */
  ghost predicate CompletedPass(embed: string -> Vector, v: View, items: seq<WorkItem>, v': View) {
    && Progress(embed, v, items, v')
    && (forall h | Current(items, h) :: h in LiveHashes(v) || AddedHash(v, v', h))
  }

  // ---------- What a completed pass means ----------

  lemma CutFromOwn(embed: string -> Vector, items: seq<WorkItem>, row: StoredRow, item: WorkItem)
    requires DistinctRels(items) && OwnChunks(items) && CutFrom(embed, items, row)
    requires item in items && item.rel == row.rec.file
    ensures row.rec.contentHash in CurrentHashes(item)
  {
    var from, c :| from in items && from.parse.Parsed? && c in from.parse.chunks
      && row == StoredRow(c.rec, true, embed(c.body));
    assert c.rec.file == from.rel;
    assert from == item;
  }

  /** After any pass no live row of a parsed file carries a hash the file does not have. */
  lemma NothingStaleAfter(embed: string -> Vector, v: View, items: seq<WorkItem>, v': View, r: int)
    requires DistinctRels(items) && OwnChunks(items) && Progress(embed, v, items, v')
    ensures !Stale(v', items, r)
  {
    forall item | item in items
      ensures !StaleFor(v', item, r)
    {
      if 0 <= r < |v| {
        assert v'[r] == v[r].(live := v[r].live && !Stale(v, items, r));
        assert StaleFor(v, item, r) ==> Stale(v, items, r);
      } else if |v| <= r < |v'| && item.rel == v'[r].rec.file {
        CutFromOwn(embed, items, v'[r], item);
      }
    }
  }

  lemma CutFromCurrent(embed: string -> Vector, items: seq<WorkItem>, row: StoredRow)
    requires CutFrom(embed, items, row)
    ensures Current(items, row.rec.contentHash) && row.live
  {
    var item, c :| item in items && item.parse.Parsed? && c in item.parse.chunks
      && row == StoredRow(c.rec, true, embed(c.body));
    assert c.rec.contentHash in CurrentHashes(item);
  }

  /** Exactly which hashes are live after a completed pass, whatever the order of arrival. */
  lemma HashesAfter(embed: string -> Vector, v: View, items: seq<WorkItem>, v': View, h: ContentHash)
    requires UniqueLive(v) && CompletedPass(embed, v, items, v')
    ensures h in LiveHashes(v') <==>
      if h in LiveHashes(v) then forall r | LiveWith(v, r, h) :: !Stale(v, items, r)
      else Current(items, h)
  {
    LiveHashesMeaning(v);
    LiveHashesMeaning(v');
    if h in LiveHashes(v) {
      var r := LiveHashWitness(v, h);
      assert v'[r] == v[r].(live := v[r].live && !Stale(v, items, r));
      if !Stale(v, items, r) {
        assert LiveWith(v', r, h);
      }
      if s :| LiveWith(v', s, h) {
        if s < |v| {
          assert v'[s] == v[s].(live := v[s].live && !Stale(v, items, s));
          assert LiveWith(v, s, h) && s == r;
        }
      }
    } else {
      if Current(items, h) {
        assert AddedHash(v, v', h);
        var s :| |v| <= s < |v'| && v'[s].rec.contentHash == h;
        assert CutFrom(embed, items, v'[s]);
        assert LiveWith(v', s, h);
      }
      if s :| LiveWith(v', s, h) {
        if s < |v| {
          assert v'[s] == v[s].(live := v[s].live && !Stale(v, items, s));
          assert LiveWith(v, s, h);
        }
        assert CutFrom(embed, items, v'[s]);
        CutFromCurrent(embed, items, v'[s]);
      }
    }
  }

  /** One pass makes every current hash live exactly when no stale row carries a current hash.
      A hash that moves between two edited files is the failing case. */
  lemma SinglePassIff(embed: string -> Vector, v: View, items: seq<WorkItem>, v': View)
    requires UniqueLive(v) && CompletedPass(embed, v, items, v')
    ensures (forall h | Current(items, h) :: h in LiveHashes(v'))
      <==> (forall r | Stale(v, items, r) :: !Current(items, v[r].rec.contentHash))
  {
    forall h
      ensures h in LiveHashes(v') <==>
        if h in LiveHashes(v) then forall r | LiveWith(v, r, h) :: !Stale(v, items, r) else Current(items, h)
    {
      HashesAfter(embed, v, items, v', h);
    }
    if forall h | Current(items, h) :: h in LiveHashes(v') {
      forall r | Stale(v, items, r)
        ensures !Current(items, v[r].rec.contentHash)
      {
        LiveHashIn(v, r);
        assert LiveWith(v, r, v[r].rec.contentHash);
      }
    }
    if forall r | Stale(v, items, r) :: !Current(items, v[r].rec.contentHash) {
      forall h | Current(items, h)
        ensures h in LiveHashes(v')
      {
        assert forall r | LiveWith(v, r, h) :: !Stale(v, items, r);
      }
    }
  }

  function SampleRecord(file: string, digest: int): ChunkRecord {
    ChunkRecord("", file, "rust", "f", "function", "fn f()", None, 1, 2, ContentHash([digest]))
  }

  lemma TwoLive(a: StoredRow, b: StoredRow)
    requires a.live && b.live
    ensures LiveHashes([a, b]) == {a.rec.contentHash, b.rec.contentHash}
  {
    assert [a, b][..1] == [a] && [a][..0] == [];
    assert LiveHashes([a]) == {a.rec.contentHash};
  }

  /** The failing case exists: hash 1 moves from file a to file b while both are edited, and one
      completed pass leaves it live nowhere. */
  lemma MovedHashIsLost(embed: string -> Vector, vec: Vector)
      returns (v: View, items: seq<WorkItem>, v': View, h: ContentHash)
    ensures forall row | row in v :: row.vec == vec
    ensures UniqueLive(v) && DistinctRels(items) && OwnChunks(items)
    ensures CompletedPass(embed, v, items, v')
    ensures Current(items, h) && h in LiveHashes(v) && h !in LiveHashes(v')
  {
    hide LiveHashes;
    h := ContentHash([1]);
    var moved := StoredRow(SampleRecord("a", 1), true, vec);
    var replaced := StoredRow(SampleRecord("b", 2), true, vec);
    var inA := Chunk(SampleRecord("a", 3), "three");
    var inB := Chunk(SampleRecord("b", 1), "one");
    var itemA, itemB := WorkItem("a", Parsed([inA])), WorkItem("b", Parsed([inB]));
    v, items := [moved, replaced], [itemA, itemB];
    v' := [moved.(live := false), replaced.(live := false), StoredRow(inA.rec, true, embed(inA.body))];
    assert inA in [inA] && inB in [inB];
    assert CurrentHashes(itemA) == {ContentHash([3])} && CurrentHashes(itemB) == {h};
    TwoLive(moved, replaced);
    assert StaleFor(v, itemA, 0) && StaleFor(v, itemB, 1);
    assert itemA in items && itemB in items;
    assert CutFrom(embed, items, v'[2]);
    assert AddedHash(v, v', ContentHash([3])) by {
      assert v'[2].rec.contentHash == ContentHash([3]);
    }
    LiveHashesMeaning(v');
  }

  // ---------- Repeated passes over an unchanged tree ----------

  ghost predicate SameItems(a: seq<WorkItem>, b: seq<WorkItem>) {
    forall item :: item in a <==> item in b
  }

  ghost predicate NothingStale(v: View, items: seq<WorkItem>) {
    forall r :: !Stale(v, items, r)
  }

  lemma SameItemsStale(v: View, a: seq<WorkItem>, b: seq<WorkItem>)
    requires SameItems(a, b)
    ensures forall r :: Stale(v, a, r) <==> Stale(v, b, r)
    ensures forall h :: Current(a, h) <==> Current(b, h)
  {
  }

  /** Where nothing is stale, a pass only adds rows, and makes every current hash live. */
  lemma PassOverFresh(embed: string -> Vector, v: View, items: seq<WorkItem>, v': View)
    requires UniqueLive(v) && NothingStale(v, items) && CompletedPass(embed, v, items, v')
    ensures v <= v'
    ensures forall h :: h in LiveHashes(v') <==> h in LiveHashes(v) || Current(items, h)
  {
    forall r | 0 <= r < |v|
      ensures v'[r] == v[r]
    {
      assert !Stale(v, items, r);
    }
    assert v'[..|v|] == v;
    forall h
      ensures h in LiveHashes(v') <==> h in LiveHashes(v) || Current(items, h)
    {
      HashesAfter(embed, v, items, v', h);
    }
  }

  /** Where nothing is stale and every current hash is live, a pass does nothing at all. */
  lemma PassOverSettled(embed: string -> Vector, v: View, items: seq<WorkItem>, v': View)
    requires UniqueLive(v) && NothingStale(v, items) && CompletedPass(embed, v, items, v')
    requires forall h | Current(items, h) :: h in LiveHashes(v)
    ensures v' == v
  {
    PassOverFresh(embed, v, items, v');
    if |v'| > |v| {
      CutFromCurrent(embed, items, v'[|v|]);
    }
  }

  /** The fraction of dead rows, as the store's statistics give it. */
  function DeadFraction(v: View): real {
    if v == [] then 0.0 else (|v| - LiveCount(v)) as real / |v| as real
  }

  /** More than the given share of the rows is dead. */
  predicate MostlyDead(threshold: real, v: View) {
    v != [] && (|v| - LiveCount(v)) as real > threshold * |v| as real
  }

  lemma Grows(q: real, t: real, n: real)
    requires n > 0.0 && q > t
    ensures q * n > t * n
  {
  }

  lemma Quotients(a: real, t: real, n: real)
    requires n > 0.0
    ensures a / n > t <==> a > t * n
  {
    var q := a / n;
    assert q * n == a;
    if q > t {
      Grows(q, t, n);
    } else {
      assert t * n >= q * n;
    }
  }

  /** The fraction decides as the counts do, except on an empty store, where nothing can change. */
  lemma FractionDecides(threshold: real, v: View)
    requires v != []
    ensures DeadFraction(v) > threshold <==> MostlyDead(threshold, v)
  {
    hide LiveCount;
    Quotients((|v| - LiveCount(v)) as real, threshold, |v| as real);
  }

  function Settled(threshold: real, v: View): View {
    if MostlyDead(threshold, v) then Compact(v) else v
  }

  /** A run of `index_all`: one completed pass, then a compaction when too much is dead. */
  ghost predicate IndexRun(embed: string -> Vector, threshold: real, v: View, items: seq<WorkItem>, v': View) {
    exists mid :: CompletedPass(embed, v, items, mid) && v' == Settled(threshold, mid)
  }

  /** `w` is `v` packed if the dead rows of `v` are more than the given share, and otherwise `v`. */
  ghost predicate SettledByCount(threshold: real, v: View, w: View) {
    if |v| > 0 && (|v| - LiveCount(v)) as real > threshold * |v| as real then Packed(v, w, RowMapping(v)) else w == v
  }

  lemma IndexRunByCount(embed: string -> Vector, threshold: real, v: View, items: seq<WorkItem>, v': View)
    requires IndexRun(embed, threshold, v, items, v')
    ensures exists mid :: CompletedPass(embed, v, items, mid) && SettledByCount(threshold, mid, v')
  {
    hide CompletedPass, LiveCount, Compact, Packed, RowMapping;
    var mid :| CompletedPass(embed, v, items, mid) && v' == Settled(threshold, mid);
    CompactionMapping(mid);
    assert SettledByCount(threshold, mid, v');
  }

  lemma {:induction false} CompactAllLive(v: View)
    requires forall i | 0 <= i < |v| :: v[i].live
    ensures Compact(v) == v
  {
    if v != [] {
      CompactAllLive(v[..|v| - 1]);
    }
  }

  lemma SettledTwice(threshold: real, v: View)
    ensures Settled(threshold, Settled(threshold, v)) == Settled(threshold, v)
    ensures var w := Settled(threshold, v);
      threshold >= 0.0 ==> (|w| - LiveCount(w)) as real <= threshold * |w| as real
  {
    hide Compact, LiveCount, LiveHashes;
    var c := Compact(v);
    CompactPreserves(v);
    CompactMeaning(v);
    CompactAllLive(c);
    assert |c| == LiveCount(c);
  }

  lemma CompactKeepsFresh(v: View, items: seq<WorkItem>)
    requires NothingStale(v, items)
    ensures NothingStale(Compact(v), items)
  {
    CompactMeaning(v);
    forall r, item | item in items
      ensures !StaleFor(Compact(v), item, r)
    {
      if LiveAt(Compact(v), r) {
        var was := LiveRows(v)[r];
        assert !Stale(v, items, was);
        assert !StaleFor(v, item, was);
      }
    }
  }

  /** After one run nothing of a parsed file is stale. */
  lemma RunLeavesFresh(embed: string -> Vector, threshold: real, v: View, items: seq<WorkItem>, v': View)
    requires DistinctRels(items) && OwnChunks(items) && IndexRun(embed, threshold, v, items, v')
    ensures NothingStale(v', items) && UniqueLive(v')
  {
    var mid :| CompletedPass(embed, v, items, mid) && v' == Settled(threshold, mid);
    forall r
      ensures !Stale(mid, items, r)
    {
      NothingStaleAfter(embed, v, items, mid, r);
    }
    CompactKeepsFresh(mid, items);
    CompactUnique(mid);
  }

  /** Rows were added and none tombstoned, up to a compaction at the end. */
  ghost predicate OnlyAdded(v: View, v': View) {
    exists mid :: v <= mid && (v' == mid || v' == Compact(mid))
  }

  lemma RunOverFresh(embed: string -> Vector, threshold: real, v: View, items: seq<WorkItem>, v': View)
    requires UniqueLive(v) && NothingStale(v, items) && IndexRun(embed, threshold, v, items, v')
    ensures forall h :: h in LiveHashes(v') <==> h in LiveHashes(v) || Current(items, h)
    ensures OnlyAdded(v, v')
  {
    var mid :| CompletedPass(embed, v, items, mid) && v' == Settled(threshold, mid);
    PassOverFresh(embed, v, items, mid);
    CompactPreserves(mid);
  }

  /** On an unchanged tree, for any order of arrival in each run: after the first run nothing is
      stale, the second tombstones nothing and makes every current hash live, and the pass of the
      third adds and tombstones nothing, and leaves nothing to compact. */
  lemma TwoRunFixpoint(embed: string -> Vector, threshold: real, items: seq<WorkItem>,
                       first: seq<WorkItem>, second: seq<WorkItem>, third: seq<WorkItem>,
                       v0: View, v1: View, v2: View, v3: View)
    requires DistinctRels(items) && OwnChunks(items) && UniqueLive(v0)
    requires SameItems(first, items) && SameItems(second, items) && SameItems(third, items)
    requires DistinctRels(first) && DistinctRels(second) && OwnChunks(first) && OwnChunks(second)
    requires IndexRun(embed, threshold, v0, first, v1)
    requires IndexRun(embed, threshold, v1, second, v2)
    requires IndexRun(embed, threshold, v2, third, v3)
    ensures NothingStale(v1, items)
    ensures OnlyAdded(v1, v2)
    ensures forall h | Current(items, h) :: h in LiveHashes(v2)
    ensures v3 == v2
    ensures forall mid | CompletedPass(embed, v2, third, mid) :: mid == v2
    ensures threshold >= 0.0 ==> (|v2| - LiveCount(v2)) as real <= threshold * |v2| as real
  {
    hide CompletedPass, LiveCount, LiveRows, Compact, LiveHashes, Settled, MostlyDead;
    RunLeavesFresh(embed, threshold, v0, first, v1);
    SameItemsStale(v1, first, items);
    SameItemsStale(v1, second, items);
    RunOverFresh(embed, threshold, v1, second, v2);
    RunLeavesFresh(embed, threshold, v1, second, v2);
    SameItemsStale(v2, second, items);
    SameItemsStale(v2, third, items);
    forall mid | CompletedPass(embed, v2, third, mid)
      ensures mid == v2
    {
      PassOverSettled(embed, v2, third, mid);
    }
    var mid :| CompletedPass(embed, v2, third, mid) && v3 == Settled(threshold, mid);
    var mid2 :| CompletedPass(embed, v1, second, mid2) && v2 == Settled(threshold, mid2);
    SettledTwice(threshold, mid2);
  }

  /** What an interrupted run may have done: nothing stale-marked beyond what its files call
      stale, and only chunks of its files added. */
  ghost predicate InterruptedPass(embed: string -> Vector, v: View, items: seq<WorkItem>, v': View) {
    exists done :: (forall item | item in done :: item in items) && Progress(embed, v, done, v')
  }

  lemma CutFromFresh(embed: string -> Vector, items: seq<WorkItem>, v: View)
    requires DistinctRels(items) && OwnChunks(items)
    requires forall r | 0 <= r < |v| :: CutFrom(embed, items, v[r])
    ensures NothingStale(v, items)
    ensures forall h | h in LiveHashes(v) :: Current(items, h)
  {
    forall r, item | item in items
      ensures !StaleFor(v, item, r)
    {
      if 0 <= r < |v| && item.rel == v[r].rec.file {
        CutFromOwn(embed, items, v[r], item);
      }
    }
    forall h | h in LiveHashes(v)
      ensures Current(items, h)
    {
      var r := LiveHashWitness(v, h);
      CutFromCurrent(embed, items, v[r]);
    }
  }

  /** From an empty store, or from what an interrupted first run left, one run makes exactly the
      current hashes live. */
  lemma FirstRun(embed: string -> Vector, threshold: real, items: seq<WorkItem>, first: seq<WorkItem>, second: seq<WorkItem>,
                 v0: View, v1: View)
    requires DistinctRels(items) && OwnChunks(items) && SameItems(first, items) && SameItems(second, items)
    requires v0 == [] || InterruptedPass(embed, [], first, v0)
    requires IndexRun(embed, threshold, v0, second, v1)
    ensures forall h :: h in LiveHashes(v1) <==> Current(items, h)
  {
    if v0 == [] {
      assert NothingStale(v0, second);
      RunOverFresh(embed, threshold, v0, second, v1);
      SameItemsStale(v0, second, items);
    } else {
      var done :| (forall item | item in done :: item in first) && Progress(embed, [], done, v0);
      forall r | 0 <= r < |v0|
        ensures CutFrom(embed, items, v0[r])
      {
        assert CutFrom(embed, done, v0[r]);
      }
      CutFromFresh(embed, items, v0);
      SameItemsStale(v0, second, items);
      RunOverFresh(embed, threshold, v0, second, v1);
    }
  }

  // ---------- The loop's knowledge in the middle of a pass ----------

  ghost predicate FromItems(items: seq<WorkItem>, c: Chunk) {
    exists item :: item in items && item.parse.Parsed? && c in item.parse.chunks
  }

  ghost predicate PendingHash(pending: seq<Chunk>, h: ContentHash) {
    exists k :: 0 <= k < |pending| && pending[k].rec.contentHash == h
  }

  /** `done` are the files consumed (the last one perhaps halfway), `offered` the chunks looked
      at, `known` the hashes the loop will not add again, `pending` the chunks not yet stored. */
  ghost predicate Midway(embed: string -> Vector, v: View, done: seq<WorkItem>, offered: set<ContentHash>,
                         cur: View, known: set<ContentHash>, pending: seq<Chunk>)
  {
    && Progress(embed, v, done, cur)
    && known == LiveHashes(v) + offered
    && (forall k | 0 <= k < |pending| :: FromItems(done, pending[k]) && pending[k].rec.contentHash in offered
          && pending[k].rec.contentHash !in LiveHashes(v) && !AddedHash(v, cur, pending[k].rec.contentHash))
    && (forall j, k | 0 <= j < k < |pending| :: pending[j].rec.contentHash != pending[k].rec.contentHash)
    && (forall h | AddedHash(v, cur, h) :: h in offered)
    && (forall h | h in offered :: h in LiveHashes(v) || AddedHash(v, cur, h) || PendingHash(pending, h))
  }

  lemma MidwayStart(embed: string -> Vector, v: View)
    requires UniqueLive(v)
    ensures Midway(embed, v, [], {}, v, LiveHashes(v), [])
  {
  }

  /** What consuming one more file adds to the stale rows. */
  lemma StaleSnoc(v: View, done: seq<WorkItem>, item: WorkItem, r: int)
    ensures Stale(v, done + [item], r) <==> Stale(v, done, r) || StaleFor(v, item, r)
  {
    if StaleFor(v, item, r) {
      assert item in done + [item];
    }
    if Stale(v, done, r) {
      var other :| other in done && StaleFor(v, other, r);
      assert other in done + [item];
    }
  }

  lemma CutFromMore(embed: string -> Vector, done: seq<WorkItem>, item: WorkItem, row: StoredRow)
    requires CutFrom(embed, done, row)
    ensures CutFrom(embed, done + [item], row)
  {
    var from, c :| from in done && from.parse.Parsed? && c in from.parse.chunks && row == StoredRow(c.rec, true, embed(c.body));
    assert from in done + [item];
  }

  /** Tombstoning exactly the rows that one more file makes stale is the progress of that file. */
  lemma TombstoneProgress(embed: string -> Vector, v: View, done: seq<WorkItem>, item: WorkItem,
                          cur: View, rows: seq<RowId>)
    requires Progress(embed, v, done, cur)
    requires forall r :: r in rows <==> StaleFor(v, item, r)
    ensures Progress(embed, v, done + [item], Tombstone(cur, rows))
  {
    var after := Tombstone(cur, rows);
    TombstoneMeaning(cur, rows);
    forall r | 0 <= r < |v|
      ensures after[r] == v[r].(live := v[r].live && !Stale(v, done + [item], r))
    {
      StaleSnoc(v, done, item, r);
      assert cur[r] == v[r].(live := v[r].live && !Stale(v, done, r));
    }
    forall r | |v| <= r < |after|
      ensures CutFrom(embed, done + [item], after[r]) && after[r].rec.contentHash !in LiveHashes(v)
    {
      assert CutFrom(embed, done, cur[r]);
      CutFromMore(embed, done, item, cur[r]);
      CutFromCurrent(embed, done, cur[r]);
      assert after[r] == cur[r];
    }
  }

  /** The rows that one more file makes stale are live until that file is consumed. */
  lemma StaleStillLive(embed: string -> Vector, v: View, done: seq<WorkItem>, item: WorkItem, cur: View, r: int)
    requires Progress(embed, v, done, cur) && StaleFor(v, item, r)
    requires forall other | other in done :: other.rel != item.rel
    ensures LiveAt(cur, r)
  {
    assert cur[r] == v[r].(live := v[r].live && !Stale(v, done, r));
    forall other | other in done
      ensures !StaleFor(v, other, r)
    {
    }
  }

  lemma MoreItems(done: seq<WorkItem>, item: WorkItem, c: Chunk)
    requires FromItems(done, c)
    ensures FromItems(done + [item], c)
  {
    var from :| from in done && from.parse.Parsed? && c in from.parse.chunks;
    assert from in done + [item];
  }

  lemma MidwayTombstone(embed: string -> Vector, v: View, done: seq<WorkItem>, offered: set<ContentHash>,
                        cur: View, known: set<ContentHash>, pending: seq<Chunk>,
                        item: WorkItem, rows: seq<RowId>)
    requires Midway(embed, v, done, offered, cur, known, pending)
    requires forall r :: r in rows <==> StaleFor(v, item, r)
    ensures Midway(embed, v, done + [item], offered, Tombstone(cur, rows), known, pending)
  {
    hide Progress;
    assert Progress(embed, v, done, cur);
    TombstoneProgress(embed, v, done, item, cur, rows);
    var after := Tombstone(cur, rows);
    forall h
      ensures AddedHash(v, after, h) <==> AddedHash(v, cur, h)
    {
      if r :| |v| <= r < |cur| && cur[r].rec.contentHash == h {
        assert after[r].rec.contentHash == h;
      }
      if r :| |v| <= r < |after| && after[r].rec.contentHash == h {
        assert cur[r].rec.contentHash == h;
      }
    }
    forall k | 0 <= k < |pending|
      ensures FromItems(done + [item], pending[k])
    {
      MoreItems(done, item, pending[k]);
    }
  }

  /** A chunk whose hash is known already only counts as offered. */
  lemma MidwayKnown(embed: string -> Vector, v: View, done: seq<WorkItem>, offered: set<ContentHash>,
                    cur: View, known: set<ContentHash>, pending: seq<Chunk>, h: ContentHash)
    requires Midway(embed, v, done, offered, cur, known, pending) && h in known
    ensures Midway(embed, v, done, offered + {h}, cur, known, pending)
  {
  }

  /** A chunk of a consumed file whose hash is not known becomes pending. */
  lemma MidwayPend(embed: string -> Vector, v: View, done: seq<WorkItem>, offered: set<ContentHash>,
                   cur: View, known: set<ContentHash>, pending: seq<Chunk>, c: Chunk)
    requires Midway(embed, v, done, offered, cur, known, pending)
    requires c.rec.contentHash !in known && FromItems(done, c)
    ensures var h := c.rec.contentHash;
      Midway(embed, v, done, offered + {h}, cur, known + {h}, pending + [c])
  {
    hide Progress, FromItems, AddedHash;
    var h := c.rec.contentHash;
    forall g | g in offered + {h}
      ensures g in LiveHashes(v) || AddedHash(v, cur, g) || PendingHash(pending + [c], g)
    {
      if g == h {
        assert (pending + [c])[|pending|].rec.contentHash == g;
      } else if PendingHash(pending, g) {
        var k :| 0 <= k < |pending| && pending[k].rec.contentHash == g;
        assert (pending + [c])[k].rec.contentHash == g;
      }
    }
  }

  /** What is live in the middle of a pass was live before it or has been added by it. */
  lemma LiveMidway(embed: string -> Vector, v: View, done: seq<WorkItem>, cur: View, h: ContentHash)
    requires Progress(embed, v, done, cur) && h in LiveHashes(cur)
    ensures h in LiveHashes(v) || AddedHash(v, cur, h)
  {
    var r := LiveHashWitness(cur, h);
    if r < |v| {
      assert cur[r] == v[r].(live := v[r].live && !Stale(v, done, r));
      LiveHashIn(v, r);
    } else {
      assert cur[r].rec.contentHash == h;
    }
  }

  /** The pending chunks form a batch of hashes that are pairwise distinct and not live. */
  lemma PendingNovel(embed: string -> Vector, v: View, done: seq<WorkItem>, offered: set<ContentHash>,
                     cur: View, known: set<ContentHash>, pending: seq<Chunk>)
    requires Midway(embed, v, done, offered, cur, known, pending)
    ensures NovelBatch(cur, Embedded(embed, pending))
  {
    forall k | 0 <= k < |pending|
      ensures pending[k].rec.contentHash !in LiveHashes(cur)
    {
      if pending[k].rec.contentHash in LiveHashes(cur) {
        LiveMidway(embed, v, done, cur, pending[k].rec.contentHash);
      }
    }
  }

  lemma FlushProgress(embed: string -> Vector, v: View, done: seq<WorkItem>, offered: set<ContentHash>,
                      cur: View, known: set<ContentHash>, pending: seq<Chunk>)
    requires Midway(embed, v, done, offered, cur, known, pending)
    requires UniqueLive(cur + Appended(Embedded(embed, pending)))
    ensures Progress(embed, v, done, cur + Appended(Embedded(embed, pending)))
  {
    var after := cur + Appended(Embedded(embed, pending));
    forall r | |v| <= r < |after|
      ensures CutFrom(embed, done, after[r]) && after[r].rec.contentHash !in LiveHashes(v)
    {
      if r >= |cur| {
        var c := pending[r - |cur|];
        assert FromItems(done, c);
        var item :| item in done && item.parse.Parsed? && c in item.parse.chunks;
        assert after[r] == StoredRow(c.rec, true, embed(c.body));
      } else {
        assert CutFrom(embed, done, cur[r]);
      }
    }
  }

  lemma AddedAfterFlush(embed: string -> Vector, v: View, cur: View, pending: seq<Chunk>, h: ContentHash)
    requires |v| <= |cur|
    ensures AddedHash(v, cur + Appended(Embedded(embed, pending)), h) <==> AddedHash(v, cur, h) || PendingHash(pending, h)
  {
    var after := cur + Appended(Embedded(embed, pending));
    if r :| |v| <= r < |cur| && cur[r].rec.contentHash == h {
      assert after[r].rec.contentHash == h;
    }
    if k :| 0 <= k < |pending| && pending[k].rec.contentHash == h {
      assert after[|cur| + k].rec.contentHash == h;
    }
    if r :| |v| <= r < |after| && after[r].rec.contentHash == h {
      if r < |cur| {
        assert cur[r].rec.contentHash == h;
      } else {
        assert pending[r - |cur|].rec.contentHash == h;
      }
    }
  }

  /** Storing the pending chunks leaves nothing pending and everything offered live or lost to a tombstone. */
  lemma MidwayFlush(embed: string -> Vector, v: View, done: seq<WorkItem>, offered: set<ContentHash>,
                    cur: View, known: set<ContentHash>, pending: seq<Chunk>)
    requires Midway(embed, v, done, offered, cur, known, pending)
    requires UniqueLive(cur + Appended(Embedded(embed, pending)))
    ensures Midway(embed, v, done, offered, cur + Appended(Embedded(embed, pending)), known, [])
  {
    FlushProgress(embed, v, done, offered, cur, known, pending);
    hide Progress;
    var after := cur + Appended(Embedded(embed, pending));
    forall h
      ensures AddedHash(v, after, h) <==> AddedHash(v, cur, h) || PendingHash(pending, h)
    {
      AddedAfterFlush(embed, v, cur, pending, h);
    }
    forall h | PendingHash(pending, h)
      ensures h in offered
    {
    }
  }

  /** With nothing pending and every current hash known, the pass is complete. */
  lemma MidwayDone(embed: string -> Vector, v: View, items: seq<WorkItem>, offered: set<ContentHash>,
                   cur: View, known: set<ContentHash>)
    requires Midway(embed, v, items, offered, cur, known, [])
    requires forall item | item in items :: CurrentHashes(item) <= known
    ensures CompletedPass(embed, v, items, cur)
  {
    hide Progress;
  }
}
