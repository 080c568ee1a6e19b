// The lexical index: documents a reader can see, and writer operations that the next commit
// carries out in order. Nothing but the delete before each add keeps a row from having two
// documents, so documents are a sequence here, and the map they amount to is proved.

module Lexical {
  import opened Wrappers
  import opened Records

  datatype LexicalDoc = LexicalDoc(symbol: string, signature: string, docFirstLine: Option<string>, file: string, body: string)

  datatype Posting = Posting(row: RowId, doc: LexicalDoc)

  datatype WriterOp =
    | DeleteTerm(row: RowId)
    | AddDocument(posting: Posting)

  function Without(ps: seq<Posting>, row: RowId): seq<Posting> {
    if ps == [] then []
    else
      var last := |ps| - 1;
      Without(ps[..last], row) + if ps[last].row == row then [] else [ps[last]]
  }

  function Carry(ps: seq<Posting>, op: WriterOp): seq<Posting> {
    match op
    case DeleteTerm(row) => Without(ps, row)
    case AddDocument(p) => ps + [p]
  }

  function CarryAll(ps: seq<Posting>, ops: seq<WriterOp>): seq<Posting> {
    if ops == [] then ps else Carry(CarryAll(ps, ops[..|ops| - 1]), ops[|ops| - 1])
  }

  /** The document a term query with limit one loads for a row. */
  function FirstDoc(ps: seq<Posting>, row: RowId): Option<LexicalDoc> {
    if ps == [] then None
    else
      var last := |ps| - 1;
      var earlier := FirstDoc(ps[..last], row);
      if earlier.Some? then earlier
      else if ps[last].row == row then Some(ps[last].doc)
      else None
  }

  /** `ps` holds exactly one document for each row of `m`, and no others. */
  ghost predicate Represents(ps: seq<Posting>, m: map<RowId, LexicalDoc>) {
    if ps == [] then m == map[]
    else
      var last := ps[|ps| - 1];
      last.row in m && m[last.row] == last.doc && Represents(ps[..|ps| - 1], m - {last.row})
  }

  lemma {:induction false} RepresentsCount(ps: seq<Posting>, m: map<RowId, LexicalDoc>)
    requires Represents(ps, m)
    ensures |ps| == |m|
  {
    if ps != [] {
      var row := ps[|ps| - 1].row;
      RepresentsCount(ps[..|ps| - 1], m - {row});
      assert m.Keys == (m - {row}).Keys + {row};
    }
  }

  lemma {:induction false} RepresentsLookup(ps: seq<Posting>, m: map<RowId, LexicalDoc>, row: RowId)
    requires Represents(ps, m)
    ensures FirstDoc(ps, row) == if row in m then Some(m[row]) else None
  {
    if ps != [] {
      RepresentsLookup(ps[..|ps| - 1], m - {ps[|ps| - 1].row}, row);
    }
  }

  lemma {:induction false} DeleteRepresents(ps: seq<Posting>, m: map<RowId, LexicalDoc>, row: RowId)
    requires Represents(ps, m)
    ensures Represents(Without(ps, row), m - {row})
  {
    if ps != [] {
      var last := |ps| - 1;
      var r := ps[last].row;
      DeleteRepresents(ps[..last], m - {r}, row);
      var rest := Without(ps[..last], row);
      if r == row {
        assert m - {r} - {row} == m - {row};
        assert Without(ps, row) == rest;
      } else {
        assert m - {r} - {row} == m - {row} - {r};
        assert (rest + [ps[last]])[..|rest|] == rest;
      }
    }
  }

  lemma AddRepresents(ps: seq<Posting>, m: map<RowId, LexicalDoc>, p: Posting)
    requires Represents(ps, m) && p.row !in m
    ensures Represents(ps + [p], m[p.row := p.doc])
  {
    assert (ps + [p])[..|ps|] == ps;
    assert m[p.row := p.doc] - {p.row} == m;
  }

  lemma CarrySnoc(ps: seq<Posting>, ops: seq<WriterOp>, op: WriterOp)
    ensures CarryAll(ps, ops + [op]) == Carry(CarryAll(ps, ops), op)
  {
    assert (ops + [op])[..|ops|] == ops;
  }

  // ---------- What batches of operations amount to ----------

  function AddAll(m: map<RowId, LexicalDoc>, docs: seq<(RowId, LexicalDoc)>): map<RowId, LexicalDoc> {
    if docs == [] then m
    else AddAll(m, docs[..|docs| - 1])[docs[|docs| - 1].0 := docs[|docs| - 1].1]
  }

  function RemoveAll(m: map<RowId, LexicalDoc>, rows: seq<RowId>): map<RowId, LexicalDoc> {
    map r | r in m && r !in rows :: m[r]
  }

  /** Every document named by the mapping, moved from its old row to its new one at once. */
  function Substitute(m: map<RowId, LexicalDoc>, mapping: seq<(RowId, RowId)>): map<RowId, LexicalDoc> {
    if mapping == [] then map[]
    else
      var (before, after) := mapping[|mapping| - 1];
      var rest := Substitute(m, mapping[..|mapping| - 1]);
      if before in m then rest[after := m[before]] else rest
  }

  /** The mapping applied entry by entry: documents are read from the committed view `m`, while
      deletes and adds accumulate in `staged`. */
  function RenumberStepwise(m: map<RowId, LexicalDoc>, staged: map<RowId, LexicalDoc>, mapping: seq<(RowId, RowId)>):
      map<RowId, LexicalDoc>
  {
    if mapping == [] then staged
    else
      var (before, after) := mapping[|mapping| - 1];
      var rest := RenumberStepwise(m, staged, mapping[..|mapping| - 1]);
      if before in m then (rest - {before} - {after})[after := m[before]] else rest
  }

  function RepathStepwise(m: map<RowId, LexicalDoc>, staged: map<RowId, LexicalDoc>, paths: seq<(RowId, string)>):
      map<RowId, LexicalDoc>
  {
    if paths == [] then staged
    else
      var (row, path) := paths[|paths| - 1];
      var rest := RepathStepwise(m, staged, paths[..|paths| - 1]);
      if row in m then rest[row := m[row].(file := path)] else rest
  }

  ghost predicate Downward(mapping: seq<(RowId, RowId)>) {
    && (forall k | 0 <= k < |mapping| :: mapping[k].1 <= mapping[k].0)
    && (forall j, k | 0 <= j < k < |mapping| :: mapping[j].0 < mapping[k].0 && mapping[j].1 < mapping[k].1)
  }

  ghost predicate Moved(mapping: seq<(RowId, RowId)>, row: RowId) {
    exists k :: 0 <= k < |mapping| && mapping[k].0 == row
  }

  lemma {:induction false} SubstituteKeys(m: map<RowId, LexicalDoc>, mapping: seq<(RowId, RowId)>, row: RowId)
    requires row in Substitute(m, mapping)
    ensures exists k :: 0 <= k < |mapping| && mapping[k].1 == row && mapping[k].0 in m
  {
    var last := |mapping| - 1;
    if !(mapping[last].1 == row && mapping[last].0 in m) {
      SubstituteKeys(m, mapping[..last], row);
    }
  }

  lemma MoveDown(still: map<RowId, LexicalDoc>, sub: map<RowId, LexicalDoc>, before: RowId, after: RowId, doc: LexicalDoc)
    requires after <= before
    requires forall r | r in still && r != before :: r > before
    requires forall r | r in sub :: r < after
    ensures (still + sub - {before} - {after})[after := doc] == (still - {before}) + sub[after := doc]
  {
  }

  lemma LaterMoved(mapping: seq<(RowId, RowId)>, n: nat, r: RowId)
    requires Downward(mapping) && n < |mapping| && Moved(mapping, r) && !Moved(mapping[..n + 1], r)
    ensures r > mapping[n].0
  {
    var k :| 0 <= k < |mapping| && mapping[k].0 == r;
    forall j | 0 <= j <= n
      ensures mapping[j].0 != r
    {
      assert mapping[..n + 1][j] == mapping[j];
    }
  }

  /** Rows already moved end below the next entry; rows still to move start above it. */
  lemma RenumberOrder(m: map<RowId, LexicalDoc>, mapping: seq<(RowId, RowId)>, n: nat)
    requires Downward(mapping) && n < |mapping|
    requires forall r | r in m :: Moved(mapping, r)
    ensures mapping[n].1 <= mapping[n].0
    ensures forall r | r in m && !Moved(mapping[..n + 1], r) :: r > mapping[n].0
    ensures forall r | r in Substitute(m, mapping[..n]) :: r < mapping[n].1
  {
    forall r | r in m && !Moved(mapping[..n + 1], r)
      ensures r > mapping[n].0
    {
      LaterMoved(mapping, n, r);
    }
    forall r | r in Substitute(m, mapping[..n])
      ensures r < mapping[n].1
    {
      SubstituteKeys(m, mapping[..n], r);
    }
  }

  lemma MovedSnoc(mapping: seq<(RowId, RowId)>, n: nat)
    requires n < |mapping|
    ensures forall r :: Moved(mapping[..n + 1], r) <==> Moved(mapping[..n], r) || r == mapping[n].0
  {
    forall r
      ensures Moved(mapping[..n + 1], r) <==> Moved(mapping[..n], r) || r == mapping[n].0
    {
      if Moved(mapping[..n], r) {
        var k :| 0 <= k < n && mapping[..n][k].0 == r;
        assert mapping[..n + 1][k].0 == r;
      }
      if r == mapping[n].0 {
        assert mapping[..n + 1][n].0 == r;
      }
    }
  }

  lemma RenumberOne(m: map<RowId, LexicalDoc>, mapping: seq<(RowId, RowId)>, n: nat)
    requires Downward(mapping) && n < |mapping|
    requires forall r | r in m :: Moved(mapping, r)
    ensures var (before, after) := mapping[n];
      var still := map r | r in m && !Moved(mapping[..n], r) :: m[r];
      var still' := map r | r in m && !Moved(mapping[..n + 1], r) :: m[r];
      var sub := Substitute(m, mapping[..n]);
      if before in m then (still + sub - {before} - {after})[after := m[before]] == still' + sub[after := m[before]]
      else still == still'
  {
    var (before, after) := mapping[n];
    var still := map r | r in m && !Moved(mapping[..n], r) :: m[r];
    var still' := map r | r in m && !Moved(mapping[..n + 1], r) :: m[r];
    var sub := Substitute(m, mapping[..n]);
    hide Moved, Substitute, Downward;
    MovedSnoc(mapping, n);
    RenumberOrder(m, mapping, n);
    assert forall r :: r in still' <==> r in still && r != before;
    if before in m {
      assert still' == still - {before};
      MoveDown(still, sub, before, after, m[before]);
    } else {
      assert still == still';
    }
  }

  /** Halfway through, the rows not yet reached are where they were and the others are moved. */
  lemma {:induction false} RenumberPartway(m: map<RowId, LexicalDoc>, mapping: seq<(RowId, RowId)>, n: nat)
    requires Downward(mapping) && n <= |mapping|
    requires forall r | r in m :: Moved(mapping, r)
    ensures RenumberStepwise(m, m, mapping[..n])
      == (map r | r in m && !Moved(mapping[..n], r) :: m[r]) + Substitute(m, mapping[..n])
  {
    if n == 0 {
      assert mapping[..0] == [];
    } else {
      RenumberPartway(m, mapping, n - 1);
      assert mapping[..n][..n - 1] == mapping[..n - 1];
      RenumberOne(m, mapping, n - 1);
    }
  }

  /** Deleting the old row, deleting the new row and adding, one entry after another, amounts to
      the simultaneous substitution, because the mapping only moves rows down and in order. */
  lemma RenumberIsSubstitution(m: map<RowId, LexicalDoc>, mapping: seq<(RowId, RowId)>)
    requires Downward(mapping)
    requires forall r | r in m :: Moved(mapping, r)
    ensures RenumberStepwise(m, m, mapping) == Substitute(m, mapping)
  {
    RenumberPartway(m, mapping, |mapping|);
    assert mapping[..|mapping|] == mapping;
  }

  lemma {:induction false} SubstituteAt(m: map<RowId, LexicalDoc>, mapping: seq<(RowId, RowId)>, k: nat)
    requires Downward(mapping) && k < |mapping| && mapping[k].0 in m
    ensures mapping[k].1 in Substitute(m, mapping) && Substitute(m, mapping)[mapping[k].1] == m[mapping[k].0]
  {
    if k < |mapping| - 1 {
      SubstituteAt(m, mapping[..|mapping| - 1], k);
    }
  }

  // ---------- The index ----------

  function AsMap(ps: seq<Posting>): map<RowId, LexicalDoc> {
    if ps == [] then map[] else AsMap(ps[..|ps| - 1])[ps[|ps| - 1].row := ps[|ps| - 1].doc]
  }

  lemma {:induction false} RepresentsAsMap(ps: seq<Posting>, m: map<RowId, LexicalDoc>)
    requires Represents(ps, m)
    ensures m == AsMap(ps)
  {
    if ps != [] {
      var last := ps[|ps| - 1];
      RepresentsAsMap(ps[..|ps| - 1], m - {last.row});
      assert m == (m - {last.row})[last.row := last.doc];
    }
  }

  class LexicalIndex {
    /** What the reader sees. */
    var committed: seq<Posting>
    /** What the writer has been asked to do since the last commit. */
    var pending: seq<WriterOp>

    ghost function Docs(): map<RowId, LexicalDoc>
      reads this
    {
      AsMap(committed)
    }

    /** What the reader would see after a commit. */
    ghost function Staged(): map<RowId, LexicalDoc>
      reads this
    {
      AsMap(CarryAll(committed, pending))
    }

    ghost predicate Valid()
      reads this
    {
      Represents(committed, Docs()) && Represents(CarryAll(committed, pending), Staged())
    }

    constructor ()
      ensures Valid() && Docs() == Staged() == map[] && pending == []
    {
      committed, pending := [], [];
    }

    method Delete(row: RowId)
      requires Valid()
      modifies this`pending
      ensures Valid() && Staged() == old(Staged()) - {row}
    {
      CarrySnoc(committed, pending, DeleteTerm(row));
      DeleteRepresents(CarryAll(committed, pending), Staged(), row);
      RepresentsAsMap(Without(CarryAll(committed, pending), row), Staged() - {row});
      pending := pending + [DeleteTerm(row)];
    }

    method Add(row: RowId, doc: LexicalDoc)
      requires Valid() && row !in Staged()
      modifies this`pending
      ensures Valid() && Staged() == old(Staged())[row := doc]
    {
      var p := Posting(row, doc);
      CarrySnoc(committed, pending, AddDocument(p));
      AddRepresents(CarryAll(committed, pending), Staged(), p);
      RepresentsAsMap(CarryAll(committed, pending) + [p], Staged()[row := doc]);
      pending := pending + [AddDocument(p)];
    }

    method AddBatch(docs: seq<(RowId, LexicalDoc)>)
      requires Valid()
      modifies this`pending
      ensures Valid() && Staged() == AddAll(old(Staged()), docs)
    {
      for i := 0 to |docs|
        invariant Valid() && Staged() == AddAll(old(Staged()), docs[..i])
      {
        assert docs[..i + 1][..i] == docs[..i];
        Delete(docs[i].0);
        Add(docs[i].0, docs[i].1);
      }
      assert docs[..|docs|] == docs;
    }

    method Remove(rows: seq<RowId>)
      requires Valid()
      modifies this`pending
      ensures Valid() && Staged() == RemoveAll(old(Staged()), rows)
    {
      for i := 0 to |rows|
        invariant Valid() && Staged() == RemoveAll(old(Staged()), rows[..i])
      {
        Delete(rows[i]);
      }
      assert rows[..|rows|] == rows;
    }

    method UpdateFilePaths(paths: seq<(RowId, string)>)
      requires Valid()
      modifies this`pending
      ensures Valid() && Staged() == RepathStepwise(Docs(), old(Staged()), paths)
    {
      for i := 0 to |paths|
        invariant Valid() && Staged() == RepathStepwise(Docs(), old(Staged()), paths[..i])
      {
        assert paths[..i + 1][..i] == paths[..i];
        var (row, path) := paths[i];
        RepresentsLookup(committed, Docs(), row);
        var found := FirstDoc(committed, row);
        if found.Some? {
          Delete(row);
          Add(row, found.value.(file := path));
        }
      }
      assert paths[..|paths|] == paths;
    }

    method Renumber(mapping: seq<(RowId, RowId)>)
      requires Valid()
      modifies this`pending
      ensures Valid() && Staged() == RenumberStepwise(Docs(), old(Staged()), mapping)
    {
      for i := 0 to |mapping|
        invariant Valid() && Staged() == RenumberStepwise(Docs(), old(Staged()), mapping[..i])
      {
        assert mapping[..i + 1][..i] == mapping[..i];
        var (before, after) := mapping[i];
        RepresentsLookup(committed, Docs(), before);
        var found := FirstDoc(committed, before);
        if found.Some? {
          Delete(before);
          Delete(after);
          Add(after, found.value);
        }
      }
      assert mapping[..|mapping|] == mapping;
    }

    method Commit()
      requires Valid()
      modifies this
      ensures Valid() && pending == []
      ensures Docs() == Staged() == old(Staged())
    {
      committed := CarryAll(committed, pending);
      pending := [];
    }

    function NumDocs(): nat
      reads this
    {
      |committed|
    }
  }
}
