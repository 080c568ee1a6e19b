// The dense retriever: a flat copy of the matrix, a live mask, and a bounded heap that keeps the
// best candidates while scores stream past.

module Dense {
  import opened Wrappers
  import opened Records
  import opened Ranking

  /** A computed score: a finite number, or one of the values the search refuses. */
  datatype Score = Finite(value: real) | NonFinite

  datatype RetrievalError =
    | DenseError(detail: string)
    | NonFiniteScore(row: RowId)
    | DimensionMismatch(expected: nat, got: nat)
    | ModelMismatch(expectedModel: string, gotModel: string)
    | Inference(cause: InferError)
    | Tantivy(detail: string)
    | BothRetrieversFailed(lexical: RetrievalError, dense: RetrievalError)

  function Identity(s: Scored): Scored {
    s
  }

  predicate IsLive(live: seq<bool>, row: RowId) {
    row < |live| && live[row]
  }

  /** The live rows with their scores, in row order. */
  function Candidates(scores: seq<Score>, live: seq<bool>): seq<Scored> {
    if scores == [] then []
    else
      var last := |scores| - 1;
      Candidates(scores[..last], live)
      + if IsLive(live, last) && scores[last].Finite? then [Scored(last, scores[last].value)] else []
  }

  /** The first live row whose score is not a finite number. */
  function FirstBad(scores: seq<Score>, live: seq<bool>): Option<RowId> {
    if scores == [] then None
    else
      var last := |scores| - 1;
      var earlier := FirstBad(scores[..last], live);
      if earlier.Some? then earlier
      else if IsLive(live, last) && scores[last].NonFinite? then Some(last)
      else None
  }

  /** Every live row scored, sorted, truncated: the reference a search must equal. */
  function ReferenceSearch(scores: seq<Score>, live: seq<bool>, limit: nat): seq<Scored> {
    Top(Candidates(scores, live), limit, Identity)
  }

  lemma {:induction false} CandidateRows(scores: seq<Score>, live: seq<bool>)
    ensures forall c | c in Candidates(scores, live) ::
      c.row < |scores| && IsLive(live, c.row) && scores[c.row] == Finite(c.score)
    ensures forall i, j | 0 <= i < j < |Candidates(scores, live)| ::
      Candidates(scores, live)[i].row < Candidates(scores, live)[j].row
    ensures forall r: RowId | r < |scores| && IsLive(live, r) && scores[r].Finite? ::
      Scored(r, scores[r].value) in Candidates(scores, live)
  {
    if scores != [] {
      var last := |scores| - 1;
      CandidateRows(scores[..last], live);
      var init := Candidates(scores[..last], live);
      assert forall i | 0 <= i < |init| :: init[i] in init;
    }
  }

  /** `c` stands before `d`: a better score, or the same score and an earlier row. */
  predicate Ahead(c: Scored, d: Scored) {
    c.score > d.score || (c.score == d.score && c.row < d.row)
  }

  ghost predicate InOrder(r: seq<Scored>) {
    forall i, j | 0 <= i < j < |r| :: Ahead(r[i], r[j])
  }

  lemma RowsApart(s: seq<Scored>)
    requires forall i, j | 0 <= i < j < |s| :: s[i].row != s[j].row
    ensures AllDistinct(s) && forall c, d | c in s && d in s && c != d :: c.row != d.row
  {
  }

  /** Of candidates with different rows, the best `n` are in order, and ahead of the others. */
  lemma TopMeaning(s: seq<Scored>, n: nat)
    requires forall i, j | 0 <= i < j < |s| :: s[i].row != s[j].row
    ensures var r := Top(s, n, Identity);
      && |r| == (if |s| < n then |s| else n)
      && (forall c | c in r :: c in s)
      && InOrder(r)
      && (forall c, d | c in r && d in s && d !in r :: Ahead(c, d))
  {
    hide Rank;
    var ranked, r := Rank(s, Identity), Top(s, n, Identity);
    RowsApart(s);
    TopLength(s, n, Identity);
    RankMeaning(s, Identity);
    RankDistinct(s, Identity);
    forall i, j | 0 <= i < j < |ranked|
      ensures Ahead(ranked[i], ranked[j])
    {
      assert ranked[i] in ranked && ranked[j] in ranked && !Before(Identity(ranked[j]), Identity(ranked[i]));
    }
    forall c, d | c in r && d in s && d !in r
      ensures Ahead(c, d)
    {
      assert d in ranked;
      var i :| 0 <= i < |r| && r[i] == c;
      var j :| 0 <= j < |ranked| && ranked[j] == d;
      assert forall k | 0 <= k < |r| :: r[k] in r && r[k] == ranked[k];
    }
  }

  ghost function LivePositions(live: seq<bool>): set<RowId> {
    set row: nat | row < |live| && live[row]
  }

  lemma NoPositions(live: seq<bool>)
    ensures LivePositions(live[..0]) == {}
  {
  }

  lemma PositionsSnoc(live: seq<bool>, n: nat)
    requires n < |live|
    ensures LivePositions(live[..n + 1]) == LivePositions(live[..n]) + if live[n] then {n} else {}
    ensures n !in LivePositions(live[..n])
  {
  }

  /** With no score refused, every live row is a candidate. */
  lemma {:induction false} CandidateCount(scores: seq<Score>, live: seq<bool>)
    requires |scores| <= |live| && forall row: nat | row < |scores| && live[row] :: scores[row].Finite?
    ensures |Candidates(scores, live)| == |LivePositions(live[..|scores|])|
  {
    hide LivePositions;
    if scores == [] {
      NoPositions(live);
    } else {
      var last := |scores| - 1;
      CandidateCount(scores[..last], live);
      PositionsSnoc(live, last);
    }
  }

  lemma {:induction false} FirstBadMeaning(scores: seq<Score>, live: seq<bool>)
    ensures FirstBad(scores, live).None? <==> forall row: nat | row < |scores| && IsLive(live, row) :: scores[row].Finite?
    ensures FirstBad(scores, live).Some? ==> var bad := FirstBad(scores, live).value;
      bad < |scores| && IsLive(live, bad) && scores[bad].NonFinite? && forall row: nat | row < bad && IsLive(live, row) :: scores[row].Finite?
  {
    if scores != [] {
      var last := |scores| - 1;
      FirstBadMeaning(scores[..last], live);
      assert forall row: nat | row < last :: scores[..last][row] == scores[row];
    }
  }

  /** A max-heap by its contract: the greatest element is the one every other comes before. */
  class BinaryHeap {
    var items: seq<Scored>

    constructor ()
      ensures items == []
    {
      items := [];
    }

    method Push(c: Scored)
      modifies this
      ensures multiset(items) == multiset(old(items)) + multiset{c}
      ensures |items| == |old(items)| + 1
    {
      items := items + [c];
    }

    /** Position of the worst candidate. */
    method Worst() returns (k: nat)
      requires items != []
      ensures k < |items|
      ensures forall i | 0 <= i < |items| :: !Before(items[k], items[i])
    {
      k := 0;
      for i := 1 to |items|
        invariant k < i
        invariant forall j | 0 <= j < i :: !Before(items[k], items[j])
      {
        if Before(items[k], items[i]) {
          k := i;
        }
      }
    }

    method Peek() returns (c: Scored)
      requires items != []
      ensures c in items && forall x | x in items :: !Before(c, x)
    {
      var k := Worst();
      c := items[k];
    }

    method Pop() returns (c: Scored)
      requires items != []
      modifies this
      ensures c in old(items) && forall x | x in old(items) :: !Before(c, x)
      ensures multiset(items) == multiset(old(items)) - multiset{c}
    {
      var k := Worst();
      c := items[k];
      assert items == items[..k] + [items[k]] + items[k + 1..];
      items := items[..k] + items[k + 1..];
    }
  }

  /** The last of a ranked list is what the heap calls its worst. */
  lemma WorstOfTop(s: seq<Scored>, n: nat, items: seq<Scored>, worst: Scored)
    requires multiset(items) == multiset(Top(s, n, Identity)) && Top(s, n, Identity) != []
    requires worst in items && forall x | x in items :: !Before(worst, x)
    ensures worst == Top(s, n, Identity)[|Top(s, n, Identity)| - 1]
  {
    var top := Top(s, n, Identity);
    TopLength(s, n, Identity);
    var last := top[|top| - 1];
    assert last in multiset(items) && worst in multiset(top);
    var k :| 0 <= k < |top| && top[k] == worst;
    assert last in items && !Before(worst, last);
    if k < |top| - 1 {
      assert !Before(Identity(top[|top| - 1]), Identity(top[k]));
      assert !Before(last, worst);
    }
  }

  lemma SameMultisetSameLength(a: seq<Scored>, b: seq<Scored>)
    requires multiset(a) == multiset(b)
    ensures |a| == |b|
  {
    assert |multiset(a)| == |multiset(b)|;
  }

  lemma NoScores(live: seq<bool>, limit: nat)
    ensures FirstBad([], live).None? && Top(Candidates([], live), limit, Identity) == []
  {
  }

  lemma ScoreStep(scores: seq<Score>, live: seq<bool>, row: nat)
    requires row < |scores| && FirstBad(scores[..row], live).None?
    ensures FirstBad(scores[..row + 1], live) == if IsLive(live, row) && scores[row].NonFinite? then Some(row) else None
    ensures Candidates(scores[..row + 1], live)
      == Candidates(scores[..row], live) + if IsLive(live, row) && scores[row].Finite? then [Scored(row, scores[row].value)] else []
    ensures !(IsLive(live, row) && scores[row].Finite?) ==> Candidates(scores[..row + 1], live) == Candidates(scores[..row], live)
  {
    assert scores[..row + 1][..row] == scores[..row];
  }

  lemma {:induction false} BadStays(scores: seq<Score>, live: seq<bool>, n: nat)
    requires n <= |scores| && FirstBad(scores[..n], live).Some?
    ensures FirstBad(scores, live) == FirstBad(scores[..n], live)
    decreases |scores|
  {
    if n < |scores| {
      assert scores[..|scores| - 1][..n] == scores[..n];
      BadStays(scores[..|scores| - 1], live, n);
    } else {
      assert scores[..n] == scores;
    }
  }

  lemma SortedTop(items: seq<Scored>, s: seq<Scored>, n: nat)
    requires multiset(items) == multiset(Top(s, n, Identity))
    ensures Rank(items, Identity) == Top(s, n, Identity)
  {
    TopLength(s, n, Identity);
    RankOrderFree(items, Top(s, n, Identity), Identity);
    RankRanked(Top(s, n, Identity), Identity);
  }

  lemma WorstUnique(items: seq<Scored>, a: Scored, b: Scored)
    requires a in items && forall x | x in items :: !Before(a, x)
    requires b in items && forall x | x in items :: !Before(b, x)
    ensures a == b
  {
    assert !Before(a, b) && !Before(b, a);
  }

  lemma OfferRoom(before: seq<Scored>, candidate: Scored, limit: nat, items: seq<Scored>)
    requires multiset(items) == multiset(Top(before, limit, Identity))
    ensures |items| < limit ==> multiset(Top(before + [candidate], limit, Identity)) == multiset(items) + multiset{candidate}
    ensures |items| >= limit && items == [] ==> multiset(Top(before + [candidate], limit, Identity)) == multiset(items)
    ensures |items| <= limit
  {
    TopSnoc(before, candidate, limit, Identity);
    TopLength(before, limit, Identity);
    SameMultisetSameLength(items, Top(before, limit, Identity));
  }

  lemma OfferFull(before: seq<Scored>, candidate: Scored, limit: nat, items: seq<Scored>, worst: Scored)
    requires multiset(items) == multiset(Top(before, limit, Identity)) && |items| == limit > 0
    requires worst in items && forall x | x in items :: !Before(worst, x)
    ensures multiset(Top(before + [candidate], limit, Identity))
      == if Before(candidate, worst) then multiset(items) - multiset{worst} + multiset{candidate} else multiset(items)
  {
    hide Top;
    TopSnoc(before, candidate, limit, Identity);
    SameMultisetSameLength(items, Top(before, limit, Identity));
    WorstOfTop(before, limit, items, worst);
  }

  /** One candidate meets the heap: it enters when there is room, or displaces the worst. */
  method Offer(heap: BinaryHeap, ghost before: seq<Scored>, candidate: Scored, limit: nat)
    requires multiset(heap.items) == multiset(Top(before, limit, Identity))
    modifies heap
    ensures multiset(heap.items) == multiset(Top(before + [candidate], limit, Identity))
  {
    hide Top, Before;
    OfferRoom(before, candidate, limit, heap.items);
    if |heap.items| < limit {
      heap.Push(candidate);
    } else if heap.items != [] {
      var worst := heap.Peek();
      OfferFull(before, candidate, limit, heap.items, worst);
      if Before(candidate, worst) {
        var popped := heap.Pop();
        WorstUnique(old(heap.items), worst, popped);
        heap.Push(candidate);
      }
    }
  }

  /** Streams the scores past a heap of at most `limit` candidates. */
  method SelectScores(scores: seq<Score>, live: seq<bool>, limit: nat) returns (r: Result<seq<Scored>, RetrievalError>)
    ensures r.Ok? <==> FirstBad(scores, live).None?
    ensures r.Ok? ==> r.value == ReferenceSearch(scores, live, limit)
    ensures r.Err? ==> r.error == NonFiniteScore(FirstBad(scores, live).value)
  {
    hide FirstBad, Candidates, Top, Rank, IsLive;
    var heap := new BinaryHeap();
    NoScores(live, limit);
    assert scores[..0] == [];
    for row := 0 to |scores|
      invariant FirstBad(scores[..row], live).None?
      invariant multiset(heap.items) == multiset(Top(Candidates(scores[..row], live), limit, Identity))
    {
      ScoreStep(scores, live, row);
      if IsLive(live, row) {
        if scores[row].NonFinite? {
          BadStays(scores, live, row + 1);
          return Err(NonFiniteScore(row));
        }
        Offer(heap, Candidates(scores[..row], live), Scored(row, scores[row].value), limit);
      }
    }
    assert scores[..|scores|] == scores;
    var results := Rank(heap.items, Identity);
    SortedTop(heap.items, Candidates(scores, live), limit);
    return Ok(results);
  }

  // ---------- The prepared matrix ----------

  function Flatten(vectors: seq<Vector>): Vector {
    if vectors == [] then [] else Flatten(vectors[..|vectors| - 1]) + vectors[|vectors| - 1]
  }

  /** Whole chunks of `dims` values, from the front. */
  function ChunksExact(values: Vector, dims: nat): seq<Vector>
    requires dims > 0
    decreases |values|
  {
    if |values| < dims then [] else [values[..dims]] + ChunksExact(values[dims..], dims)
  }

  ghost predicate AllWidth(vectors: seq<Vector>, dims: nat) {
    forall i | 0 <= i < |vectors| :: |vectors[i]| == dims
  }

  lemma {:induction false} FlattenCons(v: Vector, vectors: seq<Vector>)
    ensures Flatten([v] + vectors) == v + Flatten(vectors)
  {
    if vectors == [] {
      assert [v] + vectors == [v];
      assert [v][..0] == [];
    } else {
      var last := |vectors| - 1;
      assert ([v] + vectors)[..last + 1] == [v] + vectors[..last];
      FlattenCons(v, vectors[..last]);
    }
  }

  lemma {:induction false} FlattenConcat(a: seq<Vector>, b: seq<Vector>)
    ensures Flatten(a + b) == Flatten(a) + Flatten(b)
  {
    if b == [] {
      assert a + b == a;
    } else {
      var last := |b| - 1;
      assert (a + b)[..|a| + last] == a + b[..last];
      FlattenConcat(a, b[..last]);
    }
  }

  lemma {:induction false} FlattenLength(vectors: seq<Vector>, dims: nat)
    requires AllWidth(vectors, dims)
    ensures |Flatten(vectors)| == |vectors| * dims
  {
    if vectors != [] {
      var last := |vectors| - 1;
      FlattenLength(vectors[..last], dims);
      assert |vectors[last]| == dims;
      assert (last + 1) * dims == last * dims + dims;
    }
  }

  lemma MoreRows(rows: nat, newRows: nat, dims: nat)
    requires rows <= newRows
    ensures 0 <= rows * dims <= newRows * dims
  {
  }

  /** Cutting the flat matrix into rows gives the rows back. */
  lemma {:induction false} ChunksOfFlatten(vectors: seq<Vector>, dims: nat)
    requires dims > 0 && AllWidth(vectors, dims)
    ensures ChunksExact(Flatten(vectors), dims) == vectors
    decreases |vectors|
  {
    if vectors != [] {
      var rest := vectors[1..];
      assert vectors == [vectors[0]] + rest;
      FlattenCons(vectors[0], rest);
      assert Flatten(vectors)[..dims] == vectors[0] && Flatten(vectors)[dims..] == Flatten(rest);
      ChunksOfFlatten(rest, dims);
    }
  }

  function ScoreAll(vectors: seq<Vector>, query: Vector, similarity: (Vector, Vector) -> Score): seq<Score> {
    seq(|vectors|, i requires 0 <= i < |vectors| => similarity(vectors[i], query))
  }

  /** What a dense search answers, on the rows and the mask alone. */
  function SearchSpec(vectors: seq<Vector>, live: seq<bool>, dims: nat, modelId: string,
                      query: Vector, model: string, limit: nat, similarity: (Vector, Vector) -> Score):
      Result<seq<Scored>, RetrievalError>
  {
    if |query| != dims then Err(RetrievalError.DimensionMismatch(dims, |query|))
    else if model != modelId then Err(ModelMismatch(modelId, model))
    else if limit == 0 then Ok([])
    else
      var scores := ScoreAll(vectors, query, similarity);
      if FirstBad(scores, live).Some? then Err(NonFiniteScore(FirstBad(scores, live).value))
      else Ok(ReferenceSearch(scores, live, limit))
  }

  /** `row` is the first live row whose own score for this query is not a finite number. */
  ghost predicate Refused(vectors: seq<Vector>, live: seq<bool>, query: Vector, similarity: (Vector, Vector) -> Score, row: RowId)
    requires |live| == |vectors|
  {
    && row < |vectors| && live[row] && similarity(vectors[row], query).NonFinite?
    && forall earlier: nat | earlier < row && live[earlier] :: similarity(vectors[earlier], query).Finite?
  }

  /** `r` lists the best `limit` live rows, each with its own score, in order: as many as there
      are, and none left out that is ahead of one that is listed. */
  ghost predicate BestLive(vectors: seq<Vector>, live: seq<bool>, query: Vector, similarity: (Vector, Vector) -> Score, limit: nat,
                           r: seq<Scored>)
    requires |live| == |vectors|
  {
    && (forall row: nat | row < |vectors| && live[row] :: similarity(vectors[row], query).Finite?)
    && |r| == (if |LivePositions(live)| < limit then |LivePositions(live)| else limit)
    && (forall c | c in r :: c.row < |vectors| && live[c.row] && similarity(vectors[c.row], query) == Finite(c.score))
    && InOrder(r)
    && (forall row: nat, c | row < |vectors| && live[row] && c in r && (forall d | d in r :: d.row != row) ::
          Ahead(c, Scored(row, similarity(vectors[row], query).value)))
  }

  /** What the specified answer means for every row, with the row's own score. */
  lemma SpecMeaning(vectors: seq<Vector>, live: seq<bool>, query: Vector, limit: nat, similarity: (Vector, Vector) -> Score)
    requires |live| == |vectors|
    ensures var scores := ScoreAll(vectors, query, similarity);
      if FirstBad(scores, live).Some? then Refused(vectors, live, query, similarity, FirstBad(scores, live).value)
      else BestLive(vectors, live, query, similarity, limit, ReferenceSearch(scores, live, limit))
  {
    hide FirstBad, Candidates, Top, Ahead, LivePositions;
    var scores := ScoreAll(vectors, query, similarity);
    FirstBadMeaning(scores, live);
    forall row: nat | row < |live| && live[row] && (FirstBad(scores, live).None? || row < FirstBad(scores, live).value)
      ensures similarity(vectors[row], query).Finite?
    {
      assert IsLive(live, row) && scores[row] == similarity(vectors[row], query);
    }
    if FirstBad(scores, live).None? {
      var s, r := Candidates(scores, live), ReferenceSearch(scores, live, limit);
      CandidateRows(scores, live);
      assert forall row: nat | row < |scores| && live[row] :: IsLive(live, row) && scores[row].Finite?;
      CandidateCount(scores, live);
      assert live[..|scores|] == live;
      TopMeaning(s, limit);
      forall row: nat, c | row < |vectors| && live[row] && c in r && (forall d | d in r :: d.row != row)
        ensures Ahead(c, Scored(row, similarity(vectors[row], query).value))
      {
        assert scores[row].Finite? && IsLive(live, row);
        assert Scored(row, scores[row].value) in s;
      }
    }
  }

  class DenseIndex {
    var matrix: Vector
    var rows: nat
    var live: seq<bool>
    var uploadedBytes: nat
    const dims: nat
    const modelId: string

    /** The index holds exactly these rows and this mask: all its fields are determined. */
    ghost predicate PreparedFrom(vectors: seq<Vector>, mask: seq<bool>)
      reads this
    {
      && dims > 0 && AllWidth(vectors, dims)
      && matrix == Flatten(vectors)
      && rows == |vectors| == |mask|
      && live == mask
      && uploadedBytes == 2 * |matrix|
    }

    constructor Fields(matrix: Vector, rows: nat, live: seq<bool>, dims: nat, modelId: string)
      ensures this.matrix == matrix && this.rows == rows && this.live == live && this.dims == dims && this.modelId == modelId
      ensures uploadedBytes == 2 * |matrix|
    {
      this.matrix := matrix;
      this.rows := rows;
      this.live := live;
      this.dims := dims;
      this.modelId := modelId;
      this.uploadedBytes := 2 * |matrix|;
    }

    static method PrepareSlice(slice: Vector, rows: nat, dims: nat, modelId: string, live: seq<bool>)
        returns (r: Result<DenseIndex, RetrievalError>)
      ensures r.Ok? <==> rows == |live| && |slice| == rows * dims
      ensures r.Ok? ==> fresh(r.value) && r.value.modelId == modelId && r.value.dims == dims
      ensures r.Ok? && dims > 0 ==> forall vectors | AllWidth(vectors, dims) && Flatten(vectors) == slice && |vectors| == rows ::
        r.value.PreparedFrom(vectors, live)
    {
      if rows != |live| {
        return Err(DenseError("live mask length"));
      }
      if |slice| != rows * dims {
        return Err(DenseError("matrix shape"));
      }
      var index := new DenseIndex.Fields(slice, rows, live, dims, modelId);
      return Ok(index);
    }

    /** Extends the index by the rows appended since; afterwards it is what preparing afresh
        from the larger matrix would have given. */
    method Refresh(slice: Vector, newRows: nat, newDims: nat, newModel: string, mask: seq<bool>,
                   ghost vectors: seq<Vector>, ghost grown: seq<Vector>)
        returns (error: Option<RetrievalError>)
      requires PreparedFrom(vectors, live)
      requires newDims == dims ==> AllWidth(grown, dims) && slice == Flatten(grown) && newRows == |grown|
      modifies this
      ensures error.None? <==> newDims == dims && newModel == modelId && newRows == |mask| && newRows >= old(rows)
      ensures error.None? && vectors <= grown ==> PreparedFrom(grown, mask)
      ensures error.Some? ==> PreparedFrom(vectors, old(live)) && live == old(live)
    {
      hide Flatten, AllWidth;
      if newDims != dims {
        return Some(RetrievalError.DimensionMismatch(dims, newDims));
      }
      if newModel != modelId {
        return Some(ModelMismatch(modelId, newModel));
      }
      if newRows != |mask| {
        return Some(DenseError("live mask length"));
      }
      if newRows < rows {
        return Some(DenseError("matrix row count decreased"));
      }
      FlattenLength(vectors, dims);
      FlattenLength(grown, dims);
      MoreRows(rows, newRows, dims);
      var appended := slice[rows * dims..];
      if vectors <= grown {
        assert grown == vectors + grown[|vectors|..];
        FlattenConcat(vectors, grown[|vectors|..]);
        assert matrix + appended == slice;
      }
      matrix := matrix + appended;
      uploadedBytes := uploadedBytes + 2 * |appended|;
      rows := newRows;
      live := mask;
      return None;
    }

    /** The best `limit` live rows for a query, by any similarity of row and query. */
    method Search(query: Vector, model: string, limit: nat, similarity: (Vector, Vector) -> Score, ghost vectors: seq<Vector>)
        returns (r: Result<seq<Scored>, RetrievalError>)
      requires PreparedFrom(vectors, live)
      ensures r == SearchSpec(vectors, live, dims, modelId, query, model, limit, similarity)
      ensures |query| != dims ==> r == Err(RetrievalError.DimensionMismatch(dims, |query|))
      ensures |query| == dims && model != modelId ==> r == Err(ModelMismatch(modelId, model))
      ensures |query| == dims && model == modelId && limit == 0 ==> r == Ok([])
      ensures |query| == dims && model == modelId && limit > 0 ==>
        match r
        case Ok(found) => BestLive(vectors, live, query, similarity, limit, found)
        case Err(error) => exists row :: error == NonFiniteScore(row) && Refused(vectors, live, query, similarity, row)
    {
      SpecMeaning(vectors, live, query, limit, similarity);
      if |query| != dims {
        return Err(RetrievalError.DimensionMismatch(dims, |query|));
      }
      if model != modelId {
        return Err(ModelMismatch(modelId, model));
      }
      if limit == 0 {
        return Ok([]);
      }
      ChunksOfFlatten(vectors, dims);
      var chunks := ChunksExact(matrix, dims);
      var scores := seq(|chunks|, i requires 0 <= i < |chunks| => similarity(chunks[i], query));
      assert scores == ScoreAll(vectors, query, similarity);
      r := SelectScores(scores, live, limit);
    }
  }
}
