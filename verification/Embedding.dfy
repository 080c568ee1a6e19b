// From texts to vectors: padding a batch, pooling hidden states, and splitting work into batches.
// Neither the padding nor the batch size may show in a text's embedding.

module Embedding {
  import opened Wrappers
  import opened Records

  datatype Pooling = Mean | LastToken | Cls

  datatype EncodedInput = EncodedInput(inputIds: seq<nat>, attentionMask: seq<nat>, truncated: bool)

  datatype Encoding = Encoding(ids: seq<nat>, truncated: bool)

  datatype Embedded = Embedded(vector: Vector, truncated: bool)

  /** The tokenizer, the network and the last conversion, none of which is decided here. */
  datatype Model = Model(
    tokenize: string -> Result<Encoding, InferError>,
    maxLen: nat,
    padId: nat,
    pooling: Pooling,
    dims: nat,
    forward: seq<EncodedInput> -> seq<real>,
    finish: seq<real> -> Vector
  )

  function Ones(n: nat): seq<nat> {
    seq(n, _ => 1)
  }

  function Blanks(n: nat): seq<nat> {
    seq(n, _ => 0)
  }

  function PadIds(m: Model, n: nat): seq<nat> {
    seq(n, _ => m.padId)
  }

  function Min(a: nat, b: nat): nat {
    if a <= b then a else b
  }

  /** The ids a text keeps. */
  function RealIds(m: Model, e: Encoding): (ids: seq<nat>)
    ensures ids <= e.ids && |ids| <= m.maxLen && (|ids| == |e.ids| || |ids| == m.maxLen)
  {
    e.ids[..Min(|e.ids|, m.maxLen)]
  }

  // ---------- Padding ----------

  function PadRow(m: Model, e: Encoding, width: nat): EncodedInput
    requires |RealIds(m, e)| <= width
  {
    var ids := RealIds(m, e);
    var pad := width - |ids|;
    if m.pooling.LastToken? then
      EncodedInput(PadIds(m, pad) + ids, Blanks(pad) + Ones(|ids|), e.truncated)
    else
      EncodedInput(ids + PadIds(m, pad), Ones(|ids|) + Blanks(pad), e.truncated)
  }

  /** Where a row's real positions begin. */
  function Offset(m: Model, width: nat, n: nat): nat
    requires n <= width
  {
    if m.pooling.LastToken? then width - n else 0
  }

  ghost predicate PaddedRow(m: Model, e: Encoding, width: nat, row: EncodedInput) {
    var ids := RealIds(m, e);
    && |ids| <= width
    && |row.inputIds| == |row.attentionMask| == width
    && row.truncated == e.truncated
    && (var o := Offset(m, width, |ids|);
        && row.inputIds[o..o + |ids|] == ids
        && (forall s | 0 <= s < width :: row.attentionMask[s] == if o <= s < o + |ids| then 1 else 0)
        && (forall s | 0 <= s < width && !(o <= s < o + |ids|) :: row.inputIds[s] == m.padId))
  }

  /** Every row is as wide as the widest, and its ones are one block over exactly the real ids. */
  ghost predicate PaddedBatch(m: Model, encodings: seq<Encoding>, width: nat, batch: seq<EncodedInput>) {
    && |batch| == |encodings|
    && (forall b | 0 <= b < |batch| :: PaddedRow(m, encodings[b], width, batch[b]))
    && (width > 0 ==> exists b :: 0 <= b < |encodings| && |RealIds(m, encodings[b])| == width)
  }

  lemma PadRowMeaning(m: Model, e: Encoding, width: nat)
    requires |RealIds(m, e)| <= width
    ensures PaddedRow(m, e, width, PadRow(m, e, width))
  {
    hide RealIds;
    var ids, row := RealIds(m, e), PadRow(m, e, width);
    if m.pooling.LastToken? {
      assert row.inputIds == PadIds(m, width - |ids|) + ids;
      assert row.inputIds[width - |ids|..width] == ids;
    } else {
      assert row.inputIds == ids + PadIds(m, width - |ids|);
      assert row.inputIds[0..|ids|] == ids;
    }
  }

  /** The encodings of all texts, or the first error. */
  function Encodings(m: Model, texts: seq<string>): Result<seq<Encoding>, InferError> {
    if texts == [] then Ok([])
    else
      match Encodings(m, texts[..|texts| - 1])
      case Err(e) => Err(e)
      case Ok(earlier) =>
        match m.tokenize(texts[|texts| - 1])
        case Err(e) => Err(e)
        case Ok(last) => Ok(earlier + [last])
  }

  lemma EncodingsStep(m: Model, texts: seq<string>, n: nat)
    requires n < |texts| && Encodings(m, texts[..n]).Ok?
    ensures Encodings(m, texts[..n + 1]) == match m.tokenize(texts[n])
      case Err(e) => Err(e)
      case Ok(last) => Ok(Encodings(m, texts[..n]).value + [last])
  {
    assert texts[..n + 1][..n] == texts[..n];
  }

  lemma {:induction false} EncodingsError(m: Model, texts: seq<string>, n: nat)
    requires n <= |texts| && Encodings(m, texts[..n]).Err?
    ensures Encodings(m, texts) == Encodings(m, texts[..n])
    decreases |texts|
  {
    if n == |texts| {
      assert texts[..n] == texts;
    } else {
      var init := texts[..|texts| - 1];
      assert init[..n] == texts[..n];
      EncodingsError(m, init, n);
    }
  }

  method EncodeBatchPadded(m: Model, texts: seq<string>) returns (r: Result<seq<EncodedInput>, InferError>, width: nat)
    ensures r.Ok? <==> Encodings(m, texts).Ok?
    ensures r.Err? ==> r.error == Encodings(m, texts).error
    ensures r.Ok? ==> PaddedBatch(m, Encodings(m, texts).value, width, r.value)
  {
    hide PadRow, PaddedRow;
    var encoded: seq<Encoding> := [];
    width := 0;
    assert texts[..0] == [];
    for i := 0 to |texts|
      invariant Encodings(m, texts[..i]) == Ok(encoded)
      invariant forall b | 0 <= b < |encoded| :: |RealIds(m, encoded[b])| <= width
      invariant width > 0 ==> exists b :: 0 <= b < |encoded| && |RealIds(m, encoded[b])| == width
    {
      EncodingsStep(m, texts, i);
      match m.tokenize(texts[i]) {
        case Err(e) =>
          EncodingsError(m, texts, i + 1);
          return Err(e), 0;
        case Ok(encoding) =>
          var n := Min(|encoding.ids|, m.maxLen);
          ghost var before := encoded;
          encoded := encoded + [encoding];
          assert |RealIds(m, encoded[|before|])| == n;
          if n > width {
            width := n;
          } else if width > 0 {
            ghost var b :| 0 <= b < |before| && |RealIds(m, before[b])| == width;
            assert |RealIds(m, encoded[b])| == width;
          }
      }
    }
    assert texts[..|texts|] == texts;
    var out: seq<EncodedInput> := [];
    for i := 0 to |encoded|
      invariant |out| == i
      invariant forall b | 0 <= b < i :: PaddedRow(m, encoded[b], width, out[b])
    {
      PadRowMeaning(m, encoded[i], width);
      out := out + [PadRow(m, encoded[i], width)];
    }
    return Ok(out), width;
  }

  // ---------- Pooling ----------

  function Zeros(dims: nat): seq<real> {
    seq(dims, _ => 0.0)
  }

  function Plus(a: seq<real>, b: seq<real>): seq<real>
    requires |a| == |b|
  {
    seq(|a|, d requires 0 <= d < |a| => a[d] + b[d])
  }

  function Times(x: real, factor: real): real {
    x * factor
  }

  function Scaled(v: seq<real>, factor: real): seq<real> {
    seq(|v|, d requires 0 <= d < |v| => Times(v[d], factor))
  }

  ghost predicate Wide(cells: seq<seq<real>>, dims: nat) {
    forall s | 0 <= s < |cells| :: |cells[s]| == dims
  }

  function SumWhere(cells: seq<seq<real>>, mask: seq<nat>, dims: nat): (sum: seq<real>)
    requires |cells| == |mask| && Wide(cells, dims)
    ensures |sum| == dims
  {
    if cells == [] then Zeros(dims)
    else
      var last := |cells| - 1;
      var earlier := SumWhere(cells[..last], mask[..last], dims);
      if mask[last] == 0 then earlier else Plus(earlier, cells[last])
  }

  function CountWhere(mask: seq<nat>): nat {
    if mask == [] then 0 else CountWhere(mask[..|mask| - 1]) + if mask[|mask| - 1] == 0 then 0 else 1
  }

  /** Last position with a one; None when there is none. */
  function LastWhere(mask: seq<nat>): Option<nat> {
    if mask == [] then None
    else if mask[|mask| - 1] != 0 then Some(|mask| - 1)
    else LastWhere(mask[..|mask| - 1])
  }

  lemma {:induction false} LastWhereBound(mask: seq<nat>)
    ensures LastWhere(mask).Some? ==> LastWhere(mask).value < |mask|
  {
    if mask != [] {
      LastWhereBound(mask[..|mask| - 1]);
    }
  }

  function PoolSpec(cells: seq<seq<real>>, mask: seq<nat>, dims: nat, strategy: Pooling): (v: seq<real>)
    requires |cells| == |mask| && Wide(cells, dims) && (strategy.Mean? || cells != [])
    ensures |v| == dims
  {
    match strategy
    case Mean =>
      var count := CountWhere(mask);
      if count > 0 then Scaled(SumWhere(cells, mask, dims), 1.0 / count as real)
      else if cells != [] then Scaled(SumWhere(cells, Ones(|cells|), dims), 1.0 / |cells| as real)
      else Zeros(dims)
    case LastToken =>
      LastWhereBound(mask);
      var last := LastWhere(mask);
      cells[if last.Some? then last.value else |cells| - 1]
    case Cls => cells[0]
  }

  lemma CellStart(i: nat, dims: nat)
    ensures 0 <= i * dims <= i * dims + dims
  {
  }

  /** Position `i` of a flat list of vectors. */
  function Cell(hidden: seq<real>, dims: nat, i: nat): seq<real> {
    if i * dims + dims <= |hidden| then
      CellStart(i, dims);
      hidden[i * dims..i * dims + dims]
    else []
  }

  lemma RowStart(b: nat, width: nat)
    ensures 0 <= b * width
  {
  }

  function CellRow(hidden: seq<real>, dims: nat, width: nat, b: nat): seq<seq<real>> {
    seq(width, s requires 0 <= s < width => RowStart(b, width); Cell(hidden, dims, b * width + s))
  }

  lemma NoMore(a: nat, b: nat, c: nat)
    requires a <= b
    ensures a * c <= b * c
  {
  }

  lemma CellFits(hidden: seq<real>, dims: nat, count: nat, i: nat)
    requires |hidden| == count * dims && i < count
    ensures 0 <= i * dims <= i * dims + dims <= |hidden| && |Cell(hidden, dims, i)| == dims
  {
    CellStart(i, dims);
    assert (i + 1) * dims == i * dims + dims;
    NoMore(i + 1, count, dims);
  }

  lemma RowFits(batch: nat, width: nat, b: nat)
    requires b < batch
    ensures 0 <= b * width <= b * width + width <= batch * width
  {
    RowStart(b, width);
    assert (b + 1) * width == b * width + width;
    NoMore(b + 1, batch, width);
  }

  lemma CellAt(hidden: seq<real>, dims: nat, width: nat, batch: nat, b: nat, s: nat, d: nat)
    requires |hidden| == batch * width * dims && b < batch && s < width && d < dims
    ensures 0 <= (b * width + s) * dims + d < |hidden|
    ensures |CellRow(hidden, dims, width, b)[s]| == dims
    ensures CellRow(hidden, dims, width, b)[s][d] == hidden[(b * width + s) * dims + d]
  {
    RowFits(batch, width, b);
    CellFits(hidden, dims, batch * width, b * width + s);
  }

  /** One row of the flat output is written; the others stay. */
  twostate predicate OnlyRow(out: array<real>, lo: nat, dims: nat)
    reads out
  {
    lo + dims <= out.Length && out[..lo] == old(out[..lo]) && out[lo + dims..] == old(out[lo + dims..])
  }

  method AddInto(out: array<real>, lo: nat, v: seq<real>)
    requires lo + |v| <= out.Length
    modifies out
    ensures OnlyRow(out, lo, |v|)
    ensures out[lo..lo + |v|] == Plus(old(out[lo..lo + |v|]), v)
  {
    for d := 0 to |v|
      invariant forall i | 0 <= i < out.Length && !(lo <= i < lo + d) :: out[i] == old(out[i])
      invariant forall i | lo <= i < lo + d :: out[i] == old(out[i]) + v[i - lo]
    {
      out[lo + d] := out[lo + d] + v[d];
    }
  }

  method ScaleInto(out: array<real>, lo: nat, dims: nat, factor: real)
    requires lo + dims <= out.Length
    modifies out
    ensures OnlyRow(out, lo, dims)
    ensures out[lo..lo + dims] == Scaled(old(out[lo..lo + dims]), factor)
  {
    for d := 0 to dims
      invariant forall i | 0 <= i < out.Length && !(lo <= i < lo + d) :: out[i] == old(out[i])
      invariant forall i | lo <= i < lo + d :: out[i] == Times(old(out[i]), factor)
    {
      out[lo + d] := Times(out[lo + d], factor);
    }
  }

  method CopyRow(out: array<real>, lo: nat, v: seq<real>)
    requires lo + |v| <= out.Length
    modifies out
    ensures OnlyRow(out, lo, |v|)
    ensures out[lo..lo + |v|] == v
  {
    forall d | 0 <= d < |v| {
      out[lo + d] := v[d];
    }
  }

  /** Adds up the positions with a one. */
  method SumInto(out: array<real>, lo: nat, cells: seq<seq<real>>, mask: seq<nat>, dims: nat) returns (count: nat)
    requires lo + dims <= out.Length && out[lo..lo + dims] == Zeros(dims)
    requires |cells| == |mask| && Wide(cells, dims)
    modifies out
    ensures OnlyRow(out, lo, dims) && count == CountWhere(mask)
    ensures out[lo..lo + dims] == SumWhere(cells, mask, dims)
  {
    hide Plus, Zeros;
    count := 0;
    for s := 0 to |cells|
      invariant out[..lo] == old(out[..lo]) && out[lo + dims..] == old(out[lo + dims..])
      invariant count == CountWhere(mask[..s])
      invariant out[lo..lo + dims] == SumWhere(cells[..s], mask[..s], dims)
    {
      assert cells[..s + 1][..s] == cells[..s] && mask[..s + 1][..s] == mask[..s];
      if mask[s] != 0 {
        AddInto(out, lo, cells[s]);
        count := count + 1;
      }
    }
    assert cells[..|cells|] == cells && mask[..|mask|] == mask;
  }

  lemma NoOnes()
    ensures LastWhere([]) == None
  {
  }

  lemma LastWhereStep(mask: seq<nat>, s: nat)
    requires s < |mask|
    ensures LastWhere(mask[..s + 1]) == if mask[s] != 0 then Some(s) else LastWhere(mask[..s])
  {
    assert mask[..s + 1][..s] == mask[..s];
  }

  lemma {:induction false} NothingSummed(cells: seq<seq<real>>, mask: seq<nat>, dims: nat)
    requires |cells| == |mask| && Wide(cells, dims) && (CountWhere(mask) == 0 || cells == [])
    ensures SumWhere(cells, mask, dims) == Zeros(dims)
  {
    if cells != [] {
      var last := |cells| - 1;
      NothingSummed(cells[..last], mask[..last], dims);
    }
  }

  method PoolRow(out: array<real>, lo: nat, cells: seq<seq<real>>, mask: seq<nat>, dims: nat, strategy: Pooling)
    requires lo + dims <= out.Length && out[lo..lo + dims] == Zeros(dims)
    requires |cells| == |mask| && Wide(cells, dims) && (strategy.Mean? || cells != [])
    modifies out
    ensures OnlyRow(out, lo, dims)
    ensures out[lo..lo + dims] == PoolSpec(cells, mask, dims, strategy)
  {
    hide SumWhere, CountWhere, LastWhere, Scaled, Zeros;
    match strategy {
      case Mean =>
        var count := SumInto(out, lo, cells, mask, dims);
        if count > 0 {
          ScaleInto(out, lo, dims, 1.0 / count as real);
        } else {
          NothingSummed(cells, mask, dims);
          var ones := Ones(|cells|);
          var all := SumInto(out, lo, cells, ones, dims);
          if |cells| > 0 {
            ScaleInto(out, lo, dims, 1.0 / |cells| as real);
          } else {
            NothingSummed(cells, ones, dims);
          }
        }
      case LastToken =>
        var last: Option<nat> := None;
        NoOnes();
        assert mask[..0] == [];
        for s := 0 to |mask|
          invariant last == LastWhere(mask[..s])
          invariant out[..] == old(out[..])
        {
          LastWhereStep(mask, s);
          if mask[s] != 0 {
            last := Some(s);
          }
        }
        assert mask[..|mask|] == mask;
        LastWhereBound(mask);
        CopyRow(out, lo, cells[if last.Some? then last.value else |cells| - 1]);
      case Cls =>
        CopyRow(out, lo, cells[0]);
    }
  }

  // ---------- What a pool is ----------

  function SumOf(xs: seq<real>): real {
    if xs == [] then 0.0 else SumOf(xs[..|xs| - 1]) + xs[|xs| - 1]
  }

  /** One coordinate of the positions with a one, and zero at the others. */
  function Coordinate(cells: seq<seq<real>>, mask: seq<nat>, dims: nat, d: nat): seq<real>
    requires |cells| == |mask| && Wide(cells, dims) && d < dims
  {
    seq(|cells|, s requires 0 <= s < |cells| => if mask[s] == 0 then 0.0 else cells[s][d])
  }

  ghost function RealPositions(mask: seq<nat>): set<nat> {
    set s: nat | s < |mask| && mask[s] != 0
  }

  /** The mean times the number of real positions is their sum, in every coordinate; without any,
      all positions count. The last-token pool is the cell of the last real position, or of the
      last position if none is real; the first-token pool is the first cell. */
  ghost predicate Pools(cells: seq<seq<real>>, mask: seq<nat>, dims: nat, strategy: Pooling, v: seq<real>)
    requires |cells| == |mask| && Wide(cells, dims)
  {
    && |v| == dims
    && match strategy
       case Mean =>
         var chosen := if RealPositions(mask) != {} then mask else Ones(|cells|);
         forall d | 0 <= d < dims ::
           && |RealPositions(chosen)| as real * v[d] == SumOf(Coordinate(cells, chosen, dims, d))
           && (cells == [] ==> v[d] == 0.0)
       case LastToken =>
         exists s: nat | s < |cells| ::
           && v == cells[s]
           && (forall t | s < t < |mask| :: mask[t] == 0)
           && (mask[s] != 0 || (s == |cells| - 1 && forall t | 0 <= t < |mask| :: mask[t] == 0))
       case Cls => cells != [] && v == cells[0]
  }

  lemma RealSnoc(mask: seq<nat>)
    requires mask != []
    ensures var last := |mask| - 1;
      && RealPositions(mask) == RealPositions(mask[..last]) + (if mask[last] != 0 then {last} else {})
      && last !in RealPositions(mask[..last])
  {
    var last := |mask| - 1;
    assert forall s | 0 <= s < last :: mask[..last][s] == mask[s];
  }

  lemma {:induction false} CountMeaning(mask: seq<nat>)
    ensures CountWhere(mask) == |RealPositions(mask)|
  {
    if mask == [] {
      assert RealPositions(mask) == {};
    } else {
      hide RealPositions;
      CountMeaning(mask[..|mask| - 1]);
      RealSnoc(mask);
    }
  }

  lemma {:induction false} SumMeaning(cells: seq<seq<real>>, mask: seq<nat>, dims: nat, d: nat)
    requires |cells| == |mask| && Wide(cells, dims) && d < dims
    ensures SumWhere(cells, mask, dims)[d] == SumOf(Coordinate(cells, mask, dims, d))
  {
    if cells != [] {
      var last := |cells| - 1;
      SumMeaning(cells[..last], mask[..last], dims, d);
      assert Coordinate(cells, mask, dims, d)[..last] == Coordinate(cells[..last], mask[..last], dims, d);
    }
  }

  lemma MeanTimes(x: real, n: nat)
    requires n > 0
    ensures n as real * Times(x, 1.0 / n as real) == x
  {
    var inverse := 1.0 / n as real;
    assert n as real * inverse == 1.0;
    assert n as real * (x * inverse) == x * (n as real * inverse);
  }

  lemma {:induction false} LastMeaning(mask: seq<nat>)
    ensures match LastWhere(mask)
      case None => forall t | 0 <= t < |mask| :: mask[t] == 0
      case Some(s) => s < |mask| && mask[s] != 0 && forall t | s < t < |mask| :: mask[t] == 0
  {
    if mask != [] {
      LastMeaning(mask[..|mask| - 1]);
    }
  }

  lemma ScaledMean(cells: seq<seq<real>>, mask: seq<nat>, dims: nat)
    requires |cells| == |mask| && Wide(cells, dims) && CountWhere(mask) > 0
    ensures var v := Scaled(SumWhere(cells, mask, dims), 1.0 / CountWhere(mask) as real);
      forall d | 0 <= d < dims :: |RealPositions(mask)| as real * v[d] == SumOf(Coordinate(cells, mask, dims, d))
  {
    hide SumOf, Coordinate, SumWhere, CountWhere;
    CountMeaning(mask);
    forall d | 0 <= d < dims
      ensures |RealPositions(mask)| as real * Scaled(SumWhere(cells, mask, dims), 1.0 / CountWhere(mask) as real)[d]
        == SumOf(Coordinate(cells, mask, dims, d))
    {
      SumMeaning(cells, mask, dims, d);
      MeanTimes(SumWhere(cells, mask, dims)[d], CountWhere(mask));
    }
  }

  lemma NothingToSum(dims: nat)
    ensures RealPositions(Ones(0)) == {} && forall d | 0 <= d < dims :: SumOf(Coordinate([], Ones(0), dims, d)) == 0.0
  {
  }

  lemma {:induction false} OnesCount(n: nat)
    ensures CountWhere(Ones(n)) == n
    ensures n > 0 ==> LastWhere(Ones(n)) == Some(n - 1)
  {
    if n > 0 {
      var ones := Ones(n);
      assert |ones| == n && ones[n - 1] == 1 && ones[..n - 1] == Ones(n - 1);
      OnesCount(n - 1);
    }
  }

  lemma PoolMeaning(cells: seq<seq<real>>, mask: seq<nat>, dims: nat, strategy: Pooling)
    requires |cells| == |mask| && Wide(cells, dims) && (strategy.Mean? || cells != [])
    ensures Pools(cells, mask, dims, strategy, PoolSpec(cells, mask, dims, strategy))
  {
    hide SumWhere, CountWhere, LastWhere, Scaled, SumOf, Coordinate;
    match strategy
    case Mean =>
      var count := CountWhere(mask);
      CountMeaning(mask);
      if count > 0 {
        ScaledMean(cells, mask, dims);
      } else if cells != [] {
        OnesCount(|cells|);
        ScaledMean(cells, Ones(|cells|), dims);
      } else {
        NothingToSum(dims);
      }
    case LastToken =>
      LastMeaning(mask);
      LastWhereBound(mask);
    case Cls =>
  }

  lemma OutputSize(batch: nat, dims: nat)
    ensures 0 <= batch * dims
  {
  }

  lemma RestZero(before: seq<real>, after: seq<real>, lo: nat, dims: nat)
    requires lo + dims <= |before| == |after| && before[lo + dims..] == after[lo + dims..]
    requires forall i | lo <= i < |before| :: before[i] == 0.0
    ensures forall i | lo + dims <= i < |after| :: after[i] == 0.0
  {
    forall i | lo + dims <= i < |after|
      ensures after[i] == 0.0
    {
      assert after[i] == after[lo + dims..][i - lo - dims] == before[lo + dims..][i - lo - dims] == before[i];
    }
  }

  lemma EarlierRow(k: nat, b: nat, dims: nat)
    requires k < b
    ensures 0 <= k * dims <= k * dims + dims <= b * dims
  {
    RowFits(b, dims, k);
  }

  /** Row `b` of the output is the pool of row `b` of the batch. */
  ghost predicate PooledRow(out: seq<real>, hidden: seq<real>, mask: seq<nat>, width: nat, dims: nat, strategy: Pooling, b: nat) {
    && 0 <= b * dims <= b * dims + dims <= |out|
    && 0 <= b * width <= b * width + width <= |mask|
    && (var cells := CellRow(hidden, dims, width, b);
        && Wide(cells, dims) && (strategy.Mean? || cells != [])
        && out[b * dims..b * dims + dims] == PoolSpec(cells, mask[b * width..b * width + width], dims, strategy)
        && Pools(cells, mask[b * width..b * width + width], dims, strategy, out[b * dims..b * dims + dims]))
  }

  lemma SameRow(before: seq<real>, after: seq<real>, hidden: seq<real>, mask: seq<nat>, width: nat, dims: nat,
                strategy: Pooling, k: nat, lo: nat)
    requires PooledRow(before, hidden, mask, width, dims, strategy, k)
    requires 0 <= k * dims <= k * dims + dims <= lo <= |before| == |after| && before[..lo] == after[..lo]
    ensures PooledRow(after, hidden, mask, width, dims, strategy, k)
  {
    assert after[k * dims..k * dims + dims] == after[..lo][k * dims..k * dims + dims];
    assert before[k * dims..k * dims + dims] == before[..lo][k * dims..k * dims + dims];
  }

  lemma CellRowWide(hidden: seq<real>, dims: nat, batch: nat, width: nat, b: nat)
    requires |hidden| == batch * width * dims && b < batch
    ensures Wide(CellRow(hidden, dims, width, b), dims) && |CellRow(hidden, dims, width, b)| == width
  {
    RowFits(batch, width, b);
    forall s | 0 <= s < width
      ensures |CellRow(hidden, dims, width, b)[s]| == dims
    {
      CellFits(hidden, dims, batch * width, b * width + s);
    }
  }

  /** Pools every row of a batch into one flat output. */
  method Pool(hidden: seq<real>, mask: seq<nat>, batch: nat, width: nat, dims: nat, strategy: Pooling) returns (out: array<real>)
    requires |hidden| == batch * width * dims && |mask| == batch * width
    requires strategy.Mean? || width > 0 || batch == 0
    ensures fresh(out) && out.Length == batch * dims
    ensures forall b | 0 <= b < batch :: PooledRow(out[..], hidden, mask, width, dims, strategy, b)
  {
    hide PoolSpec, Pools, Wide, CellRow;
    OutputSize(batch, dims);
    out := new real[batch * dims](_ => 0.0);
    for b := 0 to batch
      invariant forall k | 0 <= k < b :: PooledRow(out[..], hidden, mask, width, dims, strategy, k)
      invariant forall i | b * dims <= i < out.Length :: out[i] == 0.0
    {
      RowFits(batch, dims, b);
      RowFits(batch, width, b);
      var lo := b * dims;
      var cells := CellRow(hidden, dims, width, b);
      CellRowWide(hidden, dims, batch, width, b);
      assert out[lo..lo + dims] == Zeros(dims);
      ghost var before := out[..];
      PoolRow(out, lo, cells, mask[b * width..b * width + width], dims, strategy);
      PoolMeaning(cells, mask[b * width..b * width + width], dims, strategy);
      forall k | 0 <= k < b
        ensures PooledRow(out[..], hidden, mask, width, dims, strategy, k)
      {
        EarlierRow(k, b, dims);
        SameRow(before, out[..], hidden, mask, width, dims, strategy, k, lo);
      }
      assert out[..][lo..lo + dims] == out[lo..lo + dims];
      RestZero(before, out[..], lo, dims);
      assert (b + 1) * dims == lo + dims;
    }
  }

  // ---------- Padding does not show ----------

  lemma {:induction false} ZeroMask(cells: seq<seq<real>>, mask: seq<nat>, dims: nat)
    requires |cells| == |mask| && Wide(cells, dims) && forall s | 0 <= s < |mask| :: mask[s] == 0
    ensures SumWhere(cells, mask, dims) == Zeros(dims) && CountWhere(mask) == 0
  {
    if cells != [] {
      ZeroMask(cells[..|cells| - 1], mask[..|mask| - 1], dims);
    }
  }

  lemma {:induction false} SumPrefix(front: seq<seq<real>>, cells: seq<seq<real>>, frontMask: seq<nat>, mask: seq<nat>, dims: nat)
    requires |front| == |frontMask| && |cells| == |mask| && Wide(front, dims) && Wide(cells, dims)
    requires forall s | 0 <= s < |frontMask| :: frontMask[s] == 0
    ensures SumWhere(front + cells, frontMask + mask, dims) == SumWhere(cells, mask, dims)
    ensures CountWhere(frontMask + mask) == CountWhere(mask)
  {
    if cells == [] {
      assert front + cells == front && frontMask + mask == frontMask;
      ZeroMask(front, frontMask, dims);
    } else {
      var last := |cells| - 1;
      assert (front + cells)[..|front| + last] == front + cells[..last];
      assert (frontMask + mask)[..|front| + last] == frontMask + mask[..last];
      SumPrefix(front, cells[..last], frontMask, mask[..last], dims);
    }
  }

  lemma {:induction false} SumSuffix(cells: seq<seq<real>>, back: seq<seq<real>>, mask: seq<nat>, backMask: seq<nat>, dims: nat)
    requires |back| == |backMask| && |cells| == |mask| && Wide(back, dims) && Wide(cells, dims)
    requires forall s | 0 <= s < |backMask| :: backMask[s] == 0
    ensures SumWhere(cells + back, mask + backMask, dims) == SumWhere(cells, mask, dims)
    ensures CountWhere(mask + backMask) == CountWhere(mask)
    ensures LastWhere(mask + backMask) == LastWhere(mask)
  {
    if back == [] {
      assert cells + back == cells && mask + backMask == mask;
    } else {
      var last := |back| - 1;
      assert (cells + back)[..|cells| + last] == cells + back[..last];
      assert (mask + backMask)[..|cells| + last] == mask + backMask[..last];
      SumSuffix(cells, back[..last], mask, backMask[..last], dims);
    }
  }

  lemma {:induction false} LastAfterFront(before: seq<nat>, mask: seq<nat>)
    requires mask != [] && mask[|mask| - 1] != 0
    ensures LastWhere(before + mask) == Some(|before| + |mask| - 1)
  {
  }

  /** A row with at least one real position pools to what it pools to alone, whatever stands at
      the padded positions; the first-token strategy needs its padding on the right. */
  lemma PaddingInvisible(front: seq<seq<real>>, cells: seq<seq<real>>, back: seq<seq<real>>, dims: nat, strategy: Pooling)
    requires cells != [] && Wide(front, dims) && Wide(cells, dims) && Wide(back, dims)
    requires strategy.Cls? ==> front == []
    ensures var mask := Blanks(|front|) + Ones(|cells|) + Blanks(|back|);
      PoolSpec(front + cells + back, mask, dims, strategy) == PoolSpec(cells, Ones(|cells|), dims, strategy)
  {
    hide SumWhere, CountWhere, LastWhere;
    var ones, before, after := Ones(|cells|), Blanks(|front|), Blanks(|back|);
    OnesCount(|cells|);
    SumPrefix(front, cells, before, ones, dims);
    SumSuffix(front + cells, back, before + ones, after, dims);
    LastAfterFront(before, ones);
  }

  // ---------- Batches ----------

  ghost predicate RealStates(m: Model, states: seq<nat> -> seq<seq<real>>, e: Encoding, width: nat, hidden: seq<real>, b: nat) {
    var ids := RealIds(m, e);
    && |ids| <= width
    && |states(ids)| == |ids|
    && CellRow(hidden, m.dims, width, b)[Offset(m, width, |ids|)..Offset(m, width, |ids|) + |ids|] == states(ids)
  }

  /** The network looks at a row's own real ids only: hidden states at real positions are a
      function `states` of the ids, in whatever batch and at whatever padding. */
  ghost predicate TextOnly(m: Model, states: seq<nat> -> seq<seq<real>>) {
    && (forall ids :: |states(ids)| == |ids| && Wide(states(ids), m.dims))
    && (forall encodings, width, batch | PaddedBatch(m, encodings, width, batch) ::
          && |m.forward(batch)| == |batch| * width * m.dims
          && forall b | 0 <= b < |batch| :: RealStates(m, states, encodings[b], width, m.forward(batch), b))
  }

  /** What a text embeds to when it is embedded alone and without padding. */
  ghost function Alone(m: Model, states: seq<nat> -> seq<seq<real>>, e: Encoding): Embedded
    requires TextOnly(m, states) && RealIds(m, e) != []
  {
    var ids := RealIds(m, e);
    Embedded(m.finish(PoolSpec(states(ids), Ones(|ids|), m.dims, m.pooling)), e.truncated)
  }

  /** Every text has at least one token. */
  ghost predicate HasTokens(m: Model) {
    forall text :: m.tokenize(text).Ok? ==> RealIds(m, m.tokenize(text).value) != []
  }

  /** All texts embedded one by one, or the first error. */
  ghost function EmbedEach(m: Model, states: seq<nat> -> seq<seq<real>>, texts: seq<string>): Result<seq<Embedded>, InferError>
    requires TextOnly(m, states) && HasTokens(m)
  {
    if texts == [] then Ok([])
    else
      match EmbedEach(m, states, texts[..|texts| - 1])
      case Err(e) => Err(e)
      case Ok(earlier) =>
        match m.tokenize(texts[|texts| - 1])
        case Err(e) => Err(e)
        case Ok(encoding) => Ok(earlier + [Alone(m, states, encoding)])
  }

  ghost predicate AllAlone(m: Model, states: seq<nat> -> seq<seq<real>>, encodings: seq<Encoding>, out: seq<Embedded>)
    requires TextOnly(m, states)
  {
    && |out| == |encodings|
    && forall b | 0 <= b < |out| :: RealIds(m, encodings[b]) != [] && out[b] == Alone(m, states, encodings[b])
  }

  lemma {:induction false} EachIsEncodings(m: Model, states: seq<nat> -> seq<seq<real>>, texts: seq<string>)
    requires TextOnly(m, states) && HasTokens(m)
    ensures match Encodings(m, texts)
      case Err(e) => EmbedEach(m, states, texts) == Err(e)
      case Ok(encodings) => EmbedEach(m, states, texts).Ok? && AllAlone(m, states, encodings, EmbedEach(m, states, texts).value)
  {
    hide TextOnly, Alone;
    if texts != [] {
      EachIsEncodings(m, states, texts[..|texts| - 1]);
    }
  }

  lemma {:induction false} EncodingsHaveTokens(m: Model, texts: seq<string>)
    requires HasTokens(m) && Encodings(m, texts).Ok?
    ensures |Encodings(m, texts).value| == |texts|
    ensures forall b | 0 <= b < |texts| :: RealIds(m, Encodings(m, texts).value[b]) != []
  {
    if texts != [] {
      EncodingsHaveTokens(m, texts[..|texts| - 1]);
    }
  }

  function MaskOf(batch: seq<EncodedInput>): seq<nat> {
    if batch == [] then [] else MaskOf(batch[..|batch| - 1]) + batch[|batch| - 1].attentionMask
  }

  lemma {:induction false} MaskRow(batch: seq<EncodedInput>, width: nat, b: nat)
    requires forall i | 0 <= i < |batch| :: |batch[i].attentionMask| == width
    ensures |MaskOf(batch)| == |batch| * width
    ensures b < |batch| ==> 0 <= b * width <= b * width + width <= |MaskOf(batch)|
    ensures b < |batch| ==> MaskOf(batch)[b * width..b * width + width] == batch[b].attentionMask
  {
    if batch != [] {
      var last := |batch| - 1;
      MaskRow(batch[..last], width, b);
      assert (last + 1) * width == last * width + width;
      var before := MaskOf(batch[..last]);
      assert MaskOf(batch) == before + batch[last].attentionMask;
      if b < last {
        RowFits(|batch|, width, b);
        RowFits(last, width, b);
        assert MaskOf(batch)[b * width..b * width + width] == before[b * width..b * width + width];
      } else if b == last {
        assert MaskOf(batch)[last * width..last * width + width] == batch[last].attentionMask;
      }
    }
  }

  /** The pooled row of a padded text is the text's own. */
  lemma RowAlone(m: Model, states: seq<nat> -> seq<seq<real>>, e: Encoding, width: nat, row: EncodedInput,
                 cells: seq<seq<real>>)
    requires PaddedRow(m, e, width, row) && RealIds(m, e) != []
    requires |cells| == width && Wide(cells, m.dims)
    requires |states(RealIds(m, e))| == |RealIds(m, e)| && Wide(states(RealIds(m, e)), m.dims)
    requires var n := |RealIds(m, e)|;
      cells[Offset(m, width, n)..Offset(m, width, n) + n] == states(RealIds(m, e))
    ensures PoolSpec(cells, row.attentionMask, m.dims, m.pooling)
      == PoolSpec(states(RealIds(m, e)), Ones(|RealIds(m, e)|), m.dims, m.pooling)
  {
    hide PoolSpec;
    var n := |RealIds(m, e)|;
    var o := Offset(m, width, n);
    var front, mid, back := cells[..o], cells[o..o + n], cells[o + n..];
    assert cells == front + mid + back;
    assert row.attentionMask == Blanks(|front|) + Ones(|mid|) + Blanks(|back|);
    PaddingInvisible(front, mid, back, m.dims, m.pooling);
    assert mid == states(RealIds(m, e)) && |mid| == n;
    assert PoolSpec(cells, row.attentionMask, m.dims, m.pooling) == PoolSpec(mid, Ones(n), m.dims, m.pooling);
  }

  lemma AllAloneUnique(m: Model, states: seq<nat> -> seq<seq<real>>, encodings: seq<Encoding>,
                       a: seq<Embedded>, b: seq<Embedded>)
    requires TextOnly(m, states) && AllAlone(m, states, encodings, a) && AllAlone(m, states, encodings, b)
    ensures a == b
  {
  }

  lemma SomeWidth(m: Model, encodings: seq<Encoding>, width: nat, batch: seq<EncodedInput>)
    requires PaddedBatch(m, encodings, width, batch) && encodings != [] && RealIds(m, encodings[0]) != []
    ensures width > 0
    ensures forall i | 0 <= i < |batch| :: |batch[i].attentionMask| == width
  {
    assert PaddedRow(m, encodings[0], width, batch[0]);
  }

  lemma ForwardShape(m: Model, states: seq<nat> -> seq<seq<real>>, encodings: seq<Encoding>, width: nat, batch: seq<EncodedInput>)
    requires TextOnly(m, states) && PaddedBatch(m, encodings, width, batch)
    ensures |m.forward(batch)| == |batch| * width * m.dims
    ensures forall b | 0 <= b < |batch| :: RealStates(m, states, encodings[b], width, m.forward(batch), b)
  {
  }

  lemma StatesShape(m: Model, states: seq<nat> -> seq<seq<real>>, ids: seq<nat>)
    requires TextOnly(m, states)
    ensures |states(ids)| == |ids| && Wide(states(ids), m.dims)
  {
  }

  lemma {:induction false} RowIsAlone(m: Model, states: seq<nat> -> seq<seq<real>>, encodings: seq<Encoding>, width: nat,
                                      batch: seq<EncodedInput>, pooled: seq<real>, b: nat)
    requires TextOnly(m, states) && PaddedBatch(m, encodings, width, batch) && b < |batch| && RealIds(m, encodings[b]) != []
    requires PooledRow(pooled, m.forward(batch), MaskOf(batch), width, m.dims, m.pooling, b)
    requires forall i | 0 <= i < |batch| :: |batch[i].attentionMask| == width
    ensures 0 <= b * m.dims <= b * m.dims + m.dims <= |pooled|
    ensures Embedded(m.finish(pooled[b * m.dims..b * m.dims + m.dims]), batch[b].truncated) == Alone(m, states, encodings[b])
  {
    hide TextOnly, PoolSpec, CellRow, Wide;
    var e := encodings[b];
    ForwardShape(m, states, encodings, width, batch);
    StatesShape(m, states, RealIds(m, e));
    MaskRow(batch, width, b);
    CellRowWide(m.forward(batch), m.dims, |batch|, width, b);
    assert PaddedRow(m, e, width, batch[b]);
    assert RealStates(m, states, e, width, m.forward(batch), b);
    RowAlone(m, states, e, width, batch[b], CellRow(m.forward(batch), m.dims, width, b));
  }

  method PoolBatch(m: Model, batch: seq<EncodedInput>, width: nat, ghost encodings: seq<Encoding>, ghost states: seq<nat> -> seq<seq<real>>)
      returns (out: seq<Embedded>)
    requires TextOnly(m, states) && PaddedBatch(m, encodings, width, batch) && encodings != []
    requires forall b | 0 <= b < |encodings| :: RealIds(m, encodings[b]) != []
    ensures AllAlone(m, states, encodings, out)
  {
    hide TextOnly, PooledRow, PaddedRow, PoolSpec, RealIds, RealStates;
    SomeWidth(m, encodings, width, batch);
    var hidden := m.forward(batch);
    ForwardShape(m, states, encodings, width, batch);
    MaskRow(batch, width, 0);
    var pooled := Pool(hidden, MaskOf(batch), |batch|, width, m.dims, m.pooling);
    ghost var rows := pooled[..];
    out := [];
    for b := 0 to |batch|
      invariant |out| == b && pooled[..] == rows
      invariant forall k | 0 <= k < b :: out[k] == Alone(m, states, encodings[k])
    {
      RowIsAlone(m, states, encodings, width, batch, rows, b);
      assert pooled[b * m.dims..b * m.dims + m.dims] == rows[b * m.dims..b * m.dims + m.dims];
      out := out + [Embedded(m.finish(pooled[b * m.dims..b * m.dims + m.dims]), batch[b].truncated)];
    }
  }

  lemma NoTexts(m: Model, states: seq<nat> -> seq<seq<real>>)
    requires TextOnly(m, states) && HasTokens(m)
    ensures EmbedEach(m, states, []) == Ok([])
  {
  }

  /** One batch: encode and pad, run the network, pool, convert. */
  method EmbedBatch(m: Model, texts: seq<string>, ghost states: seq<nat> -> seq<seq<real>>) returns (r: Result<seq<Embedded>, InferError>)
    requires TextOnly(m, states) && HasTokens(m)
    ensures r == EmbedEach(m, states, texts)
  {
    hide TextOnly, HasTokens, Encodings, EmbedEach, PooledRow, PaddedBatch, PoolSpec, AllAlone;
    EachIsEncodings(m, states, texts);
    if texts == [] {
      NoTexts(m, states);
      return Ok([]);
    }
    var encoded, width := EncodeBatchPadded(m, texts);
    if encoded.Err? {
      return Err(encoded.error);
    }
    EncodingsHaveTokens(m, texts);
    var out := PoolBatch(m, encoded.value, width, Encodings(m, texts).value, states);
    AllAloneUnique(m, states, Encodings(m, texts).value, out, EmbedEach(m, states, texts).value);
    return Ok(out);
  }

  lemma Associates<T>(a: seq<T>, b: seq<T>, x: T)
    ensures a + b + [x] == a + (b + [x])
  {
  }

  lemma EachSnoc(m: Model, states: seq<nat> -> seq<seq<real>>, texts: seq<string>, text: string)
    requires TextOnly(m, states) && HasTokens(m)
    ensures var earlier, all := EmbedEach(m, states, texts), EmbedEach(m, states, texts + [text]);
      && (earlier.Err? ==> all == earlier)
      && (earlier.Ok? && m.tokenize(text).Err? ==> all == Err(m.tokenize(text).error))
      && (earlier.Ok? && m.tokenize(text).Ok? ==> RealIds(m, m.tokenize(text).value) != [])
      && (earlier.Ok? && m.tokenize(text).Ok? ==> all == Ok(earlier.value + [Alone(m, states, m.tokenize(text).value)]))
  {
    hide TextOnly, Alone;
    assert (texts + [text])[..|texts|] == texts;
  }

  lemma {:induction false} EachConcat(m: Model, states: seq<nat> -> seq<seq<real>>, a: seq<string>, b: seq<string>)
    requires TextOnly(m, states) && HasTokens(m)
    ensures EmbedEach(m, states, a).Err? ==> EmbedEach(m, states, a + b) == EmbedEach(m, states, a)
    ensures EmbedEach(m, states, a).Ok? && EmbedEach(m, states, b).Err? ==> EmbedEach(m, states, a + b) == EmbedEach(m, states, b)
    ensures EmbedEach(m, states, a).Ok? && EmbedEach(m, states, b).Ok? ==>
      EmbedEach(m, states, a + b) == Ok(EmbedEach(m, states, a).value + EmbedEach(m, states, b).value)
  {
    hide TextOnly, HasTokens, EmbedEach;
    if b == [] {
      NoTexts(m, states);
      assert a + b == a;
      var first := EmbedEach(m, states, a);
      assert first.Ok? ==> first.value + [] == first.value;
    } else {
      var last := |b| - 1;
      EachConcat(m, states, a, b[..last]);
      EachSnoc(m, states, b[..last], b[last]);
      EachSnoc(m, states, a + b[..last], b[last]);
      assert b[..last] + [b[last]] == b && a + b[..last] + [b[last]] == a + b;
      var first, most := EmbedEach(m, states, a), EmbedEach(m, states, b[..last]);
      if first.Ok? && most.Ok? && m.tokenize(b[last]).Ok? {
        Associates(first.value, most.value, Alone(m, states, m.tokenize(b[last]).value));
      }
    }
  }

  /** Whatever the batch limit, the result is what embedding every text alone would give. */
  method EmbedWithBatchLimit(m: Model, texts: seq<string>, maxBatch: nat, ghost states: seq<nat> -> seq<seq<real>>)
      returns (r: Result<seq<Embedded>, InferError>)
    requires maxBatch > 0 && TextOnly(m, states) && HasTokens(m)
    ensures r == EmbedEach(m, states, texts)
  {
    hide TextOnly, HasTokens, EmbedEach;
    var out: seq<Embedded> := [];
    var i := 0;
    NoTexts(m, states);
    assert texts[..0] == [];
    while i < |texts|
      invariant i <= |texts| && EmbedEach(m, states, texts[..i]) == Ok(out)
    {
      var next := if i + maxBatch <= |texts| then i + maxBatch else |texts|;
      assert texts[..next] == texts[..i] + texts[i..next];
      EachConcat(m, states, texts[..i], texts[i..next]);
      var embedded := EmbedBatch(m, texts[i..next], states);
      if embedded.Err? {
        assert texts == texts[..next] + texts[next..];
        EachConcat(m, states, texts[..next], texts[next..]);
        return embedded;
      }
      out := out + embedded.value;
      i := next;
    }
    assert texts[..|texts|] == texts;
    return Ok(out);
  }
}
