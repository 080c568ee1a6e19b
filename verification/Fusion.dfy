// Reciprocal rank fusion of a lexical and a dense ranking.

module Fusion {
  import opened Wrappers
  import opened Records
  import opened Ranking

  datatype FusionConfig = FusionConfig(lexicalDepth: nat, denseDepth: nat, rrfK: real)

  const DEFAULT_CONFIG := FusionConfig(50, 50, 60.0)

  /** One retriever's contribution: its 1-based rank and its score, or nothing. */
  datatype Contribution = Contribution(rank: Option<nat>, score: Option<real>)

  datatype FusedRow = FusedRow(row: RowId, lexical: Contribution, dense: Contribution, fusedScore: real)

  const NOTHING := Contribution(None, None)

  function FusedKey(f: FusedRow): Scored {
    Scored(f.row, f.fusedScore)
  }

  function Divisor(config: FusionConfig, rank: nat): real {
    config.rrfK + rank as real
  }

  /** No rank is worth an infinite share. */
  ghost predicate Sane(config: FusionConfig) {
    forall rank: nat | rank >= 1 :: Divisor(config, rank) != 0.0
  }

  /** Every rank is worth a positive share. */
  predicate Positive(config: FusionConfig) {
    config.rrfK > -1.0
  }

  function Share(config: FusionConfig, rank: nat): real
    requires Sane(config) && rank >= 1
  {
    1.0 / Divisor(config, rank)
  }

  ghost predicate DistinctRows(s: seq<Scored>) {
    forall i, j | 0 <= i < j < |s| :: s[i].row != s[j].row
  }

  /** 1-based position of the last occurrence of a row in a list; 0 when it is absent. */
  function RankOf(s: seq<Scored>, row: RowId): nat {
    if s == [] then 0
    else if s[|s| - 1].row == row then |s|
    else RankOf(s[..|s| - 1], row)
  }

  lemma {:induction false} RankOfMeaning(s: seq<Scored>, row: RowId)
    ensures RankOf(s, row) <= |s|
    ensures RankOf(s, row) > 0 ==> s[RankOf(s, row) - 1].row == row
    ensures RankOf(s, row) == 0 ==> forall i | 0 <= i < |s| :: s[i].row != row
  {
    if s != [] {
      RankOfMeaning(s[..|s| - 1], row);
    }
  }

  function ContributionOf(s: seq<Scored>, row: RowId): Contribution {
    var rank := RankOf(s, row);
    RankOfMeaning(s, row);
    if rank == 0 then NOTHING else Contribution(Some(rank), Some(s[rank - 1].score))
  }

  /** The shares of all occurrences of a row in a list. */
  function ShareOf(config: FusionConfig, s: seq<Scored>, row: RowId): real
    requires Sane(config)
  {
    if s == [] then 0.0
    else
      var last := |s| - 1;
      ShareOf(config, s[..last], row) + (if s[last].row == row then Share(config, |s|) else 0.0)
  }

  lemma {:induction false} ShareOfAbsent(config: FusionConfig, s: seq<Scored>, row: RowId)
    requires Sane(config) && RankOf(s, row) == 0
    ensures ShareOf(config, s, row) == 0.0
  {
    if s != [] {
      ShareOfAbsent(config, s[..|s| - 1], row);
    }
  }

  /** In a list without repeated rows a row has the share of its one rank. */
  lemma {:induction false} ShareOfDistinct(config: FusionConfig, s: seq<Scored>, row: RowId)
    requires Sane(config) && DistinctRows(s)
    ensures ShareOf(config, s, row) == if RankOf(s, row) == 0 then 0.0 else Share(config, RankOf(s, row))
  {
    if s != [] {
      var last := |s| - 1;
      RankOfMeaning(s[..last], row);
      if s[last].row == row {
        ShareOfAbsent(config, s[..last], row);
      } else {
        ShareOfDistinct(config, s[..last], row);
      }
    }
  }

  /** What fusion says about one row of two lists. */
  function FusedAt(config: FusionConfig, lexical: seq<Scored>, dense: seq<Scored>, row: RowId): FusedRow
    requires Sane(config)
  {
    FusedRow(row, ContributionOf(lexical, row), ContributionOf(dense, row),
      ShareOf(config, lexical, row) + ShareOf(config, dense, row))
  }

  /** What a list adds to the fused score of a row: one over the constant plus its 1-based position,
      or nothing if the list leaves it out. */
  ghost predicate Adds(config: FusionConfig, s: seq<Scored>, row: RowId, part: real)
    requires Sane(config)
  {
    if forall c | c in s :: c.row != row then part == 0.0
    else exists i: nat :: i < |s| && s[i].row == row && config.rrfK + (i + 1) as real != 0.0 && part == 1.0 / (config.rrfK + (i + 1) as real)
  }

  /** The fused score that two lists give a row. */
  ghost predicate ReciprocalRanks(config: FusionConfig, lexical: seq<Scored>, dense: seq<Scored>, row: RowId, score: real)
    requires Sane(config)
  {
    exists l, d :: Adds(config, lexical, row, l) && Adds(config, dense, row, d) && score == l + d
  }

  lemma ShareAdds(config: FusionConfig, s: seq<Scored>, row: RowId)
    requires Sane(config) && DistinctRows(s)
    ensures Adds(config, s, row, ShareOf(config, s, row))
  {
    ShareOfDistinct(config, s, row);
    RankOfMeaning(s, row);
    var rank := RankOf(s, row);
    if rank > 0 {
      assert s[rank - 1] in s && Divisor(config, rank) != 0.0;
    }
  }

  lemma AddsOnce(config: FusionConfig, s: seq<Scored>, row: RowId, part: real)
    requires Sane(config) && DistinctRows(s) && Adds(config, s, row, part)
    ensures part == ShareOf(config, s, row)
  {
    ShareAdds(config, s, row);
  }

  /** The fused score is the sum of the two reciprocal ranks, and nothing else is. */
  lemma FusedScore(config: FusionConfig, lexical: seq<Scored>, dense: seq<Scored>, row: RowId, score: real)
    requires Sane(config) && DistinctRows(lexical) && DistinctRows(dense)
    ensures ReciprocalRanks(config, lexical, dense, row, score) <==> score == FusedAt(config, lexical, dense, row).fusedScore
  {
    hide Adds, ShareOf;
    ShareAdds(config, lexical, row);
    ShareAdds(config, dense, row);
    if ReciprocalRanks(config, lexical, dense, row, score) {
      var l, d :| Adds(config, lexical, row, l) && Adds(config, dense, row, d) && score == l + d;
      AddsOnce(config, lexical, row, l);
      AddsOnce(config, dense, row, d);
    }
  }

  ghost function RowsOf(s: seq<Scored>): set<RowId> {
    set c | c in s :: c.row
  }

  /** The table of fused rows after both loops. */
  ghost predicate FusedTable(config: FusionConfig, lexical: seq<Scored>, dense: seq<Scored>, byRow: map<RowId, FusedRow>)
    requires Sane(config)
  {
    && (forall r :: r in byRow <==> RankOf(lexical, r) > 0 || RankOf(dense, r) > 0)
    && (forall r | r in byRow :: byRow[r] == FusedAt(config, lexical, dense, r))
  }

  lemma RankSnoc(s: seq<Scored>, x: Scored, row: RowId)
    ensures RankOf(s + [x], row) == if x.row == row then |s| + 1 else RankOf(s, row)
  {
    assert (s + [x])[..|s|] == s;
  }

  lemma ContributionSnoc(s: seq<Scored>, x: Scored, row: RowId)
    ensures ContributionOf(s + [x], row) == if x.row == row then Contribution(Some(|s| + 1), Some(x.score)) else ContributionOf(s, row)
  {
    RankSnoc(s, x, row);
    RankOfMeaning(s, row);
  }

  lemma ShareSnoc(config: FusionConfig, s: seq<Scored>, x: Scored, row: RowId)
    requires Sane(config)
    ensures ShareOf(config, s + [x], row) == ShareOf(config, s, row) + if x.row == row then Share(config, |s| + 1) else 0.0
  {
    assert (s + [x])[..|s|] == s;
  }

  function EntryOr(byRow: map<RowId, FusedRow>, row: RowId): FusedRow {
    if row in byRow then byRow[row] else FusedRow(row, NOTHING, NOTHING, 0.0)
  }

  lemma LexicalStep(config: FusionConfig, lexical: seq<Scored>, x: Scored, byRow: map<RowId, FusedRow>)
    requires Sane(config) && FusedTable(config, lexical, [], byRow)
    ensures var rank := |lexical| + 1;
      var e := EntryOr(byRow, x.row);
      FusedTable(config, lexical + [x], [],
        byRow[x.row := e.(lexical := Contribution(Some(rank), Some(x.score)), fusedScore := e.fusedScore + Share(config, rank))])
  {
    if x.row !in byRow {
      ShareOfAbsent(config, lexical, x.row);
    }
    forall r: RowId
      ensures RankOf(lexical + [x], r) == if x.row == r then |lexical| + 1 else RankOf(lexical, r)
      ensures ContributionOf(lexical + [x], r)
        == if x.row == r then Contribution(Some(|lexical| + 1), Some(x.score)) else ContributionOf(lexical, r)
      ensures ShareOf(config, lexical + [x], r)
        == ShareOf(config, lexical, r) + if x.row == r then Share(config, |lexical| + 1) else 0.0
    {
      RankSnoc(lexical, x, r);
      ContributionSnoc(lexical, x, r);
      ShareSnoc(config, lexical, x, r);
    }
  }

  lemma DenseStep(config: FusionConfig, lexical: seq<Scored>, dense: seq<Scored>, x: Scored, byRow: map<RowId, FusedRow>)
    requires Sane(config) && FusedTable(config, lexical, dense, byRow)
    ensures var rank := |dense| + 1;
      var e := EntryOr(byRow, x.row);
      FusedTable(config, lexical, dense + [x],
        byRow[x.row := e.(dense := Contribution(Some(rank), Some(x.score)), fusedScore := e.fusedScore + Share(config, rank))])
  {
    if x.row !in byRow {
      ShareOfAbsent(config, lexical, x.row);
      ShareOfAbsent(config, dense, x.row);
    }
    forall r: RowId
      ensures RankOf(dense + [x], r) == if x.row == r then |dense| + 1 else RankOf(dense, r)
      ensures ContributionOf(dense + [x], r)
        == if x.row == r then Contribution(Some(|dense| + 1), Some(x.score)) else ContributionOf(dense, r)
      ensures ShareOf(config, dense + [x], r)
        == ShareOf(config, dense, r) + if x.row == r then Share(config, |dense| + 1) else 0.0
    {
      RankSnoc(dense, x, r);
      ContributionSnoc(dense, x, r);
      ShareSnoc(config, dense, x, r);
    }
  }

  /** `fused` holds exactly one entry for each row of either list, in rank order. */
  ghost predicate IsFusion(config: FusionConfig, lexical: seq<Scored>, dense: seq<Scored>, fused: seq<FusedRow>)
    requires Sane(config)
  {
    && Ranked(fused, FusedKey)
    && (forall i | 0 <= i < |fused| :: fused[i] == FusedAt(config, lexical, dense, fused[i].row))
    && (forall i, j | 0 <= i < j < |fused| :: fused[i].row != fused[j].row)
    && (forall i | 0 <= i < |fused| :: RankOf(lexical, fused[i].row) > 0 || RankOf(dense, fused[i].row) > 0)
    && (forall r | RankOf(lexical, r) > 0 || RankOf(dense, r) > 0 :: exists i :: 0 <= i < |fused| && fused[i].row == r)
  }

  lemma EmptyTable(config: FusionConfig)
    requires Sane(config)
    ensures FusedTable(config, [], [], map[])
  {
  }

  lemma TableKeys(config: FusionConfig, lexical: seq<Scored>, dense: seq<Scored>, byRow: map<RowId, FusedRow>)
    requires Sane(config) && FusedTable(config, lexical, dense, byRow)
    ensures forall r | r in byRow :: byRow[r].row == r
  {
  }

  ghost predicate Lists(byRow: map<RowId, FusedRow>, values: seq<FusedRow>) {
    && (forall i | 0 <= i < |values| :: values[i].row in byRow && values[i] == byRow[values[i].row])
    && (forall i, j | 0 <= i < j < |values| :: values[i].row != values[j].row)
    && (forall r | r in byRow :: exists i :: 0 <= i < |values| && values[i].row == r)
  }

  /** The values of a hash map, in whatever order it yields them. */
  method Values(byRow: map<RowId, FusedRow>) returns (values: seq<FusedRow>)
    requires forall r | r in byRow :: byRow[r].row == r
    ensures Lists(byRow, values)
  {
    values := [];
    var left := byRow.Keys;
    while left != {}
      invariant left <= byRow.Keys
      invariant forall i | 0 <= i < |values| :: values[i].row in byRow && values[i].row !in left && values[i] == byRow[values[i].row]
      invariant forall i, j | 0 <= i < j < |values| :: values[i].row != values[j].row
      invariant forall r | r in byRow && r !in left :: exists i :: 0 <= i < |values| && values[i].row == r
      decreases left
    {
      var r :| r in left;
      left := left - {r};
      ghost var before := values;
      values := values + [byRow[r]];
      forall q | q in byRow && q !in left
        ensures exists i :: 0 <= i < |values| && values[i].row == q
      {
        if q == r {
          assert values[|before|].row == q;
        } else {
          var i :| 0 <= i < |before| && before[i].row == q;
          assert values[i].row == q;
        }
      }
    }
  }

  lemma RankIsFusion(config: FusionConfig, lexical: seq<Scored>, dense: seq<Scored>,
                     byRow: map<RowId, FusedRow>, values: seq<FusedRow>)
    requires Sane(config) && FusedTable(config, lexical, dense, byRow) && Lists(byRow, values)
    ensures IsFusion(config, lexical, dense, Rank(values, FusedKey))
  {
    var fused := Rank(values, FusedKey);
    RankMeaning(values, FusedKey);
    RankDistinct(values, FusedKey);
    forall i | 0 <= i < |fused|
      ensures fused[i].row in byRow && fused[i] == byRow[fused[i].row]
    {
      assert fused[i] in values;
    }
    forall r | r in byRow
      ensures exists i :: 0 <= i < |fused| && fused[i].row == r
    {
      var i :| 0 <= i < |values| && values[i].row == r;
      assert values[i] in fused;
    }
    forall i, j | 0 <= i < j < |fused|
      ensures fused[i].row != fused[j].row
    {
      assert fused[i] != fused[j] && fused[i] in values && fused[j] in values;
    }
  }

  method Fuse(lexicalList: seq<Scored>, denseList: seq<Scored>, config: FusionConfig) returns (fused: seq<FusedRow>)
    requires Sane(config)
    ensures IsFusion(config, Take(lexicalList, config.lexicalDepth), Take(denseList, config.denseDepth), fused)
  {
    hide FusedTable, IsFusion, RankOf, ShareOf, Sane, Ranked, Rank, Lists;
    var lexical := Take(lexicalList, config.lexicalDepth);
    var dense := Take(denseList, config.denseDepth);
    EmptyTable(config);
    var byRow: map<RowId, FusedRow> := map[];
    assert lexical[..0] == [] && dense[..0] == [];
    for index := 0 to |lexical|
      invariant FusedTable(config, lexical[..index], [], byRow)
    {
      var scored := lexical[index];
      var rank := index + 1;
      LexicalStep(config, lexical[..index], scored, byRow);
      assert lexical[..index + 1] == lexical[..index] + [scored];
      var entry := EntryOr(byRow, scored.row);
      byRow := byRow[scored.row := entry.(lexical := Contribution(Some(rank), Some(scored.score)),
                                          fusedScore := entry.fusedScore + Share(config, rank))];
    }
    assert lexical[..|lexical|] == lexical;
    for index := 0 to |dense|
      invariant FusedTable(config, lexical, dense[..index], byRow)
    {
      var scored := dense[index];
      var rank := index + 1;
      DenseStep(config, lexical, dense[..index], scored, byRow);
      assert dense[..index + 1] == dense[..index] + [scored];
      var entry := EntryOr(byRow, scored.row);
      byRow := byRow[scored.row := entry.(dense := Contribution(Some(rank), Some(scored.score)),
                                          fusedScore := entry.fusedScore + Share(config, rank))];
    }
    assert dense[..|dense|] == dense;
    TableKeys(config, lexical, dense, byRow);
    var values := Values(byRow);
    fused := Rank(values, FusedKey);
    RankIsFusion(config, lexical, dense, byRow, values);
  }

  // ---------- Fusion is a function of its two lists ----------

  lemma FusionElement(config: FusionConfig, lexical: seq<Scored>, dense: seq<Scored>, fused: seq<FusedRow>, x: FusedRow)
    requires Sane(config) && IsFusion(config, lexical, dense, fused)
    ensures x in fused <==>
      (RankOf(lexical, x.row) > 0 || RankOf(dense, x.row) > 0) && x == FusedAt(config, lexical, dense, x.row)
  {
  }

  /** The order in which the hash map yields its rows does not show: there is one fused list. */
  lemma FusionUnique(config: FusionConfig, lexical: seq<Scored>, dense: seq<Scored>,
                     a: seq<FusedRow>, b: seq<FusedRow>)
    requires Sane(config) && IsFusion(config, lexical, dense, a) && IsFusion(config, lexical, dense, b)
    ensures a == b
  {
    forall x
      ensures x in a <==> x in b
    {
      FusionElement(config, lexical, dense, a, x);
      FusionElement(config, lexical, dense, b, x);
    }
    SameElements(a, b);
    RankedUnique(a, b, FusedKey);
  }

  // ---------- Agreement between the retrievers ----------

  lemma Reciprocals(x: real, y: real)
    requires 0.0 < x <= y
    ensures 0.0 < 1.0 / y <= 1.0 / x
  {
    assert (1.0 / x) * x == 1.0 && (1.0 / y) * y == 1.0;
  }

  lemma ShareDecreasing(config: FusionConfig, a: nat, b: nat)
    requires Positive(config) && 1 <= a <= b
    ensures 0.0 < Share(config, b) <= Share(config, a)
  {
    var x, y := Divisor(config, a), Divisor(config, b);
    assert 0.0 < x <= y;
    Reciprocals(x, y);
  }

  /** Even the worst pair of ranks within the depths outweighs a single first place. */
  predicate DepthsSafe(config: FusionConfig)
    requires Sane(config)
  {
    || config.lexicalDepth == 0
    || config.denseDepth == 0
    || Share(config, config.lexicalDepth) + Share(config, config.denseDepth) > Share(config, 1)
  }

  /** Every row found by both retrievers stands before every row found by one. */
  ghost predicate AgreementWins(lexical: seq<Scored>, dense: seq<Scored>, fused: seq<FusedRow>) {
    forall i, j | 0 <= i < |fused| && 0 <= j < |fused|
      && RankOf(lexical, fused[i].row) > 0 && RankOf(dense, fused[i].row) > 0
      && (RankOf(lexical, fused[j].row) == 0 || RankOf(dense, fused[j].row) == 0) :: i < j
  }

  ghost predicate AgreementAlwaysWins(config: FusionConfig)
    requires Sane(config)
  {
    forall lexical: seq<Scored>, dense: seq<Scored>, fused: seq<FusedRow> |
      |lexical| <= config.lexicalDepth && |dense| <= config.denseDepth && DistinctRows(lexical) && DistinctRows(dense)
      && IsFusion(config, lexical, dense, fused) :: AgreementWins(lexical, dense, fused)
  }

  lemma Scale(a: real, x: real, y: real)
    requires a > 0.0 && x > y
    ensures a * x > a * y
  {
  }

  lemma PositiveInverse(a: real, x: real)
    requires x > 0.0 && a * x == 1.0
    ensures a > 0.0
  {
  }

  lemma Cancel(a: real, b: real, x: real)
    requires x > 0.0 && a * x > b * x
    ensures a > b
  {
  }

  lemma Doubled(a: real, x: real)
    ensures (2.0 * a) * x == a * (2.0 * x)
  {
  }

  /** The inverse of less than twice a number is more than half its inverse. */
  lemma HalfInverse(x: real, y: real, a: real, b: real)
    requires 0.0 < y < 2.0 * x && a * y == 1.0 && b * x == 1.0
    ensures 2.0 * a > b
  {
    PositiveInverse(a, y);
    Scale(a, 2.0 * x, y);
    Doubled(a, x);
    Cancel(2.0 * a, b, x);
  }

  lemma HalfShare(config: FusionConfig, depth: nat)
    requires Positive(config) && depth >= 1 && depth as real < config.rrfK + 2.0
    ensures Share(config, depth) > Share(config, 1) / 2.0
  {
    var x, y := Divisor(config, 1), Divisor(config, depth);
    HalfInverse(x, y, 1.0 / y, 1.0 / x);
  }

  /** Depths below `k + 2` are safe; the defaults are (50 and 50, with k = 60). */
  lemma SmallDepthsSafe(config: FusionConfig)
    requires Positive(config)
    requires config.lexicalDepth as real < config.rrfK + 2.0 && config.denseDepth as real < config.rrfK + 2.0
    ensures DepthsSafe(config)
  {
    if config.lexicalDepth > 0 && config.denseDepth > 0 {
      HalfShare(config, config.lexicalDepth);
      HalfShare(config, config.denseDepth);
    }
  }

  lemma DefaultsSafe()
    ensures Positive(DEFAULT_CONFIG) && DepthsSafe(DEFAULT_CONFIG)
  {
    SmallDepthsSafe(DEFAULT_CONFIG);
  }

  lemma BothOutscoresOne(config: FusionConfig, lexical: seq<Scored>, dense: seq<Scored>, both: RowId, one: RowId)
    requires Positive(config) && DepthsSafe(config)
    requires DistinctRows(lexical) && DistinctRows(dense)
    requires |lexical| <= config.lexicalDepth && |dense| <= config.denseDepth
    requires RankOf(lexical, both) > 0 && RankOf(dense, both) > 0
    requires RankOf(lexical, one) == 0 || RankOf(dense, one) == 0
    ensures FusedAt(config, lexical, dense, both).fusedScore > FusedAt(config, lexical, dense, one).fusedScore
  {
    ShareOfDistinct(config, lexical, both);
    ShareOfDistinct(config, dense, both);
    ShareOfDistinct(config, lexical, one);
    ShareOfDistinct(config, dense, one);
    RankOfMeaning(lexical, both);
    RankOfMeaning(dense, both);
    ShareDecreasing(config, RankOf(lexical, both), config.lexicalDepth);
    ShareDecreasing(config, RankOf(dense, both), config.denseDepth);
    ShareDecreasing(config, 1, 1);
    if RankOf(lexical, one) > 0 {
      ShareDecreasing(config, 1, RankOf(lexical, one));
    }
    if RankOf(dense, one) > 0 {
      ShareDecreasing(config, 1, RankOf(dense, one));
    }
  }

  lemma SafeDepthsSuffice(config: FusionConfig, lexical: seq<Scored>, dense: seq<Scored>, fused: seq<FusedRow>)
    requires Positive(config) && DepthsSafe(config)
    requires DistinctRows(lexical) && DistinctRows(dense)
    requires |lexical| <= config.lexicalDepth && |dense| <= config.denseDepth
    requires IsFusion(config, lexical, dense, fused)
    ensures AgreementWins(lexical, dense, fused)
  {
    forall i, j | 0 <= i < |fused| && 0 <= j < |fused|
      && RankOf(lexical, fused[i].row) > 0 && RankOf(dense, fused[i].row) > 0
      && (RankOf(lexical, fused[j].row) == 0 || RankOf(dense, fused[j].row) == 0)
      ensures i < j
    {
      BothOutscoresOne(config, lexical, dense, fused[i].row, fused[j].row);
      assert Before(FusedKey(fused[i]), FusedKey(fused[j]));
    }
  }

  /** Rows first, first + 1, ..., ending with `last`: a list of length `n`. */
  function Staircase(first: RowId, last: RowId, n: nat): seq<Scored> {
    seq(n, i requires 0 <= i < n => Scored(if i == n - 1 then last else first + i, 0.0))
  }

  lemma StaircaseRank(first: RowId, last: RowId, n: nat, row: RowId)
    requires n >= 2 && (last < first || first + n <= last)
    ensures DistinctRows(Staircase(first, last, n))
    ensures RankOf(Staircase(first, last, n), last) == n
    ensures RankOf(Staircase(first, last, n), first) == 1
    ensures row != last && row < first ==> RankOf(Staircase(first, last, n), row) == 0
  {
    var s := Staircase(first, last, n);
    RankOfMeaning(s, first);
    RankOfMeaning(s, row);
    assert s[0].row == first;
  }

  lemma RowsRanked(s: seq<Scored>, r: RowId)
    ensures r in RowsOf(s) <==> RankOf(s, r) > 0
  {
    RankOfMeaning(s, r);
    if RankOf(s, r) > 0 {
      assert s[RankOf(s, r) - 1] in s;
    }
  }

  lemma {:induction false} Enumerate(byRow: map<RowId, FusedRow>, rows: set<RowId>) returns (values: seq<FusedRow>)
    requires rows <= byRow.Keys && forall r | r in byRow :: byRow[r].row == r
    ensures forall i | 0 <= i < |values| :: values[i].row in rows && values[i] == byRow[values[i].row]
    ensures forall i, j | 0 <= i < j < |values| :: values[i].row != values[j].row
    ensures forall r | r in rows :: exists i :: 0 <= i < |values| && values[i].row == r
    decreases rows
  {
    if rows == {} {
      values := [];
    } else {
      var r :| r in rows;
      var rest := Enumerate(byRow, rows - {r});
      values := rest + [byRow[r]];
      forall q | q in rows
        ensures exists i :: 0 <= i < |values| && values[i].row == q
      {
        if q == r {
          assert values[|rest|].row == q;
        } else {
          assert q in rows - {r};
          var i :| 0 <= i < |rest| && rest[i].row == q;
          assert values[i].row == q;
        }
      }
    }
  }

  lemma SomeFusion(config: FusionConfig, lexical: seq<Scored>, dense: seq<Scored>) returns (fused: seq<FusedRow>)
    requires Sane(config)
    ensures IsFusion(config, lexical, dense, fused)
  {
    var rows := RowsOf(lexical) + RowsOf(dense);
    forall r: RowId
      ensures r in rows <==> RankOf(lexical, r) > 0 || RankOf(dense, r) > 0
    {
      RowsRanked(lexical, r);
      RowsRanked(dense, r);
    }
    var byRow := map r | r in rows :: FusedAt(config, lexical, dense, r);
    var values := Enumerate(byRow, rows);
    RankIsFusion(config, lexical, dense, byRow, values);
    fused := Rank(values, FusedKey);
  }

  /** With unsafe depths, two lists whose common row stands last in both are a counterexample. */
  lemma UnsafeDepthsFail(config: FusionConfig)
      returns (lexical: seq<Scored>, dense: seq<Scored>, fused: seq<FusedRow>)
    requires Positive(config) && !DepthsSafe(config)
    ensures |lexical| == config.lexicalDepth && |dense| == config.denseDepth && DistinctRows(lexical) && DistinctRows(dense)
    ensures IsFusion(config, lexical, dense, fused) && !AgreementWins(lexical, dense, fused)
  {
    var m, n := config.lexicalDepth, config.denseDepth;
    ShareDecreasing(config, 1, m);
    ShareDecreasing(config, 1, n);
    var common := m + n;
    lexical, dense := Staircase(0, common, m), Staircase(m, common, n);
    StaircaseRank(0, common, m, 0);
    StaircaseRank(m, common, n, 0);
    ShareOfDistinct(config, lexical, common);
    ShareOfDistinct(config, dense, common);
    ShareOfDistinct(config, lexical, 0);
    ShareOfDistinct(config, dense, 0);
    fused := SomeFusion(config, lexical, dense);
    var i :| 0 <= i < |fused| && fused[i].row == common;
    var j :| 0 <= j < |fused| && fused[j].row == 0;
    assert Before(FusedKey(fused[j]), FusedKey(fused[i]));
    assert j < i;
  }

  lemma FusionExists(config: FusionConfig, lexical: seq<Scored>, dense: seq<Scored>)
    requires Sane(config)
    ensures exists fused :: IsFusion(config, lexical, dense, fused)
  {
    var fused := SomeFusion(config, lexical, dense);
  }

  /** A row found by both retrievers always outranks a row found by one, for every pair of lists,
      if and only if the configured depths are safe. */
  lemma AgreementIff(config: FusionConfig)
    requires Positive(config)
    ensures AgreementAlwaysWins(config) <==> DepthsSafe(config)
  {
    if DepthsSafe(config) {
      forall lexical: seq<Scored>, dense: seq<Scored>, fused: seq<FusedRow> |
        |lexical| <= config.lexicalDepth && |dense| <= config.denseDepth && DistinctRows(lexical) && DistinctRows(dense)
        && IsFusion(config, lexical, dense, fused)
        ensures AgreementWins(lexical, dense, fused)
      {
        SafeDepthsSuffice(config, lexical, dense, fused);
      }
    } else {
      var lexical, dense, fused := UnsafeDepthsFail(config);
    }
  }

  /** At depths of rrf_k + 2 agreement no longer wins: two last places are worth one first place. */
  lemma DeepListsUnsafe()
    ensures var config := FusionConfig(62, 62, 60.0);
      Positive(config) && !DepthsSafe(config) && !AgreementAlwaysWins(config)
  {
    var config := FusionConfig(62, 62, 60.0);
    assert Share(config, 62) + Share(config, 62) == Share(config, 1);
    AgreementIff(config);
  }

  // ---------- Relabelling rows ----------

  ghost predicate StrictOn(f: RowId -> RowId, rows: set<RowId>) {
    forall a, b | a in rows && b in rows :: a < b <==> f(a) < f(b)
  }

  function Relabel(f: RowId -> RowId, s: seq<Scored>): seq<Scored> {
    seq(|s|, i requires 0 <= i < |s| => Scored(f(s[i].row), s[i].score))
  }

  function RelabelFused(f: RowId -> RowId, s: seq<FusedRow>): seq<FusedRow> {
    seq(|s|, i requires 0 <= i < |s| => s[i].(row := f(s[i].row)))
  }

  lemma {:induction false} RelabelRank(config: FusionConfig, f: RowId -> RowId, s: seq<Scored>, rows: set<RowId>, r: RowId)
    requires Sane(config) && StrictOn(f, rows) && RowsOf(s) <= rows && r in rows
    ensures RankOf(Relabel(f, s), f(r)) == RankOf(s, r)
    ensures ContributionOf(Relabel(f, s), f(r)) == ContributionOf(s, r)
    ensures ShareOf(config, Relabel(f, s), f(r)) == ShareOf(config, s, r)
  {
    if s != [] {
      var last := |s| - 1;
      assert s[last] in s;
      assert forall c | c in s[..last] :: c in s;
      assert Relabel(f, s)[..last] == Relabel(f, s[..last]);
      RelabelRank(config, f, s[..last], rows, r);
      RankOfMeaning(s, r);
    }
  }

  lemma RelabelRankBack(f: RowId -> RowId, s: seq<Scored>, r: RowId)
    requires RankOf(Relabel(f, s), r) > 0
    ensures exists q :: q in RowsOf(s) && f(q) == r
  {
    RankOfMeaning(Relabel(f, s), r);
    var k := RankOf(Relabel(f, s), r) - 1;
    assert s[k] in s && f(s[k].row) == r;
  }

  lemma RelabelledRow(config: FusionConfig, f: RowId -> RowId, rows: set<RowId>,
                      lexical: seq<Scored>, dense: seq<Scored>, fused: seq<FusedRow>, r: RowId)
    requires Sane(config) && IsFusion(config, lexical, dense, fused)
    requires RankOf(Relabel(f, lexical), r) > 0 || RankOf(Relabel(f, dense), r) > 0
    ensures exists i :: 0 <= i < |RelabelFused(f, fused)| && RelabelFused(f, fused)[i].row == r
  {
    var q: RowId;
    if RankOf(Relabel(f, lexical), r) > 0 {
      RelabelRankBack(f, lexical, r);
      q :| q in RowsOf(lexical) && f(q) == r;
    } else {
      RelabelRankBack(f, dense, r);
      q :| q in RowsOf(dense) && f(q) == r;
    }
    RowsRanked(lexical, q);
    RowsRanked(dense, q);
    var i :| 0 <= i < |fused| && fused[i].row == q;
    assert RelabelFused(f, fused)[i].row == r;
  }

  /** Fusing relabelled lists gives the relabelled fusion, whenever the relabelling is increasing
      on the rows that occur. */
  lemma FusionRelabels(config: FusionConfig, f: RowId -> RowId, rows: set<RowId>,
                       lexical: seq<Scored>, dense: seq<Scored>, fused: seq<FusedRow>)
    requires Sane(config) && StrictOn(f, rows) && RowsOf(lexical) <= rows && RowsOf(dense) <= rows
    requires IsFusion(config, lexical, dense, fused)
    ensures IsFusion(config, Relabel(f, lexical), Relabel(f, dense), RelabelFused(f, fused))
  {
    var l', d', fused' := Relabel(f, lexical), Relabel(f, dense), RelabelFused(f, fused);
    forall i | 0 <= i < |fused|
      ensures fused[i].row in rows
      ensures fused'[i] == FusedAt(config, l', d', fused'[i].row)
      ensures RankOf(l', fused'[i].row) > 0 || RankOf(d', fused'[i].row) > 0
    {
      RowsRanked(lexical, fused[i].row);
      RowsRanked(dense, fused[i].row);
      RelabelRank(config, f, lexical, rows, fused[i].row);
      RelabelRank(config, f, dense, rows, fused[i].row);
    }
    forall i, j | 0 <= i < j < |fused'|
      ensures fused'[i].row != fused'[j].row && !Before(FusedKey(fused'[j]), FusedKey(fused'[i]))
    {
      assert !Before(FusedKey(fused[j]), FusedKey(fused[i]));
    }
    forall r | RankOf(l', r) > 0 || RankOf(d', r) > 0
      ensures exists i :: 0 <= i < |fused'| && fused'[i].row == r
    {
      RelabelledRow(config, f, rows, lexical, dense, fused, r);
    }
  }
}
