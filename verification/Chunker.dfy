// Cutting a source file into chunk bodies: a container's body is its text without its members,
// and under the right conditions the bodies partition what is visible of the text that any symbol
// covers.

module Chunker {
  import opened Wrappers
  import opened NormalizeBody

  /** Positions `start` up to, not including, `end`. */
  datatype Range = Range(start: nat, end: nat)

  datatype Hit = Hit(range: Range, isContainer: bool)

  predicate Covers(r: Range, i: int) {
    r.start <= i < r.end
  }

  predicate Contains(outer: Range, inner: Range) {
    outer.start <= inner.start && inner.end <= outer.end && outer != inner
  }

  predicate Covered(members: seq<Range>, i: int) {
    exists k :: 0 <= k < |members| && Covers(members[k], i)
  }

  /** The text of `[from, to)` outside every member, in order. */
  function Outside(source: string, members: seq<Range>, from: nat, to: nat): string
    requires to <= |source|
  {
    if to <= from then ""
    else Outside(source, members, from, to - 1) + if Covered(members, to - 1) then "" else [source[to - 1]]
  }

  lemma {:induction false} OutsideGap(source: string, members: seq<Range>, from: nat, a: nat, b: nat)
    requires from <= a <= b <= |source| && forall i | a <= i < b :: !Covered(members, i)
    ensures Outside(source, members, from, b) == Outside(source, members, from, a) + source[a..b]
  {
    if a < b {
      OutsideGap(source, members, from, a, b - 1);
      assert source[a..b] == source[a..b - 1] + [source[b - 1]];
    }
  }

  lemma {:induction false} OutsideCovered(source: string, members: seq<Range>, from: nat, a: nat, b: nat)
    requires from <= a <= b <= |source| && forall i | a <= i < b :: Covered(members, i)
    ensures Outside(source, members, from, b) == Outside(source, members, from, a)
  {
    if a < b {
      OutsideCovered(source, members, from, a, b - 1);
    }
  }

  lemma {:induction false} OutsideSame(source: string, a: seq<Range>, b: seq<Range>, from: nat, to: nat)
    requires to <= |source| && forall i :: Covered(a, i) <==> Covered(b, i)
    ensures Outside(source, a, from, to) == Outside(source, b, from, to)
  {
    if from < to {
      OutsideSame(source, a, b, from, to - 1);
    }
  }

  lemma SameRangesSameCover(a: seq<Range>, b: seq<Range>, i: int)
    requires multiset(a) == multiset(b)
    ensures Covered(a, i) <==> Covered(b, i)
  {
    if Covered(a, i) {
      var k :| 0 <= k < |a| && Covers(a[k], i);
      assert a[k] in multiset(b);
      var j :| 0 <= j < |b| && b[j] == a[k];
      assert Covers(b[j], i);
    }
    if Covered(b, i) {
      var k :| 0 <= k < |b| && Covers(b[k], i);
      assert b[k] in multiset(a);
      var j :| 0 <= j < |a| && a[j] == b[k];
      assert Covers(a[j], i);
    }
  }

  ghost predicate ByStart(rs: seq<Range>) {
    forall j, k | 0 <= j < k < |rs| :: rs[j].start <= rs[k].start
  }

  function InsertByStart(rs: seq<Range>, r: Range): seq<Range> {
    if rs == [] || rs[|rs| - 1].start <= r.start then rs + [r]
    else InsertByStart(rs[..|rs| - 1], r) + [rs[|rs| - 1]]
  }

  /** A stable sort by start. */
  function SortByStart(rs: seq<Range>): seq<Range> {
    if rs == [] then [] else InsertByStart(SortByStart(rs[..|rs| - 1]), rs[|rs| - 1])
  }

  lemma {:induction false} InsertByStartBag(rs: seq<Range>, r: Range)
    ensures multiset(InsertByStart(rs, r)) == multiset(rs) + multiset{r}
  {
    if rs != [] && rs[|rs| - 1].start > r.start {
      var last := |rs| - 1;
      InsertByStartBag(rs[..last], r);
      assert rs == rs[..last] + [rs[last]];
    }
  }

  lemma SnocByStart(rs: seq<Range>, r: Range)
    requires ByStart(rs) && forall x | x in rs :: x.start <= r.start
    ensures ByStart(rs + [r])
  {
    assert forall k | 0 <= k < |rs| :: rs[k] in rs;
  }

  lemma {:induction false} InsertByStartSorted(rs: seq<Range>, r: Range)
    requires ByStart(rs)
    ensures ByStart(InsertByStart(rs, r))
    ensures forall x | x in InsertByStart(rs, r) :: x == r || x in rs
  {
    if rs != [] && rs[|rs| - 1].start > r.start {
      var last := |rs| - 1;
      assert forall x | x in rs[..last] :: x in rs && x.start <= rs[last].start;
      InsertByStartSorted(rs[..last], r);
      SnocByStart(InsertByStart(rs[..last], r), rs[last]);
    }
  }

  lemma {:induction false} SortByStartMeaning(rs: seq<Range>)
    ensures ByStart(SortByStart(rs)) && multiset(SortByStart(rs)) == multiset(rs)
  {
    if rs != [] {
      hide InsertByStart, ByStart;
      var last := |rs| - 1;
      var sorted := SortByStart(rs[..last]);
      SortByStartMeaning(rs[..last]);
      InsertByStartSorted(sorted, rs[last]);
      InsertByStartBag(sorted, rs[last]);
      assert rs == rs[..last] + [rs[last]];
      assert SortByStart(rs) == InsertByStart(sorted, rs[last]);
    }
  }

  lemma SortedElement(rs: seq<Range>, k: nat)
    requires k < |SortByStart(rs)|
    ensures SortByStart(rs)[k] in rs
  {
    SortByStartMeaning(rs);
    assert SortByStart(rs)[k] in multiset(rs);
  }

  /** As far as the members that begin inside the outer range reach. */
  ghost predicate Reaches(outer: Range, members: seq<Range>, reach: nat) {
    && outer.start <= reach
    && (forall k | 0 <= k < |members| && members[k].start <= outer.end :: members[k].end <= reach)
    && (reach == outer.start || exists k :: 0 <= k < |members| && members[k].start <= outer.end && members[k].end == reach)
  }

  /** Members that begin behind the outer range swallow the text between the last member in it
      and its end. */
  predicate BeginsBehind(outer: Range, members: seq<Range>) {
    exists k :: 0 <= k < |members| && members[k].start > outer.end
  }

  lemma ReachesNone(outer: Range, members: seq<Range>)
    ensures Reaches(outer, [], outer.start) && !BeginsBehind(outer, [])
  {
  }

  /** Once a member begins behind the range, so do all that follow. */
  lemma ReachesNext(outer: Range, sorted: seq<Range>, k: nat, reach: nat)
    requires ByStart(sorted) && k < |sorted| && Reaches(outer, sorted[..k], reach)
    ensures sorted[k].start <= outer.end ==> !BeginsBehind(outer, sorted[..k]) && !BeginsBehind(outer, sorted[..k + 1])
    ensures sorted[k].start <= outer.end ==> Reaches(outer, sorted[..k + 1], if reach > sorted[k].end then reach else sorted[k].end)
    ensures sorted[k].start > outer.end ==> BeginsBehind(outer, sorted[..k + 1]) && Reaches(outer, sorted[..k + 1], reach)
  {
    var next := sorted[..k + 1];
    assert next[k] == sorted[k] && forall j | 0 <= j < k :: next[j] == sorted[..k][j];
    if reach != outer.start {
      var j :| 0 <= j < k && sorted[..k][j].start <= outer.end && sorted[..k][j].end == reach;
      assert next[j].end == reach;
    }
  }

  lemma SameRangesSameReach(outer: Range, a: seq<Range>, b: seq<Range>, reach: nat)
    requires multiset(a) == multiset(b) && Reaches(outer, b, reach)
    ensures Reaches(outer, a, reach) && (BeginsBehind(outer, a) <==> BeginsBehind(outer, b))
  {
    forall k | 0 <= k < |a|
      ensures a[k] in b
    {
      assert a[k] in multiset(b);
    }
    forall k | 0 <= k < |b|
      ensures b[k] in a
    {
      assert b[k] in multiset(a);
    }
  }

  lemma SweepDone(source: string, outer: Range, members: seq<Range>, sorted: seq<Range>, cursor: nat, reach: nat)
    requires outer.start <= outer.end <= |source| && multiset(members) == multiset(sorted)
    requires Reaches(outer, sorted, reach)
    requires if BeginsBehind(outer, sorted) then cursor > outer.end else cursor == reach
    requires forall i :: Covered(sorted, i) <==> Covered(members, i)
    ensures Reaches(outer, members, reach) && (BeginsBehind(outer, members) <==> BeginsBehind(outer, sorted))
    ensures forall to: nat | to <= |source| :: Outside(source, sorted, outer.start, to) == Outside(source, members, outer.start, to)
  {
    SameRangesSameReach(outer, members, sorted, reach);
    forall to: nat | to <= |source|
      ensures Outside(source, sorted, outer.start, to) == Outside(source, members, outer.start, to)
    {
      OutsideSame(source, sorted, members, outer.start, to);
    }
  }

  function Least(a: nat, b: nat): nat {
    if a <= b then a else b
  }

  lemma NothingYet(source: string, members: seq<Range>, from: nat)
    requires from <= |source|
    ensures Outside(source, members, from, from) == ""
  {
  }

  lemma GapBefore(sorted: seq<Range>, k: nat, cursor: nat)
    requires ByStart(sorted) && k < |sorted| && forall j | 0 <= j < k :: sorted[j].end <= cursor
    ensures forall i | cursor <= i < sorted[k].start :: !Covered(sorted, i)
  {
  }

  lemma GapAfter(sorted: seq<Range>, cursor: nat)
    requires forall j | 0 <= j < |sorted| :: sorted[j].end <= cursor
    ensures forall i | cursor <= i :: !Covered(sorted, i)
  {
  }

  lemma MemberCovers(sorted: seq<Range>, k: nat)
    requires k < |sorted|
    ensures forall i | sorted[k].start <= i < sorted[k].end :: Covered(sorted, i)
  {
  }

  /** Sweeps a cursor over the members in order of their starts. However they nest or overlap,
      what is left is exactly the outer text that lies in none of them, unless a member begins
      behind the outer range: then the text after the last member inside is missing. */
  method BodyMinusMembers(source: string, outer: Range, members: seq<Range>) returns (out: string)
    requires outer.start <= outer.end <= |source|
    requires forall m | m in members :: m.start <= m.end
    ensures !BeginsBehind(outer, members) ==> out == Outside(source, members, outer.start, outer.end)
    ensures BeginsBehind(outer, members) ==>
      exists reach: nat :: Reaches(outer, members, reach) && out == Outside(source, members, outer.start, Least(reach, outer.end))
  {
    hide Outside, Covered, SortByStart, Reaches, BeginsBehind;
    var sorted := SortByStart(members);
    SortByStartMeaning(members);
    forall i
      ensures Covered(sorted, i) <==> Covered(members, i)
    {
      SameRangesSameCover(sorted, members, i);
    }
    out := "";
    var cursor := outer.start;
    ghost var reach: nat := cursor;
    NothingYet(source, sorted, outer.start);
    ReachesNone(outer, sorted);
    assert sorted[..0] == [];
    for k := 0 to |sorted|
      invariant outer.start <= cursor
      invariant forall j | 0 <= j < k :: sorted[j].end <= cursor
      invariant Reaches(outer, sorted[..k], reach)
      invariant if BeginsBehind(outer, sorted[..k]) then cursor > outer.end else cursor == reach
      invariant out == Outside(source, sorted, outer.start, Least(reach, outer.end))
    {
      var m := sorted[k];
      SortedElement(members, k);
      assert sorted[..k + 1] == sorted[..k] + [m];
      ReachesNext(outer, sorted, k, reach);
      var next := if cursor > m.end then cursor else m.end;
      if m.start <= outer.end {
        if m.start > cursor {
          GapBefore(sorted, k, cursor);
          OutsideGap(source, sorted, outer.start, cursor, m.start);
          out := out + source[cursor..m.start];
        }
        MemberCovers(sorted, k);
        var reached := if cursor > m.start then cursor else m.start;
        OutsideCovered(source, sorted, outer.start, Least(reached, outer.end), Least(next, outer.end));
        reach := next;
      }
      cursor := next;
    }
    assert sorted[..|sorted|] == sorted;
    if cursor < outer.end {
      GapAfter(sorted, cursor);
      OutsideGap(source, sorted, outer.start, cursor, outer.end);
      out := out + source[cursor..outer.end];
    }
    SweepDone(source, outer, members, sorted, cursor, reach);
  }

  // ---------- The bodies of one file ----------

  /** The other hits inside a hit. */
  function Members(hits: seq<Hit>, outer: Range): seq<Range> {
    if hits == [] then []
    else
      var last := hits[|hits| - 1].range;
      Members(hits[..|hits| - 1], outer) + if last != outer && Contains(outer, last) then [last] else []
  }

  lemma {:induction false} MembersMeaning(hits: seq<Hit>, outer: Range)
    ensures forall r :: r in Members(hits, outer) <==> exists k :: 0 <= k < |hits| && hits[k].range == r && Contains(outer, r)
  {
    if hits != [] {
      var last := |hits| - 1;
      MembersMeaning(hits[..last], outer);
      forall r
        ensures r in Members(hits, outer) <==> exists k :: 0 <= k < |hits| && hits[k].range == r && Contains(outer, r)
      {
        if r in Members(hits[..last], outer) {
          var k :| 0 <= k < last && hits[..last][k].range == r && Contains(outer, r);
          assert hits[k].range == r;
        }
        if k :| 0 <= k < |hits| && hits[k].range == r && Contains(outer, r) {
          if k < last {
            assert hits[..last][k].range == r;
          }
        }
      }
    }
  }

  /** Position `i` belongs to the body of hit `k`. */
  ghost predicate Claims(hits: seq<Hit>, k: int, i: int) {
    && 0 <= k < |hits| && Covers(hits[k].range, i)
    && !(hits[k].isContainer && exists m :: 0 <= m < |hits| && Contains(hits[k].range, hits[m].range) && Covers(hits[m].range, i))
  }

  ghost function ClaimedText(source: string, hits: seq<Hit>, k: int, from: nat, to: nat): string
    requires to <= |source|
  {
    if to <= from then ""
    else ClaimedText(source, hits, k, from, to - 1) + if Claims(hits, k, to - 1) then [source[to - 1]] else ""
  }

  /** The text of a hit's body. */
  ghost function BodyText(source: string, hits: seq<Hit>, k: nat): string
    requires k < |hits| && hits[k].range.end <= |source|
  {
    ClaimedText(source, hits, k, hits[k].range.start, hits[k].range.end)
  }

  lemma {:induction false} OutsideIsClaimed(source: string, hits: seq<Hit>, k: nat, to: nat)
    requires k < |hits| && hits[k].isContainer && to <= hits[k].range.end <= |source|
    ensures Outside(source, Members(hits, hits[k].range), hits[k].range.start, to) == ClaimedText(source, hits, k, hits[k].range.start, to)
  {
    if hits[k].range.start < to {
      OutsideIsClaimed(source, hits, k, to - 1);
      MembersMeaning(hits, hits[k].range);
      var ms := Members(hits, hits[k].range);
      if Covered(ms, to - 1) {
        var j :| 0 <= j < |ms| && Covers(ms[j], to - 1);
        assert ms[j] in ms;
        var m :| 0 <= m < |hits| && hits[m].range == ms[j] && Contains(hits[k].range, ms[j]);
        assert Contains(hits[k].range, hits[m].range) && Covers(hits[m].range, to - 1);
      }
      if m :| 0 <= m < |hits| && Contains(hits[k].range, hits[m].range) && Covers(hits[m].range, to - 1) {
        assert hits[m].range in ms;
        var j :| 0 <= j < |ms| && ms[j] == hits[m].range;
        assert Covers(ms[j], to - 1);
      }
    }
  }

  lemma {:induction false} WholeIsClaimed(source: string, hits: seq<Hit>, k: nat, to: nat)
    requires k < |hits| && !hits[k].isContainer && hits[k].range.start <= to <= hits[k].range.end <= |source|
    ensures source[hits[k].range.start..to] == ClaimedText(source, hits, k, hits[k].range.start, to)
  {
    if hits[k].range.start < to {
      WholeIsClaimed(source, hits, k, to - 1);
      assert source[hits[k].range.start..to] == source[hits[k].range.start..to - 1] + [source[to - 1]];
    }
  }

  lemma NoMembers(hits: seq<Hit>, k: nat)
    requires k < |hits| && Members(hits, hits[k].range) == []
    ensures forall m | 0 <= m < |hits| :: !Contains(hits[k].range, hits[m].range)
  {
    MembersMeaning(hits, hits[k].range);
    forall m | 0 <= m < |hits|
      ensures !Contains(hits[k].range, hits[m].range)
    {
      assert hits[m].range !in Members(hits, hits[k].range);
    }
  }

  lemma {:induction false} ChildlessIsClaimed(source: string, hits: seq<Hit>, k: nat, to: nat)
    requires k < |hits| && hits[k].range.start <= to <= hits[k].range.end <= |source|
    requires forall m | 0 <= m < |hits| :: !Contains(hits[k].range, hits[m].range)
    ensures source[hits[k].range.start..to] == ClaimedText(source, hits, k, hits[k].range.start, to)
  {
    if hits[k].range.start < to {
      ChildlessIsClaimed(source, hits, k, to - 1);
      assert source[hits[k].range.start..to] == source[hits[k].range.start..to - 1] + [source[to - 1]];
      assert Claims(hits, k, to - 1);
    }
  }

  lemma MembersInside(hits: seq<Hit>, outer: Range)
    requires forall h | h in hits :: h.range.start <= h.range.end
    ensures forall m | m in Members(hits, outer) :: m.start <= m.end && m.start <= outer.end
  {
    MembersMeaning(hits, outer);
    forall m | m in Members(hits, outer)
      ensures m.start <= m.end && m.start <= outer.end
    {
      var k :| 0 <= k < |hits| && hits[k].range == m && Contains(outer, m);
      assert hits[k] in hits;
    }
  }

  lemma InsideOnly(outer: Range, members: seq<Range>)
    requires forall m | m in members :: m.start <= outer.end
    ensures !BeginsBehind(outer, members)
  {
    assert forall k | 0 <= k < |members| :: members[k] in members;
  }

  ghost predicate InSource(source: string, hits: seq<Hit>) {
    forall h | h in hits :: h.range.start <= h.range.end <= |source|
  }

  /** The body of every hit, before oversize bodies are split: a container without its members,
      anything else whole; None for a body that is all white space. */
  method ChunkBodies(source: string, hits: seq<Hit>) returns (bodies: seq<Option<string>>)
    requires InSource(source, hits)
    ensures |bodies| == |hits|
    ensures forall k | 0 <= k < |hits| ::
      bodies[k] == if Blank(BodyText(source, hits, k)) then None else Some(BodyText(source, hits, k))
  {
    hide ClaimedText, Members, Blank;
    bodies := [];
    for k := 0 to |hits|
      invariant |bodies| == k
      invariant forall j | 0 <= j < k ::
        bodies[j] == if Blank(BodyText(source, hits, j)) then None else Some(BodyText(source, hits, j))
    {
      assert hits[k] in hits;
      var members := Members(hits, hits[k].range);
      var body;
      if hits[k].isContainer && members != [] {
        MembersInside(hits, hits[k].range);
        body := BodyMinusMembers(source, hits[k].range, members);
        InsideOnly(hits[k].range, members);
        OutsideIsClaimed(source, hits, k, hits[k].range.end);
      } else {
        body := source[hits[k].range.start..hits[k].range.end];
        if hits[k].isContainer {
          NoMembers(hits, k);
          ChildlessIsClaimed(source, hits, k, hits[k].range.end);
        } else {
          WholeIsClaimed(source, hits, k, hits[k].range.end);
        }
      }
      bodies := bodies + [if Blank(body) then None else Some(body)];
    }
  }

  // ---------- When the bodies are a partition ----------

  predicate Apart(a: Range, b: Range) {
    a.end <= b.start || b.end <= a.start
  }

  /** Any two different hits have different ranges, one inside the other or apart. */
  ghost predicate Laminar(hits: seq<Hit>) {
    forall j, k | 0 <= j < |hits| && 0 <= k < |hits| && j != k ::
      || Contains(hits[j].range, hits[k].range)
      || Contains(hits[k].range, hits[j].range)
      || (hits[j].range != hits[k].range && Apart(hits[j].range, hits[k].range))
  }

  ghost predicate SomeCovers(hits: seq<Hit>, i: int) {
    exists k :: 0 <= k < |hits| && Covers(hits[k].range, i)
  }

  predicate Visible(source: string, i: int) {
    0 <= i < |source| && !Space(source[i])
  }

  /** Position `i` is in the body of hit `k`, and that body is not dropped as blank. */
  ghost predicate InBody(source: string, hits: seq<Hit>, k: int, i: int)
    requires InSource(source, hits)
  {
    Claims(hits, k, i) && assert hits[k] in hits; !Blank(BodyText(source, hits, k))
  }

  ghost predicate InOneBody(source: string, hits: seq<Hit>, i: int)
    requires InSource(source, hits)
  {
    exists k :: InBody(source, hits, k, i) && forall j :: InBody(source, hits, j, i) ==> j == k
  }

  /** Every visible position under some hit is in exactly one of the bodies that are kept. */
  ghost predicate Partition(source: string, hits: seq<Hit>)
    requires InSource(source, hits)
  {
    forall i: int | SomeCovers(hits, i) && Visible(source, i) :: InOneBody(source, hits, i)
  }

  /** Whatever contains another hit with anything visible in it is a container. */
  ghost predicate OnlyContainersContain(source: string, hits: seq<Hit>) {
    forall j, k, i | 0 <= j < |hits| && 0 <= k < |hits| && Contains(hits[j].range, hits[k].range)
      && Covers(hits[k].range, i) && Visible(source, i) :: hits[j].isContainer
  }

  lemma {:induction false} BlankMeaning(s: string)
    ensures Blank(s) <==> forall c | c in s :: Space(c)
  {
    if s != "" {
      var last := |s| - 1;
      BlankMeaning(s[..last]);
      assert s == s[..last] + [s[last]];
    }
  }

  lemma {:induction false} ClaimedIn(source: string, hits: seq<Hit>, k: nat, i: nat, from: nat, to: nat)
    requires from <= i < to <= |source| && Claims(hits, k, i)
    ensures source[i] in ClaimedText(source, hits, k, from, to)
  {
    if i < to - 1 {
      ClaimedIn(source, hits, k, i, from, to - 1);
    }
  }

  /** What is visible is never dropped: the body that claims it is kept. */
  lemma VisibleIsKept(source: string, hits: seq<Hit>, k: int, i: int)
    requires InSource(source, hits) && Visible(source, i)
    ensures InBody(source, hits, k, i) <==> Claims(hits, k, i)
  {
    hide ClaimedText, Blank;
    if Claims(hits, k, i) {
      assert hits[k] in hits;
      ClaimedIn(source, hits, k, i, hits[k].range.start, hits[k].range.end);
      BlankMeaning(BodyText(source, hits, k));
    }
  }

  function Size(r: Range): int {
    r.end - r.start
  }

  /** The shortest of the hits over a position. */
  lemma {:induction false} Innermost(hits: seq<Hit>, i: int, n: nat) returns (k: nat)
    requires n <= |hits| && exists j :: 0 <= j < n && Covers(hits[j].range, i)
    ensures k < n && Covers(hits[k].range, i)
    ensures forall j | 0 <= j < n && Covers(hits[j].range, i) :: Size(hits[k].range) <= Size(hits[j].range)
  {
    var last := n - 1;
    if exists j :: 0 <= j < last && Covers(hits[j].range, i) {
      k := Innermost(hits, i, last);
      if Covers(hits[last].range, i) && Size(hits[last].range) < Size(hits[k].range) {
        k := last;
      }
    } else {
      k := last;
    }
  }

  lemma InnermostClaims(hits: seq<Hit>, i: int) returns (k: nat)
    requires SomeCovers(hits, i)
    ensures Claims(hits, k, i)
    ensures forall j | 0 <= j < |hits| && Covers(hits[j].range, i) :: Size(hits[k].range) <= Size(hits[j].range)
  {
    k := Innermost(hits, i, |hits|);
    forall m | 0 <= m < |hits| && Contains(hits[k].range, hits[m].range)
      ensures !Covers(hits[m].range, i)
    {
      assert Size(hits[m].range) < Size(hits[k].range);
    }
  }

  lemma OneClaim(source: string, hits: seq<Hit>, i: int, j: int, k: int)
    requires Laminar(hits) && OnlyContainersContain(source, hits) && Visible(source, i) && Claims(hits, j, i) && Claims(hits, k, i)
    ensures j == k
  {
    assert !Contains(hits[j].range, hits[k].range);
    assert !Contains(hits[k].range, hits[j].range);
    assert !Apart(hits[j].range, hits[k].range);
  }

  lemma ContainersPartition(source: string, hits: seq<Hit>)
    requires InSource(source, hits) && Laminar(hits) && OnlyContainersContain(source, hits)
    ensures Partition(source, hits)
  {
    hide Laminar, OnlyContainersContain, Claims, InBody;
    forall i: int | SomeCovers(hits, i) && Visible(source, i)
      ensures InOneBody(source, hits, i)
    {
      var k := InnermostClaims(hits, i);
      VisibleIsKept(source, hits, k, i);
      forall j | InBody(source, hits, j, i)
        ensures j == k
      {
        VisibleIsKept(source, hits, j, i);
        OneClaim(source, hits, i, j, k);
      }
    }
  }

  /** A hit that is no container but has something visible in it keeps text that is also
      elsewhere. */
  lemma SharedText(source: string, hits: seq<Hit>, j: nat, k: nat, i: int)
    requires InSource(source, hits) && j < |hits| && k < |hits| && Contains(hits[j].range, hits[k].range) && !hits[j].isContainer
    requires Covers(hits[k].range, i) && Visible(source, i)
    ensures !InOneBody(source, hits, i) && !Partition(source, hits)
  {
    hide InBody;
    assert SomeCovers(hits, i);
    var n := InnermostClaims(hits, i);
    assert Size(hits[n].range) <= Size(hits[k].range) < Size(hits[j].range);
    assert Claims(hits, j, i) && n != j;
    VisibleIsKept(source, hits, j, i);
    VisibleIsKept(source, hits, n, i);
  }

  /** For laminar hits the bodies that are kept partition what is visible of the covered text if
      and only if nothing but containers contains other hits. */
  lemma PartitionIff(source: string, hits: seq<Hit>)
    requires InSource(source, hits) && Laminar(hits)
    ensures Partition(source, hits) <==> OnlyContainersContain(source, hits)
  {
    hide Laminar;
    if OnlyContainersContain(source, hits) {
      ContainersPartition(source, hits);
    } else {
      var j, k, i :| 0 <= j < |hits| && 0 <= k < |hits| && Contains(hits[j].range, hits[k].range)
        && Covers(hits[k].range, i) && Visible(source, i) && !hits[j].isContainer;
      SharedText(source, hits, j, k, i);
    }
  }

  /** A function inside a function: its text is in both bodies. */
  lemma NestedFunctionShared()
    ensures var source, hits := "f { g { x } }", [Hit(Range(0, 13), false), Hit(Range(4, 11), false)];
      InSource(source, hits) && Laminar(hits) && !InOneBody(source, hits, 8) && !Partition(source, hits)
  {
    var source, hits := "f { g { x } }", [Hit(Range(0, 13), false), Hit(Range(4, 11), false)];
    SharedText(source, hits, 0, 1, 8);
  }
}
