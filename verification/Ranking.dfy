// Ranked lists: best score first, ties by ascending row. One order serves the dense retriever,
// the lexical collectors and fusion, so sorting and truncating are defined once, by key.

module Ranking {
  import opened Records

  datatype Scored = Scored(row: RowId, score: real)

  predicate Before(a: Scored, b: Scored) {
    a.score > b.score || (a.score == b.score && a.row < b.row)
  }

  ghost predicate Ranked<T>(s: seq<T>, key: T -> Scored) {
    forall i, j | 0 <= i < j < |s| :: !Before(key(s[j]), key(s[i]))
  }

  function InsertRanked<T>(s: seq<T>, x: T, key: T -> Scored): seq<T> {
    if s == [] then [x]
    else
      var last := |s| - 1;
      if Before(key(x), key(s[last])) then InsertRanked(s[..last], x, key) + [s[last]] else s + [x]
  }

  function Rank<T>(s: seq<T>, key: T -> Scored): seq<T> {
    if s == [] then [] else InsertRanked(Rank(s[..|s| - 1], key), s[|s| - 1], key)
  }

  function Take<T>(s: seq<T>, n: nat): seq<T> {
    if |s| <= n then s else s[..n]
  }

  /** Sort, then truncate. */
  function Top<T>(s: seq<T>, n: nat, key: T -> Scored): seq<T> {
    Take(Rank(s, key), n)
  }

  lemma {:induction false} InsertBag<T>(s: seq<T>, x: T, key: T -> Scored)
    ensures multiset(InsertRanked(s, x, key)) == multiset(s) + multiset{x}
    ensures |InsertRanked(s, x, key)| == |s| + 1
  {
    if s != [] {
      var last := |s| - 1;
      assert s == s[..last] + [s[last]];
      InsertBag(s[..last], x, key);
    }
  }

  lemma {:induction false} InsertedElement<T>(s: seq<T>, x: T, key: T -> Scored, i: nat)
    requires i < |InsertRanked(s, x, key)|
    ensures InsertRanked(s, x, key)[i] == x || InsertRanked(s, x, key)[i] in s
  {
    if s != [] {
      var last := |s| - 1;
      if Before(key(x), key(s[last])) && i < |InsertRanked(s[..last], x, key)| {
        InsertedElement(s[..last], x, key, i);
      }
    }
  }

  lemma SnocRanked<T>(s: seq<T>, x: T, key: T -> Scored)
    requires Ranked(s, key) && forall i | 0 <= i < |s| :: !Before(key(x), key(s[i]))
    ensures Ranked(s + [x], key)
  {
  }

  lemma NotBeforeEarlier<T>(s: seq<T>, x: T, k: nat, key: T -> Scored)
    requires Ranked(s, key) && k < |s| && !Before(key(x), key(s[|s| - 1]))
    ensures !Before(key(x), key(s[k]))
  {
    assert k < |s| - 1 ==> !Before(key(s[|s| - 1]), key(s[k]));
  }

  lemma LastIsWorst<T>(s: seq<T>, y: T, key: T -> Scored)
    requires Ranked(s, key) && s != [] && y in s[..|s| - 1]
    ensures !Before(key(s[|s| - 1]), key(y))
  {
    var k :| 0 <= k < |s| - 1 && s[k] == y;
  }

  lemma {:induction false} InsertRankedMeaning<T>(s: seq<T>, x: T, key: T -> Scored)
    requires Ranked(s, key)
    ensures Ranked(InsertRanked(s, x, key), key)
    ensures multiset(InsertRanked(s, x, key)) == multiset(s) + multiset{x}
    ensures |InsertRanked(s, x, key)| == |s| + 1
  {
    InsertBag(s, x, key);
    if s != [] {
      var last := |s| - 1;
      if Before(key(x), key(s[last])) {
        assert Ranked(s[..last], key);
        InsertRankedMeaning(s[..last], x, key);
        var r := InsertRanked(s[..last], x, key);
        forall i | 0 <= i < |r|
          ensures !Before(key(s[last]), key(r[i]))
        {
          InsertedElement(s[..last], x, key, i);
          if r[i] != x {
            LastIsWorst(s, r[i], key);
          }
        }
        SnocRanked(r, s[last], key);
      } else {
        forall i | 0 <= i < |s|
          ensures !Before(key(x), key(s[i]))
        {
          NotBeforeEarlier(s, x, i, key);
        }
        SnocRanked(s, x, key);
      }
    }
  }

  lemma {:induction false} RankMeaning<T>(s: seq<T>, key: T -> Scored)
    ensures Ranked(Rank(s, key), key)
    ensures multiset(Rank(s, key)) == multiset(s)
    ensures |Rank(s, key)| == |s|
  {
    if s != [] {
      var last := |s| - 1;
      RankMeaning(s[..last], key);
      InsertRankedMeaning(Rank(s[..last], key), s[last], key);
      assert s == s[..last] + [s[last]];
    }
  }

  /** Different elements have different keys. */
  ghost predicate KeyedApart<T>(s: seq<T>, key: T -> Scored) {
    forall x, y | x in s && y in s && key(x) == key(y) :: x == y
  }

  lemma PartKeyedApart<T>(s: seq<T>, part: seq<T>, key: T -> Scored)
    requires KeyedApart(s, key) && forall x | x in part :: x in s
    ensures KeyedApart(part, key)
  {
  }

  lemma SameBag<T>(a: seq<T>, b: seq<T>, x: T)
    requires multiset(a) == multiset(b)
    ensures x in a <==> x in b
  {
    assert x in multiset(a) <==> x in multiset(b);
  }

  lemma WithoutLast<T>(s: seq<T>)
    requires s != []
    ensures s == s[..|s| - 1] + [s[|s| - 1]]
    ensures multiset(s[..|s| - 1]) == multiset(s) - multiset{s[|s| - 1]}
  {
    assert s == s[..|s| - 1] + [s[|s| - 1]];
  }

  lemma LastEqual<T>(a: seq<T>, b: seq<T>, key: T -> Scored)
    requires Ranked(a, key) && Ranked(b, key) && multiset(a) == multiset(b) && a != [] && |a| == |b|
    requires KeyedApart(a, key)
    ensures a[|a| - 1] == b[|b| - 1]
  {
    var x, y := a[|a| - 1], b[|b| - 1];
    SameBag(a, b, x);
    SameBag(a, b, y);
    var i :| 0 <= i < |b| && b[i] == x;
    var j :| 0 <= j < |a| && a[j] == y;
    assert !Before(key(y), key(x)) && !Before(key(x), key(y));
    assert key(x) == key(y);
  }

  /** A ranked arrangement of a bag of elements with distinct keys is unique. */
  lemma {:induction false} RankedUnique<T>(a: seq<T>, b: seq<T>, key: T -> Scored)
    requires Ranked(a, key) && Ranked(b, key) && multiset(a) == multiset(b)
    requires KeyedApart(a, key)
    ensures a == b
  {
    hide KeyedApart;
    if a == [] {
      assert |multiset(b)| == 0;
    } else {
      assert |multiset(a)| == |multiset(b)|;
      var last := |a| - 1;
      LastEqual(a, b, key);
      WithoutLast(a);
      WithoutLast(b);
      PartKeyedApart(a, a[..last], key);
      assert Ranked(a[..last], key) && Ranked(b[..last], key);
      RankedUnique(a[..last], b[..last], key);
    }
  }

  /** The order in which a bag of elements is collected does not show after ranking. */
  lemma RankOrderFree<T>(a: seq<T>, b: seq<T>, key: T -> Scored)
    requires multiset(a) == multiset(b)
    requires KeyedApart(a, key)
    ensures Rank(a, key) == Rank(b, key)
  {
    RankMeaning(a, key);
    RankMeaning(b, key);
    forall x | x in Rank(a, key)
      ensures x in a
    {
      SameBag(Rank(a, key), a, x);
    }
    PartKeyedApart(a, Rank(a, key), key);
    RankedUnique(Rank(a, key), Rank(b, key), key);
  }

  // ---------- Bags without repetition ----------

  ghost predicate AllDistinct<T>(s: seq<T>) {
    forall i, j | 0 <= i < j < |s| :: s[i] != s[j]
  }

  lemma TwiceIn<T>(s: seq<T>, i: nat, j: nat)
    requires i < j < |s| && s[i] == s[j]
    ensures multiset(s)[s[i]] >= 2
  {
    assert s == s[..i] + [s[i]] + s[i + 1..j] + [s[j]] + s[j + 1..];
  }

  lemma {:induction false} OnceIn<T>(s: seq<T>, x: T)
    requires AllDistinct(s)
    ensures multiset(s)[x] <= 1
  {
    if s != [] {
      var last := |s| - 1;
      OnceIn(s[..last], x);
      assert s == s[..last] + [s[last]];
      if s[last] == x {
        assert x !in s[..last];
      }
    }
  }

  /** Two sequences without repetition and with the same elements are rearrangements. */
  lemma SameElements<T(!new)>(a: seq<T>, b: seq<T>)
    requires AllDistinct(a) && AllDistinct(b)
    requires forall x :: x in a <==> x in b
    ensures multiset(a) == multiset(b)
  {
    forall x
      ensures multiset(a)[x] == multiset(b)[x]
    {
      OnceIn(a, x);
      OnceIn(b, x);
      assert x in multiset(a) <==> x in a;
      assert x in multiset(b) <==> x in b;
    }
  }

  lemma RankDistinct<T(!new)>(s: seq<T>, key: T -> Scored)
    requires AllDistinct(s)
    ensures AllDistinct(Rank(s, key))
    ensures forall x :: x in Rank(s, key) <==> x in s
  {
    RankMeaning(s, key);
    var r := Rank(s, key);
    forall i, j | 0 <= i < j < |r|
      ensures r[i] != r[j]
    {
      OnceIn(s, r[i]);
      if r[i] == r[j] {
        TwiceIn(r, i, j);
      }
    }
    forall x
      ensures x in r <==> x in s
    {
      assert x in multiset(r) <==> x in multiset(s);
    }
  }

  // ---------- Selecting the best n as elements arrive ----------

  lemma {:induction false} InsertBelow<T>(s: seq<T>, x: T, n: nat, key: T -> Scored)
    requires Ranked(s, key) && 0 < n <= |s|
    ensures Take(InsertRanked(s, x, key), n)
      == if Before(key(x), key(s[n - 1])) then InsertRanked(s[..n - 1], x, key) else s[..n]
  {
    var last := |s| - 1;
    if Before(key(x), key(s[last])) {
      InsertRankedMeaning(s[..last], x, key);
      if n < |s| {
        InsertBelow(s[..last], x, n, key);
        assert s[..last][..n - 1] == s[..n - 1] && s[..last][..n] == s[..n];
      }
    } else {
      NotBeforeEarlier(s, x, n - 1, key);
    }
  }

  lemma {:induction false} FullInsert<T>(r: seq<T>, x: T, n: nat, key: T -> Scored)
    requires Ranked(r, key) && 0 < n <= |r|
    ensures var top := Take(r, n);
      if Before(key(x), key(top[n - 1]))
      then multiset(Take(InsertRanked(r, x, key), n)) == multiset(top) - multiset{top[n - 1]} + multiset{x}
      else Take(InsertRanked(r, x, key), n) == top
  {
    InsertBelow(r, x, n, key);
    InsertRankedMeaning(r[..n - 1], x, key);
    assert Take(r, n) == r[..n] == r[..n - 1] + [r[n - 1]];
  }

  /** One more element changes the best n by at most one replacement: it enters when there is
      room, or when it comes before the worst of them, which then leaves. */
  lemma TopSnoc<T>(s: seq<T>, x: T, n: nat, key: T -> Scored)
    ensures var top := Top(s, n, key);
      && (|top| < n ==> |top| == |s| && multiset(Top(s + [x], n, key)) == multiset(top) + multiset{x})
      && (|top| == n > 0 ==>
            if Before(key(x), key(top[n - 1]))
            then multiset(Top(s + [x], n, key)) == multiset(top) - multiset{top[n - 1]} + multiset{x}
            else Top(s + [x], n, key) == top)
      && (n == 0 ==> Top(s + [x], n, key) == [])
  {
    RankMeaning(s, key);
    assert (s + [x])[..|s|] == s;
    if n > |s| {
      InsertRankedMeaning(Rank(s, key), x, key);
    } else if n > 0 {
      FullInsert(Rank(s, key), x, n, key);
    }
  }

  lemma TopLength<T>(s: seq<T>, n: nat, key: T -> Scored)
    ensures |Top(s, n, key)| == if |s| < n then |s| else n
    ensures Ranked(Top(s, n, key), key)
    ensures forall x | x in Top(s, n, key) :: x in s
  {
    RankMeaning(s, key);
    forall x | x in Top(s, n, key)
      ensures x in s
    {
      assert x in multiset(Rank(s, key));
    }
  }

  // ---------- Selecting from parts ----------

  lemma {:induction false} RankRanked<T>(s: seq<T>, key: T -> Scored)
    requires Ranked(s, key)
    ensures Rank(s, key) == s
  {
    if s != [] {
      var last := |s| - 1;
      RankRanked(s[..last], key);
      assert s == s[..last] + [s[last]];
    }
  }

  lemma TakeInsert<T>(r: seq<T>, x: T, n: nat, key: T -> Scored)
    requires Ranked(r, key)
    ensures Take(InsertRanked(r, x, key), n) == Take(InsertRanked(Take(r, n), x, key), n)
  {
    if 0 < n < |r| {
      InsertBelow(r, x, n, key);
      InsertBelow(r[..n], x, n, key);
      assert r[..n][..n - 1] == r[..n - 1];
    }
  }

  lemma PruneStep<T>(s: seq<T>, t: seq<T>, x: T, n: nat, key: T -> Scored)
    requires Top(s, n, key) == Top(t, n, key)
    ensures Top(s + [x], n, key) == Top(t + [x], n, key)
  {
    RankMeaning(s, key);
    RankMeaning(t, key);
    assert (s + [x])[..|s|] == s && (t + [x])[..|t|] == t;
    TakeInsert(Rank(s, key), x, n, key);
    TakeInsert(Rank(t, key), x, n, key);
  }

  /** Elements of a part that miss the part's own best n cannot be among the best n of the whole. */
  lemma TopTwice<T>(s: seq<T>, n: nat, key: T -> Scored)
    ensures Top(Top(s, n, key), n, key) == Top(s, n, key)
  {
    hide Rank;
    RankMeaning(s, key);
    RankRanked(Top(s, n, key), key);
  }

  lemma {:induction false} TopPrune<T>(a: seq<T>, b: seq<T>, n: nat, key: T -> Scored)
    ensures Top(a + b, n, key) == Top(Top(a, n, key) + b, n, key)
  {
    hide Top, Rank;
    if b == [] {
      assert a + b == a && Top(a, n, key) + b == Top(a, n, key);
      TopTwice(a, n, key);
    } else {
      var last := |b| - 1;
      TopPrune(a, b[..last], n, key);
      PruneStep(a + b[..last], Top(a, n, key) + b[..last], b[last], n, key);
      assert a + b == a + b[..last] + [b[last]];
      assert Top(a, n, key) + b == Top(a, n, key) + b[..last] + [b[last]];
    }
  }

  lemma TopCommutes<T>(a: seq<T>, b: seq<T>, n: nat, key: T -> Scored)
    requires KeyedApart(a + b, key)
    ensures Top(a + b, n, key) == Top(b + a, n, key)
  {
    RankOrderFree(a + b, b + a, key);
  }

  lemma TopMerge<T>(a: seq<T>, b: seq<T>, n: nat, key: T -> Scored)
    requires KeyedApart(a + b, key)
    ensures Top(a + b, n, key) == Top(Top(a, n, key) + Top(b, n, key), n, key)
  {
    var ta := Top(a, n, key);
    TopLength(a, n, key);
    TopPrune(a, b, n, key);
    TopCommutes(ta, b, n, key);
    TopPrune(b, ta, n, key);
    TopLength(b, n, key);
    TopCommutes(Top(b, n, key), ta, n, key);
  }

  function Concat<T>(parts: seq<seq<T>>): seq<T> {
    if parts == [] then [] else Concat(parts[..|parts| - 1]) + parts[|parts| - 1]
  }

  function TopOfEach<T>(parts: seq<seq<T>>, n: nat, key: T -> Scored): seq<seq<T>> {
    seq(|parts|, i requires 0 <= i < |parts| => Top(parts[i], n, key))
  }

  /** Merging the best n of every part gives the best n of the whole, however it is cut up. */
  lemma {:induction false} TopOfParts<T>(parts: seq<seq<T>>, n: nat, key: T -> Scored)
    requires KeyedApart(Concat(parts), key)
    ensures Top(Concat(TopOfEach(parts, n, key)), n, key) == Top(Concat(parts), n, key)
  {
    if parts != [] {
      var last := |parts| - 1;
      var init := parts[..last];
      var whole, tops := Concat(init), Concat(TopOfEach(init, n, key));
      TopOfParts(init, n, key);
      assert TopOfEach(parts, n, key)[..last] == TopOfEach(init, n, key);
      TopMerge(whole, parts[last], n, key);
      TopPrune(tops, Top(parts[last], n, key), n, key);
    }
  }

  // ---------- Relabelling rows ----------

  function MapSeq<T, U>(s: seq<T>, f: T -> U): seq<U> {
    seq(|s|, i requires 0 <= i < |s| => f(s[i]))
  }

  ghost predicate KeepsOrder<T, U>(s: seq<T>, f: T -> U, key: T -> Scored, key': U -> Scored) {
    forall x, y | x in s && y in s :: Before(key'(f(x)), key'(f(y))) <==> Before(key(x), key(y))
  }

  lemma {:induction false} InsertMapped<T, U>(s: seq<T>, x: T, f: T -> U, key: T -> Scored, key': U -> Scored)
    requires KeepsOrder(s + [x], f, key, key')
    ensures InsertRanked(MapSeq(s, f), f(x), key') == MapSeq(InsertRanked(s, x, key), f)
  {
    if s != [] {
      var last := |s| - 1;
      assert s[last] in s + [x] && x in s + [x];
      assert MapSeq(s, f)[..last] == MapSeq(s[..last], f);
      if Before(key(x), key(s[last])) {
        assert forall y | y in s[..last] + [x] :: y in s + [x];
        InsertMapped(s[..last], x, f, key, key');
      }
    }
  }

  /** A relabelling that keeps the order of keys commutes with ranking and truncating. */
  lemma {:induction false} RankMapped<T, U>(s: seq<T>, f: T -> U, key: T -> Scored, key': U -> Scored)
    requires KeepsOrder(s, f, key, key')
    ensures Rank(MapSeq(s, f), key') == MapSeq(Rank(s, key), f)
  {
    if s != [] {
      var last := |s| - 1;
      var init := s[..last];
      RankMapped(init, f, key, key');
      RankMeaning(init, key);
      assert MapSeq(s, f)[..last] == MapSeq(init, f);
      forall y | y in Rank(init, key) + [s[last]]
        ensures y in s
      {
        if y in Rank(init, key) {
          assert y in multiset(Rank(init, key));
        }
      }
      InsertMapped(Rank(init, key), s[last], f, key, key');
    }
  }

  lemma TopMapped<T, U>(s: seq<T>, n: nat, f: T -> U, key: T -> Scored, key': U -> Scored)
    requires KeepsOrder(s, f, key, key')
    ensures Top(MapSeq(s, f), n, key') == MapSeq(Top(s, n, key), f)
  {
    RankMapped(s, f, key, key');
  }
}
