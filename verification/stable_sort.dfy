// The order theory behind HASH_SRT and the INORDER form of HASH_ADD.
module StableSort {
  import opened Common

  /** cmp(x, y) <= 0 is a total preorder on the elements of S. */
  ghost predicate TotalPreorder<T>(cmp: (T, T) -> int, S: set<T>) {
    && (forall x, y | x in S && y in S :: cmp(x, y) <= 0 || cmp(y, x) <= 0)
    && (forall x, y, z | x in S && y in S && z in S && cmp(x, y) <= 0 && cmp(y, z) <= 0 :: cmp(x, z) <= 0)
  }

  ghost predicate Within<T>(s: seq<T>, S: set<T>) {
    forall x | x in s :: x in S
  }

  ghost predicate Sorted<T>(s: seq<T>, cmp: (T, T) -> int) {
    forall i, j | 0 <= i < j < |s| :: cmp(s[i], s[j]) <= 0
  }

  ghost predicate Equivalent<T>(x: T, y: T, cmp: (T, T) -> int) {
    cmp(x, y) <= 0 && cmp(y, x) <= 0
  }

  /** The elements of s that tie with x, in the order in which they stand in s. */
  ghost function TiesOf<T>(s: seq<T>, x: T, cmp: (T, T) -> int): seq<T> {
    if s == [] then []
    else (if Equivalent(s[0], x, cmp) then [s[0]] else []) + TiesOf(s[1..], x, cmp)
  }

  /** t is a stable sorted arrangement of s. */
  ghost predicate StablySorts<T>(t: seq<T>, s: seq<T>, cmp: (T, T) -> int) {
    && Sorted(t, cmp)
    && multiset(t) == multiset(s)
    && forall x | x in s :: TiesOf(t, x, cmp) == TiesOf(s, x, cmp)
  }

  // ----- Insertion, as the INORDER form of HASH_ADD does it -----

  /** x goes in front of the first element that compares greater than x. */
  ghost function Insert<T>(s: seq<T>, x: T, cmp: (T, T) -> int): seq<T> {
    if s == [] then [x]
    else if cmp(s[0], x) > 0 then [x] + s
    else [s[0]] + Insert(s[1..], x, cmp)
  }

  ghost function InsertAll<T>(s: seq<T>, cmp: (T, T) -> int): seq<T> {
    if s == [] then []
    else Insert(InsertAll(s[..|s| - 1], cmp), s[|s| - 1], cmp)
  }

  lemma {:induction false} InsertElements<T>(s: seq<T>, x: T, cmp: (T, T) -> int)
    ensures multiset(Insert(s, x, cmp)) == multiset(s) + multiset{x}
    ensures |Insert(s, x, cmp)| == |s| + 1
    ensures forall y | y in Insert(s, x, cmp) :: y in s || y == x
  {
    if s == [] || cmp(s[0], x) > 0 {
    } else {
      InsertElements(s[1..], x, cmp);
      assert s == [s[0]] + s[1..];
    }
  }

  lemma {:induction false} InsertAllElements<T>(s: seq<T>, cmp: (T, T) -> int)
    ensures multiset(InsertAll(s, cmp)) == multiset(s)
    ensures |InsertAll(s, cmp)| == |s|
    ensures forall y | y in InsertAll(s, cmp) :: y in s
  {
    if s == [] {
    } else {
      var r, x := s[..|s| - 1], s[|s| - 1];
      InsertAllElements(r, cmp);
      InsertElements(InsertAll(r, cmp), x, cmp);
      assert s == r + [x];
    }
  }

  lemma {:induction false} InsertSorted<T>(s: seq<T>, x: T, cmp: (T, T) -> int, S: set<T>)
    requires TotalPreorder(cmp, S) && Within(s, S) && x in S
    requires Sorted(s, cmp)
    ensures Sorted(Insert(s, x, cmp), cmp)
  {
    if s == [] {
    } else if cmp(s[0], x) > 0 {
      HeadGreater(s, x, cmp, S);
    } else {
      var t := s[1..];
      InsertSorted(t, x, cmp, S) by { WithinTail(s, S); }
      InsertElements(t, x, cmp);
      var r := Insert(t, x, cmp);
      assert Insert(s, x, cmp) == [s[0]] + r;
      hide Insert;
      forall j | 0 <= j < |r| ensures cmp(s[0], r[j]) <= 0 {
        var y := r[j];
        assert y in r;
        if y in t {
          var k :| 0 <= k < |t| && t[k] == y;
          assert s[k + 1] == y && cmp(s[0], s[k + 1]) <= 0;
        }
      }
    }
  }

  lemma WithinTail<T>(s: seq<T>, S: set<T>)
    requires s != [] && Within(s, S)
    ensures s[0] in S && Within(s[1..], S) && s == [s[0]] + s[1..]
  {
    assert s[0] in s;
    assert forall y | y in s[1..] :: y in s;
  }

  /** In a sorted list whose head is greater than x, every element is strictly greater than x. */
  lemma HeadGreater<T>(s: seq<T>, x: T, cmp: (T, T) -> int, S: set<T>)
    requires TotalPreorder(cmp, S) && Within(s, S) && x in S
    requires s != [] && Sorted(s, cmp) && cmp(s[0], x) > 0
    ensures forall i | 0 <= i < |s| :: cmp(x, s[i]) <= 0 && cmp(s[i], x) > 0
  {
    forall i | 0 <= i < |s| ensures cmp(x, s[i]) <= 0 && cmp(s[i], x) > 0 {
      assert s[i] in s && s[0] in s;
      assert i == 0 || cmp(s[0], s[i]) <= 0;
    }
  }

  /** Insertion puts x behind every element it ties with and moves nothing else. */
  lemma {:induction false} InsertTies<T>(s: seq<T>, x: T, z: T, cmp: (T, T) -> int, S: set<T>)
    requires TotalPreorder(cmp, S) && Within(s, S) && x in S && z in S
    requires Sorted(s, cmp)
    ensures TiesOf(Insert(s, x, cmp), z, cmp) == TiesOf(s, z, cmp) + (if Equivalent(x, z, cmp) then [x] else [])
  {
    if s == [] {
    } else if cmp(s[0], x) > 0 {
      TiesOfCons(x, s, z, cmp);
      if Equivalent(x, z, cmp) {
        HeadGreater(s, x, cmp, S);
        NoTies(s, z, cmp);
      }
    } else {
      var r := Insert(s[1..], x, cmp);
      WithinTail(s, S);
      InsertTies(s[1..], x, z, cmp, S);
      TiesOfCons(s[0], s[1..], z, cmp);
      TiesOfCons(s[0], r, z, cmp);
    }
  }

  lemma TiesOfCons<T>(x: T, s: seq<T>, z: T, cmp: (T, T) -> int)
    ensures TiesOf([x] + s, z, cmp) == (if Equivalent(x, z, cmp) then [x] else []) + TiesOf(s, z, cmp)
  {
    assert ([x] + s)[1..] == s;
  }

  lemma {:induction false} NoTies<T>(s: seq<T>, z: T, cmp: (T, T) -> int)
    requires forall y | y in s :: !Equivalent(y, z, cmp)
    ensures TiesOf(s, z, cmp) == []
  {
    if s != [] {
      assert s[0] in s;
      NoTies(s[1..], z, cmp);
    }
  }

  lemma {:induction false} TiesOfConcat<T>(s: seq<T>, t: seq<T>, z: T, cmp: (T, T) -> int)
    ensures TiesOf(s + t, z, cmp) == TiesOf(s, z, cmp) + TiesOf(t, z, cmp)
  {
    if s == [] {
      assert s + t == t;
    } else {
      TiesOfConcat(s[1..], t, z, cmp);
      assert s + t == [s[0]] + (s[1..] + t);
      TiesOfCons(s[0], s[1..] + t, z, cmp);
    }
  }

  lemma {:induction false} InsertAllSorted<T>(s: seq<T>, cmp: (T, T) -> int, S: set<T>)
    requires TotalPreorder(cmp, S) && Within(s, S)
    ensures Sorted(InsertAll(s, cmp), cmp) && Within(InsertAll(s, cmp), S)
  {
    if s != [] {
      var r, x := s[..|s| - 1], s[|s| - 1];
      WithinLast(s, S);
      InsertAllSorted(r, cmp, S);
      InsertElements(InsertAll(r, cmp), x, cmp);
      forall y | y in InsertAll(s, cmp) ensures y in S {
        assert y in Insert(InsertAll(r, cmp), x, cmp);
      }
      InsertSorted(InsertAll(r, cmp), x, cmp, S);
    }
  }

  lemma WithinLast<T>(s: seq<T>, S: set<T>)
    requires s != [] && Within(s, S)
    ensures s[|s| - 1] in S && Within(s[..|s| - 1], S) && s == s[..|s| - 1] + [s[|s| - 1]]
  {
    assert s[|s| - 1] in s;
    assert forall y | y in s[..|s| - 1] :: y in s;
  }

  lemma {:induction false} InsertAllTies<T>(s: seq<T>, z: T, cmp: (T, T) -> int, S: set<T>)
    requires TotalPreorder(cmp, S) && Within(s, S) && z in S
    ensures TiesOf(InsertAll(s, cmp), z, cmp) == TiesOf(s, z, cmp)
  {
    if s != [] {
      var r, x := s[..|s| - 1], s[|s| - 1];
      WithinLast(s, S);
      InsertAllTies(r, z, cmp, S);
      InsertAllSorted(r, cmp, S);
      InsertTies(InsertAll(r, cmp), x, z, cmp, S);
      TiesOfConcat(r, [x], z, cmp);
      assert TiesOf([x], z, cmp) == if Equivalent(x, z, cmp) then [x] else [];
    }
  }

  /** Inserting elements one by one keeps the list sorted after every step and never reorders ties. */
  lemma InsertAllStablySorts<T>(s: seq<T>, cmp: (T, T) -> int, S: set<T>)
    requires TotalPreorder(cmp, S) && Within(s, S)
    ensures StablySorts(InsertAll(s, cmp), s, cmp)
  {
    InsertAllElements(s, cmp);
    InsertAllSorted(s, cmp, S);
    forall z | z in s ensures TiesOf(InsertAll(s, cmp), z, cmp) == TiesOf(s, z, cmp) {
      InsertAllTies(s, z, cmp, S);
    }
  }

  /** There is only one stable sorted arrangement. */
  lemma {:induction false} StableSortUnique<T>(t: seq<T>, u: seq<T>, s: seq<T>, cmp: (T, T) -> int, S: set<T>)
    requires TotalPreorder(cmp, S) && Within(s, S)
    requires StablySorts(t, s, cmp) && StablySorts(u, s, cmp)
    ensures t == u
  {
    forall y ensures (y in t <==> y in s) && (y in u <==> y in s) {
      assert y in t <==> y in multiset(t);
      assert y in s <==> y in multiset(s);
      assert y in u <==> y in multiset(u);
    }
    SortedTiesUnique(t, u, cmp, S);
  }

  ghost predicate SameTies<T>(t: seq<T>, u: seq<T>, cmp: (T, T) -> int) {
    forall x | x in t + u :: TiesOf(t, x, cmp) == TiesOf(u, x, cmp)
  }

  lemma {:induction false} SortedTiesUnique<T>(t: seq<T>, u: seq<T>, cmp: (T, T) -> int, S: set<T>)
    requires TotalPreorder(cmp, S) && Within(t, S) && Within(u, S)
    requires Sorted(t, cmp) && Sorted(u, cmp) && SameTies(t, u, cmp)
    ensures t == u
  {
    hide TiesOf;
    if t == [] {
      if u != [] { WithinTail(u, S); OwnTie(t, u, cmp); }
    } else if u == [] {
      WithinTail(t, S);
      OwnTie(u, t, cmp);
    } else {
      WithinTail(t, S);
      WithinTail(u, S);
      HeadIsLeast(t, u, cmp, S);
      HeadIsLeast(u, t, cmp, S);
      SameHead(t, u, cmp);
      SameTiesTail(t, u, cmp);
      SortedTiesUnique(t[1..], u[1..], cmp, S);
    }
  }

  lemma SameHead<T>(t: seq<T>, u: seq<T>, cmp: (T, T) -> int)
    requires t != [] && u != [] && Equivalent(t[0], t[0], cmp) && Equivalent(u[0], t[0], cmp)
    requires TiesOf(t, t[0], cmp) == TiesOf(u, t[0], cmp)
    ensures t[0] == u[0]
  {
    assert TiesOf(t, t[0], cmp)[0] == t[0] && TiesOf(u, t[0], cmp)[0] == u[0];
  }

  lemma OwnTie<T>(t: seq<T>, u: seq<T>, cmp: (T, T) -> int)
    requires u != [] && Equivalent(u[0], u[0], cmp)
    requires TiesOf(t, u[0], cmp) == TiesOf(u, u[0], cmp)
    ensures t != []
  {
  }

  lemma SameTiesTail<T>(t: seq<T>, u: seq<T>, cmp: (T, T) -> int)
    requires t != [] && u != [] && t[0] == u[0] && SameTies(t, u, cmp)
    ensures SameTies(t[1..], u[1..], cmp)
  {
    forall x | x in t[1..] + u[1..] ensures TiesOf(t[1..], x, cmp) == TiesOf(u[1..], x, cmp) {
      assert x in t + u;
      var h := if Equivalent(t[0], x, cmp) then [t[0]] else [];
      assert h + TiesOf(t[1..], x, cmp) == h + TiesOf(u[1..], x, cmp);
      assert TiesOf(t[1..], x, cmp) == (h + TiesOf(t[1..], x, cmp))[|h|..];
      assert TiesOf(u[1..], x, cmp) == (h + TiesOf(u[1..], x, cmp))[|h|..];
    }
  }

  /** The head of u is also in t's first tie group, so u's head is not greater than t's. */
  lemma HeadIsLeast<T>(t: seq<T>, u: seq<T>, cmp: (T, T) -> int, S: set<T>)
    requires TotalPreorder(cmp, S) && Within(t, S) && Within(u, S)
    requires t != [] && u != [] && Sorted(u, cmp)
    requires TiesOf(t, t[0], cmp) == TiesOf(u, t[0], cmp)
    ensures cmp(u[0], t[0]) <= 0
  {
    assert t[0] in t && t[0] in S && u[0] in u && u[0] in S;
    assert TiesOf(u, t[0], cmp)[0] == t[0];
    TiesAreElements(u, t[0], cmp);
    assert t[0] in u;
    var k :| 0 <= k < |u| && u[k] == t[0];
  }

  lemma {:induction false} TiesAreElements<T>(s: seq<T>, z: T, cmp: (T, T) -> int)
    ensures forall y | y in TiesOf(s, z, cmp) :: y in s
  {
    if s != [] {
      TiesAreElements(s[1..], z, cmp);
    }
  }

  // ----- Merging, as HASH_SRT does it -----

  /** The inner merge loop of HASH_SRT: the left run wins ties. */
  ghost function Merge<T>(a: seq<T>, b: seq<T>, cmp: (T, T) -> int): seq<T> {
    if a == [] then b
    else if b == [] then a
    else if cmp(a[0], b[0]) <= 0 then [a[0]] + Merge(a[1..], b, cmp)
    else [b[0]] + Merge(a, b[1..], cmp)
  }

  /** One pass of HASH_SRT: neighbouring runs of length k are merged pairwise. */
  ghost function MergePass<T>(s: seq<T>, k: nat, cmp: (T, T) -> int): seq<T>
    requires k > 0
    decreases |s|
  {
    if s == [] then []
    else
      var p, q := Min(k, |s|), Min(2 * k, |s|);
      Merge(s[..p], s[p..q], cmp) + MergePass(s[q..], k, cmp)
  }

  /** The outer loop of HASH_SRT: passes with doubled run length until one merge covers the list. */
  ghost function MergeSort<T>(s: seq<T>, k: nat, cmp: (T, T) -> int): seq<T>
    requires k > 0
    decreases |s| - 2 * k
  {
    if |s| <= 2 * k then MergePass(s, k, cmp)
    else
      MergePassLength(s, k, cmp);
      MergeSort(MergePass(s, k, cmp), 2 * k, cmp)
  }

  lemma {:induction false} MergeLength<T>(a: seq<T>, b: seq<T>, cmp: (T, T) -> int)
    ensures |Merge(a, b, cmp)| == |a| + |b|
  {
    if a == [] || b == [] {
    } else if cmp(a[0], b[0]) <= 0 {
      MergeLength(a[1..], b, cmp);
    } else {
      MergeLength(a, b[1..], cmp);
    }
  }

  lemma {:induction false} MergePassLength<T>(s: seq<T>, k: nat, cmp: (T, T) -> int)
    requires k > 0
    ensures |MergePass(s, k, cmp)| == |s|
    decreases |s|
  {
    if s != [] {
      var p, q := Min(k, |s|), Min(2 * k, |s|);
      MergeLength(s[..p], s[p..q], cmp);
      MergePassLength(s[q..], k, cmp);
    }
  }

  /** Merging commutes with inserting one more element on the right. */
  lemma {:induction false} MergeInsert<T>(a: seq<T>, b: seq<T>, x: T, cmp: (T, T) -> int, S: set<T>)
    requires TotalPreorder(cmp, S) && Within(a, S) && Within(b, S) && x in S
    ensures Merge(a, Insert(b, x, cmp), cmp) == Insert(Merge(a, b, cmp), x, cmp)
    decreases |a| + |b|
  {
    if a == [] {
    } else if b == [] {
      assert a[0] in a;
      if cmp(a[0], x) <= 0 {
        MergeInsert(a[1..], b, x, cmp, S);
        assert Merge(a[1..], [], cmp) == a[1..];
        assert Merge(a, [x], cmp) == [a[0]] + Merge(a[1..], [x], cmp);
      } else {
        assert [x][1..] == [];
        assert Merge(a, [], cmp) == a;
      }
    } else {
      assert a[0] in a && b[0] in b;
      assert a[0] in S && b[0] in S;
      var ib := Insert(b, x, cmp);
      var m := Merge(a, b, cmp);
      if cmp(a[0], b[0]) <= 0 {
        assert m == [a[0]] + Merge(a[1..], b, cmp);
        assert m[1..] == Merge(a[1..], b, cmp);
        MergeInsert(a[1..], b, x, cmp, S);
        if cmp(b[0], x) > 0 {
          assert ib == [x] + b && ib[1..] == b;
        }
      } else {
        assert m == [b[0]] + Merge(a, b[1..], cmp);
        assert m[1..] == Merge(a, b[1..], cmp);
        MergeInsert(a, b[1..], x, cmp, S);
        if cmp(b[0], x) > 0 {
          assert ib == [x] + b && ib[1..] == b;
        } else {
          assert ib == [b[0]] + Insert(b[1..], x, cmp);
          assert ib[1..] == Insert(b[1..], x, cmp);
        }
      }
    }
  }

  /** Merging the stable sorts of two stretches is the stable sort of both in sequence. */
  lemma {:induction false} MergeInsertAll<T>(a: seq<T>, b: seq<T>, cmp: (T, T) -> int, S: set<T>)
    requires TotalPreorder(cmp, S) && Within(a, S) && Within(b, S)
    ensures Merge(InsertAll(a, cmp), InsertAll(b, cmp), cmp) == InsertAll(a + b, cmp)
  {
    if b == [] {
      assert a + b == a;
    } else {
      var r, x := b[..|b| - 1], b[|b| - 1];
      assert (a + b)[..|a + b| - 1] == a + r;
      WithinLast(b, S);
      MergeInsertAll(a, r, cmp, S);
      InsertAllSorted(a, cmp, S);
      InsertAllSorted(r, cmp, S);
      MergeInsert(InsertAll(a, cmp), InsertAll(r, cmp), x, cmp, S);
    }
  }

  /** The list between passes: consecutive stretches of length k of s, each stably sorted. */
  ghost function Runs<T>(s: seq<T>, k: nat, cmp: (T, T) -> int): seq<T>
    requires k > 0
    decreases |s|
  {
    if |s| <= k then InsertAll(s, cmp)
    else InsertAll(s[..k], cmp) + Runs(s[k..], k, cmp)
  }

  lemma {:induction false} RunsElements<T>(s: seq<T>, k: nat, cmp: (T, T) -> int)
    requires k > 0
    ensures |Runs(s, k, cmp)| == |s|
    decreases |s|
  {
    if |s| <= k {
      InsertAllElements(s, cmp);
    } else {
      InsertAllElements(s[..k], cmp);
      RunsElements(s[k..], k, cmp);
    }
  }

  lemma {:induction false} RunsOfOne<T>(s: seq<T>, cmp: (T, T) -> int)
    ensures Runs(s, 1, cmp) == s
  {
    if |s| <= 1 {
      assert s == [] || InsertAll(s, cmp) == Insert(InsertAll([], cmp), s[0], cmp);
    } else {
      RunsOfOne(s[1..], cmp);
      assert s[..1] == [s[0]] && s[..1][..0] == [];
      assert InsertAll(s[..1], cmp) == [s[0]];
    }
  }

  lemma WithinSplit<T>(s: seq<T>, i: nat, j: nat, S: set<T>)
    requires i <= j <= |s| && Within(s, S)
    ensures Within(s[..i], S) && Within(s[i..j], S) && Within(s[j..], S)
    ensures s[..i] + s[i..j] == s[..j]
  {
    assert forall y | y in s[..i] :: y in s;
    assert forall y | y in s[i..j] :: y in s;
    assert forall y | y in s[j..] :: y in s;
  }

  /** A pass doubles the length of the sorted runs. */
  lemma {:induction false} PassDoublesRuns<T>(s: seq<T>, k: nat, cmp: (T, T) -> int, S: set<T>)
    requires k > 0 && TotalPreorder(cmp, S) && Within(s, S)
    ensures MergePass(Runs(s, k, cmp), k, cmp) == Runs(s, 2 * k, cmp)
    decreases |s|
  {
    var r := Runs(s, k, cmp);
    var p, q := Min(k, |s|), Min(2 * k, |s|);
    RunsElements(s, k, cmp);
    if s != [] {
      WithinSplit(s, p, q, S);
      RunsSplit(s, k, p, q, cmp);
      MergeInsertAll(s[..p], s[p..q], cmp, S);
      PassDoublesRuns(s[q..], k, cmp, S);
      if q == |s| {
        assert s[..q] == s;
      }
    }
  }

  lemma RunsSplit<T>(s: seq<T>, k: nat, p: nat, q: nat, cmp: (T, T) -> int)
    requires k > 0 && p == Min(k, |s|) && q == Min(2 * k, |s|)
    ensures |Runs(s, k, cmp)| == |s|
    ensures Runs(s, k, cmp)[..p] == InsertAll(s[..p], cmp)
    ensures Runs(s, k, cmp)[p..q] == InsertAll(s[p..q], cmp)
    ensures Runs(s, k, cmp)[q..] == Runs(s[q..], k, cmp)
  {
    hide Runs, InsertAll;
    var t, r := s[p..], Runs(s, k, cmp);
    RunsHead(s, k, p, cmp);
    RunsHead(t, k, q - p, cmp);
    SliceOfSuffix(s, p, q - p);
    SliceOfSuffix(r, p, q - p);
    hide Min;
    assert r[p..] == Runs(t, k, cmp);
    assert r[p..q] == r[p..][..q - p] && t[..q - p] == s[p..q];
    assert r[q..] == r[p..][q - p..] && t[q - p..] == s[q..];
  }

  lemma SliceOfSuffix<T>(s: seq<T>, k: nat, m: nat)
    requires k + m <= |s|
    ensures s[k..][..m] == s[k..k + m] && s[k..][m..] == s[k + m..]
  {
  }

  lemma RunsHead<T>(s: seq<T>, k: nat, p: nat, cmp: (T, T) -> int)
    requires k > 0 && p == Min(k, |s|)
    ensures |Runs(s, k, cmp)| == |s|
    ensures Runs(s, k, cmp)[..p] == InsertAll(s[..p], cmp)
    ensures Runs(s, k, cmp)[p..] == Runs(s[p..], k, cmp)
  {
    RunsElements(s, k, cmp);
    InsertAllElements(s[..p], cmp);
    if |s| <= k {
      assert s[..p] == s;
    }
  }

  lemma {:induction false} MergeSortOfRuns<T>(s: seq<T>, k: nat, cmp: (T, T) -> int, S: set<T>)
    requires k > 0 && TotalPreorder(cmp, S) && Within(s, S)
    ensures MergeSort(Runs(s, k, cmp), k, cmp) == InsertAll(s, cmp)
    decreases |s| - 2 * k
  {
    RunsElements(s, k, cmp);
    PassDoublesRuns(s, k, cmp, S);
    if |s| > 2 * k {
      MergeSortOfRuns(s, 2 * k, cmp, S);
    }
  }

  /** HASH_SRT and adding in order are the same stable sort. */
  lemma MergeSortIsInsertAll<T>(s: seq<T>, cmp: (T, T) -> int, S: set<T>)
    requires TotalPreorder(cmp, S) && Within(s, S)
    ensures MergeSort(s, 1, cmp) == InsertAll(s, cmp)
    ensures StablySorts(MergeSort(s, 1, cmp), s, cmp)
  {
    RunsOfOne(s, cmp);
    MergeSortOfRuns(s, 1, cmp, S);
    InsertAllStablySorts(s, cmp, S);
  }

  // ----- For any comparison function at all, sorting only permutes -----

  lemma MultisetOfCons<T>(s: seq<T>)
    requires s != []
    ensures multiset(s) == multiset{s[0]} + multiset(s[1..])
  {
    assert s == [s[0]] + s[1..];
  }

  lemma {:induction false} MergeElements<T>(a: seq<T>, b: seq<T>, cmp: (T, T) -> int)
    ensures multiset(Merge(a, b, cmp)) == multiset(a) + multiset(b)
  {
    if a == [] || b == [] {
    } else if cmp(a[0], b[0]) <= 0 {
      MergeElements(a[1..], b, cmp);
      MultisetOfCons(a);
    } else {
      MergeElements(a, b[1..], cmp);
      MultisetOfCons(b);
    }
  }

  lemma MultisetOfCut<T>(s: seq<T>, p: nat, q: nat)
    requires p <= q <= |s|
    ensures multiset(s) == multiset(s[..p]) + multiset(s[p..q]) + multiset(s[q..])
  {
    assert s == s[..p] + s[p..q] + s[q..];
  }

  lemma {:induction false} MergePassElements<T>(s: seq<T>, k: nat, cmp: (T, T) -> int)
    requires k > 0
    ensures multiset(MergePass(s, k, cmp)) == multiset(s)
    decreases |s|
  {
    if s != [] {
      var p, q := Min(k, |s|), Min(2 * k, |s|);
      var m := Merge(s[..p], s[p..q], cmp);
      assert MergePass(s, k, cmp) == m + MergePass(s[q..], k, cmp);
      MergeElements(s[..p], s[p..q], cmp);
      MergePassElements(s[q..], k, cmp);
      hide Merge, MergePass;
      MultisetOfCut(s, p, q);
    }
  }

  lemma {:induction false} MergeSortElements<T>(s: seq<T>, k: nat, cmp: (T, T) -> int)
    requires k > 0
    ensures multiset(MergeSort(s, k, cmp)) == multiset(s)
    decreases |s| - 2 * k
  {
    MergePassElements(s, k, cmp);
    if |s| > 2 * k {
      MergePassLength(s, k, cmp);
      MergeSortElements(MergePass(s, k, cmp), 2 * k, cmp);
    }
  }
}