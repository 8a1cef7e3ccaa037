// The on-disk image of a folder map, and what loading it makes of the chains.
module FolderImage {
  import opened ChainMap
  import opened Common

  const DFS_MAX_SUB_ENTRIES: nat := 128

  /** Chain c backwards. */
  ghost function Reverse<D>(c: Chain<D>): Chain<D> {
    if c == [] then [] else [c[|c| - 1]] + Reverse(c[..|c| - 1])
  }

  /** The entries of l that belong to bucket b, backwards. */
  ghost function BucketReversed<D>(l: Chain<D>, b: nat): Chain<D> {
    if l == [] then []
    else (if Hash(l[|l| - 1].key) == b then [l[|l| - 1]] else []) + BucketReversed(l[..|l| - 1], b)
  }

  /** dfs_load_folder_from_disk: insert the listed entries one after the other into an empty map. */
  ghost function Load<D>(l: Chain<D>, eq: KeyEq): (m: Chains<D>)
    ensures Shape(m)
  {
    if l == [] then Empty()
    else var e := l[|l| - 1]; Insert(Load(l[..|l| - 1], eq), e.key, e.value.data, eq)
  }

  /** dfs_load_folder_children: the same, but a name that is already there is skipped. */
  ghost function LoadChildren<D>(l: Chain<D>, eq: KeyEq): (m: Chains<D>)
    ensures Shape(m)
  {
    if l == [] then Empty()
    else
      var e, m := l[|l| - 1], LoadChildren(l[..|l| - 1], eq);
      if Find(m, e.key, eq) != None then m else Insert(m, e.key, e.value.data, eq)
  }

  /** Load where the allocation of a hash node can fail: the entry is lost then, unless its key is there already. */
  ghost function LoadUnder<D>(l: Chain<D>, noNode: nat -> bool, eq: KeyEq): (m: Chains<D>)
    ensures Shape(m)
  {
    if l == [] then Empty()
    else
      var e, m := l[|l| - 1], LoadUnder(l[..|l| - 1], noNode, eq);
      if noNode(|l| - 1) && Find(m, e.key, eq) == None then m else Insert(m, e.key, e.value.data, eq)
  }

  lemma {:induction false} LoadWithMemory<D>(l: Chain<D>, noNode: nat -> bool, eq: KeyEq)
    requires forall i: nat | i < |l| :: !noNode(i)
    ensures LoadUnder(l, noNode, eq) == Load(l, eq)
  {
    if l != [] {
      LoadWithMemory(l[..|l| - 1], noNode, eq);
    }
  }

  /** The other loader: it gives up when it gets no memory for a directory struct. The flag says whether it went through. */
  ghost function LoadChildrenUnder<D>(l: Chain<D>, noStruct: nat -> bool, noNode: nat -> bool, eq: KeyEq): (r: (Chains<D>, bool))
    ensures Shape(r.0)
  {
    if l == [] then (Empty(), true)
    else
      var e, i := l[|l| - 1], |l| - 1;
      var (m, ok) := LoadChildrenUnder(l[..i], noStruct, noNode, eq);
      if !ok || Find(m, e.key, eq) != None then (m, ok)
      else if noStruct(i) then (m, false)
      else if noNode(i) then (m, true)
      else (Insert(m, e.key, e.value.data, eq), true)
  }

  lemma {:induction false} LoadChildrenWithMemory<D>(l: Chain<D>, noStruct: nat -> bool, noNode: nat -> bool, eq: KeyEq)
    requires forall i: nat | i < |l| :: !noStruct(i) && !noNode(i)
    ensures LoadChildrenUnder(l, noStruct, noNode, eq) == (LoadChildren(l, eq), true)
  {
    if l != [] {
      LoadChildrenWithMemory(l[..|l| - 1], noStruct, noNode, eq);
    }
  }

  // ----- What is lost without memory -----

  /** Of a list without repetitions, exactly the entries for which there was no hash node are missing. */
  lemma {:induction false} FoundUnder<D>(l: Chain<D>, noNode: nat -> bool, eq: KeyEq, key: string)
    requires Listed(l) && UniqueKeys(l) && IsEquality(eq)
    ensures Good(LoadUnder(l, noNode, eq))
    ensures forall i | 0 <= i < |l| && l[i].key == key ::
      Find(LoadUnder(l, noNode, eq), key, eq) == if noNode(i) then None else Some(l[i].value)
    ensures (forall i | 0 <= i < |l| :: l[i].key != key) ==> Find(LoadUnder(l, noNode, eq), key, eq) == None
  {
    hide Find, Insert, Good, IsEquality;
    if l == [] {
      EmptyLaw<D>(key, eq);
    } else {
      var r, e := l[..|l| - 1], l[|l| - 1];
      FoundUnder(r, noNode, eq, key);
      FoundUnder(r, noNode, eq, e.key);
      assert forall i | 0 <= i < |r| :: r[i].key == l[i].key;
      InsertLaw(LoadUnder(r, noNode, eq), e.key, e.value.data, key, eq);
    }
  }

  /** The other loader reads on up to the first entry without memory for its struct. */
  lemma {:induction false} FoundChildrenUnder<D>(l: Chain<D>, noStruct: nat -> bool, noNode: nat -> bool, eq: KeyEq, key: string)
    requires Listed(l) && UniqueKeys(l) && IsEquality(eq)
    ensures Good(LoadChildrenUnder(l, noStruct, noNode, eq).0)
    ensures LoadChildrenUnder(l, noStruct, noNode, eq).1 <==> forall i: nat | i < |l| :: !noStruct(i)
    ensures forall i: nat | i < |l| && l[i].key == key ::
      Find(LoadChildrenUnder(l, noStruct, noNode, eq).0, key, eq) == if (exists j: nat :: j <= i && noStruct(j)) || noNode(i) then None else Some(l[i].value)
    ensures (forall i | 0 <= i < |l| :: l[i].key != key) ==> Find(LoadChildrenUnder(l, noStruct, noNode, eq).0, key, eq) == None
  {
    hide Find, Insert, Good, IsEquality;
    if l == [] {
      EmptyLaw<D>(key, eq);
    } else {
      var r, e := l[..|l| - 1], l[|l| - 1];
      FoundChildrenUnder(r, noStruct, noNode, eq, key);
      FoundChildrenUnder(r, noStruct, noNode, eq, e.key);
      assert forall i | 0 <= i < |r| :: r[i].key == l[i].key;
      InsertLaw(LoadChildrenUnder(r, noStruct, noNode, eq).0, e.key, e.value.data, key, eq);
    }
  }

  /** A list of entries with short keys that repeat them in the name field. */
  ghost predicate Listed<D>(l: Chain<D>) {
    forall i {:trigger l[i]} | 0 <= i < |l| :: |l[i].key| <= MAX_NAME && l[i].value.name == l[i].key
  }

  // ----- What a lookup finds after loading -----

  /** The last entry of the list with this key wins. */
  ghost function LastWith<D>(l: Chain<D>, key: string): Option<Info<D>> {
    if l == [] then None
    else if l[|l| - 1].key == key then Some(l[|l| - 1].value)
    else LastWith(l[..|l| - 1], key)
  }

  ghost function FirstWith<D>(l: Chain<D>, key: string): Option<Info<D>> {
    if l == [] then None
    else if l[0].key == key then Some(l[0].value)
    else FirstWith(l[1..], key)
  }

  lemma {:induction false} LoadFindsLast<D>(l: Chain<D>, key: string, eq: KeyEq)
    requires Listed(l) && IsEquality(eq)
    ensures Good(Load(l, eq)) && Find(Load(l, eq), key, eq) == LastWith(l, key)
  {
    hide Find, Insert, Good, IsEquality;
    if l == [] {
      EmptyLaw<D>(key, eq);
    } else {
      var e := l[|l| - 1];
      LoadFindsLast(l[..|l| - 1], key, eq);
      InsertLaw(Load(l[..|l| - 1], eq), e.key, e.value.data, key, eq);
    }
  }

  lemma {:induction false} LoadChildrenFindsFirst<D>(l: Chain<D>, key: string, eq: KeyEq)
    requires Listed(l) && IsEquality(eq)
    ensures Good(LoadChildren(l, eq)) && Find(LoadChildren(l, eq), key, eq) == FirstWith(l, key)
  {
    hide Find, Insert, Good, IsEquality;
    if l == [] {
      EmptyLaw<D>(key, eq);
    } else {
      var r, e := l[..|l| - 1], l[|l| - 1];
      LoadChildrenFindsFirst(r, key, eq);
      LoadChildrenFindsFirst(r, e.key, eq);
      InsertLaw(LoadChildren(r, eq), e.key, e.value.data, key, eq);
      FirstWithAppend(r, e, key);
      FirstWithAppend(r, e, e.key);
      assert l == r + [e];
    }
  }

  lemma {:induction false} FirstWithAppend<D>(r: Chain<D>, e: Entry<D>, key: string)
    ensures FirstWith(r + [e], key) == if FirstWith(r, key) != None then FirstWith(r, key) else if e.key == key then Some(e.value) else None
  {
    if r == [] {
      assert r + [e] == [e] && [e][1..] == [];
    } else {
      FirstWithAppend(r[1..], e, key);
      assert (r + [e])[1..] == r[1..] + [e];
    }
  }

  ghost predicate SameLookups<D>(m: Chains<D>, n: Chains<D>, eq: KeyEq)
    requires Shape(m) && Shape(n)
  {
    forall key :: Find(m, key, eq) == Find(n, key, eq)
  }

  ghost predicate NamesAgree<D>(l: Chain<D>) {
    forall key :: FirstWith(l, key) == LastWith(l, key)
  }

  /** The two loaders give the same lookups exactly if the first and the last entry under each name carry the same record. */
  lemma LoadersAgree<D>(l: Chain<D>, eq: KeyEq)
    requires Listed(l) && IsEquality(eq)
    ensures SameLookups(Load(l, eq), LoadChildren(l, eq), eq) <==> NamesAgree(l)
  {
    hide Load, LoadChildren, Find, IsEquality;
    forall key ensures LoadsBoth(l, key, eq) {
      LoadFindsLast(l, key, eq);
      LoadChildrenFindsFirst(l, key, eq);
    }
    if SameLookups(Load(l, eq), LoadChildren(l, eq), eq) {
      forall key ensures FirstWith(l, key) == LastWith(l, key) {
        assert LoadsBoth(l, key, eq);
      }
    }
    if NamesAgree(l) {
      forall key ensures Find(Load(l, eq), key, eq) == Find(LoadChildren(l, eq), key, eq) {
        assert LoadsBoth(l, key, eq);
      }
    }
  }

  ghost predicate LoadsBoth<D>(l: Chain<D>, key: string, eq: KeyEq) {
    Find(Load(l, eq), key, eq) == LastWith(l, key) && Find(LoadChildren(l, eq), key, eq) == FirstWith(l, key)
  }

  // ----- Chains after loading -----

  lemma {:induction false} LoadReverses<D>(l: Chain<D>, b: nat, eq: KeyEq)
    requires Listed(l) && UniqueKeys(l) && IsEquality(eq) && b < BUCKETS
    ensures Load(l, eq)[b] == BucketReversed(l, b) && LoadChildren(l, eq)[b] == BucketReversed(l, b)
  {
    hide Hash, IsEquality;
    if l != [] {
      var r, e := l[..|l| - 1], l[|l| - 1];
      LoadReverses(r, b, eq);
      LoadReverses(r, Hash(e.key), eq);
      LoadFindsLast(r, e.key, eq);
      LoadChildrenFindsFirst(r, e.key, eq);
      AbsentEnds(r, e.key, eq);
      InsertAbsent(Load(r, eq), e, eq);
      InsertAbsent(LoadChildren(r, eq), e, eq);
    }
  }

  lemma {:induction false} AbsentEnds<D>(r: Chain<D>, key: string, eq: KeyEq)
    requires forall i | 0 <= i < |r| :: r[i].key != key
    ensures LastWith(r, key) == None && FirstWith(r, key) == None
  {
    if r != [] {
      AbsentEnds(r[..|r| - 1], key, eq);
      assert r == r[..|r| - 1] + [r[|r| - 1]];
      FirstWithAppend(r[..|r| - 1], r[|r| - 1], key);
    }
  }

  lemma InsertAbsent<D>(m: Chains<D>, e: Entry<D>, eq: KeyEq)
    requires Good(m) && Find(m, e.key, eq) == None && |e.key| <= MAX_NAME && e.value.name == e.key
    ensures Insert(m, e.key, e.value.data, eq) == m[Hash(e.key) := [e] + m[Hash(e.key)]]
  {
    hide Hash;
  }

  lemma PickStep<D>(l: Chain<D>, e: Entry<D>, b: nat)
    ensures BucketReversed(l + [e], b) == (if Hash(e.key) == b then [e] else []) + BucketReversed(l, b)
  {
    hide Hash;
    assert (l + [e])[..|l|] == l;
  }

  lemma {:induction false} PickConcat<D>(x: Chain<D>, y: Chain<D>, b: nat)
    ensures BucketReversed(x + y, b) == BucketReversed(y, b) + BucketReversed(x, b)
  {
    if y == [] {
      assert x + y == x;
    } else {
      hide *;
      var r, e := y[..|y| - 1], y[|y| - 1];
      PickConcat(x, r, b);
      PickStep(r, e, b);
      PickStep(x + r, e, b);
      Associative(x, r, [e]);
      Associative(if Hash(e.key) == b then [e] else [], BucketReversed(r, b), BucketReversed(x, b));
      assert y == r + [e];
    }
  }

  lemma Associative<D>(x: Chain<D>, y: Chain<D>, z: Chain<D>)
    ensures x + (y + z) == (x + y) + z
  {
  }

  lemma {:induction false} PickOfChain<D>(c: Chain<D>, k: nat, b: nat)
    requires forall i | 0 <= i < |c| :: Hash(c[i].key) == k
    ensures BucketReversed(c, b) == if k == b then Reverse(c) else []
  {
    hide Hash;
    if c != [] {
      PickOfChain(c[..|c| - 1], k, b);
    }
  }

  lemma {:induction false} PickOfFlat<D>(m: Chains<D>, b: nat)
    requires forall k, i {:trigger m[k][i]} | 0 <= k < |m| && 0 <= i < |m[k]| :: Hash(m[k][i].key) == k
    ensures BucketReversed(Flat(m), b) == if b < |m| then Reverse(m[b]) else []
  {
    hide Hash, BucketReversed, Reverse, Flat;
    FlatUnfolds(m, b);
    if m != [] {
      var n := |m| - 1;
      assert forall k, i {:trigger m[..n][k][i]} | 0 <= k < n && 0 <= i < |m[..n][k]| :: m[..n][k][i] == m[k][i];
      PickOfFlat(m[..n], b);
      PickConcat(Flat(m[..n]), m[n], b);
      assert forall i | 0 <= i < |m[n]| :: m[n][i] == m[n][i];
      PickOfChain(m[n], n, b);
    }
  }

  lemma FlatUnfolds<D>(m: Chains<D>, b: nat)
    ensures if m == [] then BucketReversed(Flat(m), b) == [] else Flat(m) == Flat(m[..|m| - 1]) + m[|m| - 1]
  {
  }

  lemma {:induction false} ReverseTwice<D>(c: Chain<D>)
    ensures |Reverse(c)| == |c| && Reverse(Reverse(c)) == c
  {
    if c != [] {
      var n := |c| - 1;
      ReverseTwice(c[..n]);
      ReverseAppend(c[n], Reverse(c[..n]));
      assert c == c[..n] + [c[n]];
    }
  }

  lemma {:induction false} ReverseAppend<D>(e: Entry<D>, c: Chain<D>)
    ensures Reverse([e] + c) == Reverse(c) + [e]
  {
    if c == [] {
      assert [e] + c == [e];
      assert Reverse([e]) == [e] + Reverse([e][..0]);
    } else {
      var n := |c| - 1;
      assert ([e] + c)[..n + 1] == [e] + c[..n];
      ReverseAppend(e, c[..n]);
    }
  }

  // ----- Saving -----

  /** What the disk keeps of an entry and the loader gives back: the name field, and the saved part of the record. */
  ghost function CleanList<D>(l: Chain<D>, clean: D -> D): Chain<D> {
    seq(|l|, i requires 0 <= i < |l| => Entry(l[i].value.name, Info(l[i].value.name, clean(l[i].value.data))))
  }

  /** dfs_save_folder_to_disk: the first 128 entries of the walk. */
  ghost function Image<D>(m: Chains<D>, clean: D -> D): (l: Chain<D>)
    ensures |l| <= DFS_MAX_SUB_ENTRIES
  {
    var f := Flat(m);
    CleanList(if |f| <= DFS_MAX_SUB_ENTRIES then f else f[..DFS_MAX_SUB_ENTRIES], clean)
  }

  lemma ImageIsListed<D>(m: Chains<D>, clean: D -> D)
    requires Good(m)
    ensures Listed(Image(m, clean)) && UniqueKeys(Image(m, clean)) && UniqueKeys(Flat(m))
    ensures forall i | 0 <= i < |Image(m, clean)| :: Image(m, clean)[i].key == Flat(m)[i].key
  {
    hide Hash;
    FlatUnique(m);
    var f, l := Flat(m), Image(m, clean);
    forall i | 0 <= i < |l| ensures |l[i].key| <= MAX_NAME && l[i].value.name == l[i].key == f[i].key {
      var e := f[i];
      assert e in f;
      var j :| 0 <= j < |m[Hash(e.key)]| && m[Hash(e.key)][j] == e;
    }
  }

  lemma {:induction false} LastWithUnique<D>(l: Chain<D>, i: nat)
    requires UniqueKeys(l) && i < |l|
    ensures LastWith(l, l[i].key) == Some(l[i].value)
  {
    if i < |l| - 1 {
      LastWithUnique(l[..|l| - 1], i);
    }
  }

  /** After a save and a load, an entry of the map is found exactly if the walk meets it among the first 128. */
  lemma SavedThenLoaded<D>(m: Chains<D>, clean: D -> D, i: nat, eq: KeyEq)
    requires Good(m) && IsEquality(eq) && i < |Flat(m)|
    ensures Find(Load(Image(m, clean), eq), Flat(m)[i].key, eq) ==
      if i < DFS_MAX_SUB_ENTRIES then Some(Info(Flat(m)[i].key, clean(Flat(m)[i].value.data))) else None
  {
    hide Find, Load, Flat, Good;
    ImageIsListed(m, clean);
    var l, key := Image(m, clean), Flat(m)[i].key;
    LoadFindsLast(l, key, eq);
    if i < DFS_MAX_SUB_ENTRIES {
      LastWithUnique(l, i);
    } else {
      AbsentEnds(l, key, eq);
    }
  }

  lemma AbsentStaysAbsent<D>(m: Chains<D>, clean: D -> D, key: string, eq: KeyEq)
    requires Good(m) && IsEquality(eq) && Find(m, key, eq) == None
    ensures Find(Load(Image(m, clean), eq), key, eq) == None
  {
    hide Find, Load, Flat, Good;
    ImageIsListed(m, clean);
    var l := Image(m, clean);
    LoadFindsLast(l, key, eq);
    forall i | 0 <= i < |l| ensures l[i].key != key {
      FlatIsTheMap(m, eq, Flat(m)[i]);
    }
    AbsentEnds(l, key, eq);
  }

  ghost predicate Restores<D>(m: Chains<D>, clean: D -> D, key: string, eq: KeyEq)
    requires Shape(m)
  {
    Find(Load(Image(m, clean), eq), key, eq) ==
    match Find(m, key, eq) case None => None case Some(v) => Some(Info(v.name, clean(v.data)))
  }

  /** Saving a map and loading it back keeps every lookup exactly if the map has at most 128 entries. */
  lemma RoundTrip<D>(m: Chains<D>, clean: D -> D, eq: KeyEq)
    requires Good(m) && IsEquality(eq)
    ensures (forall key :: Restores(m, clean, key, eq)) <==> |Flat(m)| <= DFS_MAX_SUB_ENTRIES
  {
    hide Find, Load, Flat, IsEquality, Image;
    if |Flat(m)| <= DFS_MAX_SUB_ENTRIES {
      forall key ensures Restores(m, clean, key, eq) {
        RoundTripOf(m, clean, key, eq);
      }
    } else {
      var e := Flat(m)[DFS_MAX_SUB_ENTRIES];
      FlatIsTheMap(m, eq, e);
      SavedThenLoaded(m, clean, DFS_MAX_SUB_ENTRIES, eq);
      assert !Restores(m, clean, e.key, eq);
    }
  }

  lemma RoundTripOf<D>(m: Chains<D>, clean: D -> D, key: string, eq: KeyEq)
    requires Good(m) && IsEquality(eq) && |Flat(m)| <= DFS_MAX_SUB_ENTRIES
    ensures Restores(m, clean, key, eq)
  {
    hide Find, Load, Flat, IsEquality, Image, Hash;
    match Find(m, key, eq)
    case None => AbsentStaysAbsent(m, clean, key, eq);
    case Some(v) =>
      FlatIsTheMap(m, eq, Entry(key, v));
      var i :| 0 <= i < |Flat(m)| && Flat(m)[i] == Entry(key, v);
      SavedThenLoaded(m, clean, i, eq);
      NameOfFound(m, key, v, eq);
  }

  lemma NameOfFound<D>(m: Chains<D>, key: string, v: Info<D>, eq: KeyEq)
    requires Good(m) && IsEquality(eq) && Find(m, key, eq) == Some(v)
    ensures v.name == key
  {
    hide Hash;
    var c, i := m[Hash(key)], Index(m[Hash(key)], key, eq);
    assert eq(c[i].key, key) && c[i].value == v;
  }

  // ----- Order of the chains -----

  ghost function CleanAll<D>(m: Chains<D>, clean: D -> D): Chains<D> {
    seq(|m|, b requires 0 <= b < |m| => CleanList(m[b], clean))
  }

  lemma {:induction false} FlatOfClean<D>(m: Chains<D>, clean: D -> D)
    ensures Flat(CleanAll(m, clean)) == CleanList(Flat(m), clean)
  {
    if m != [] {
      var n := |m| - 1;
      assert CleanAll(m, clean)[..n] == CleanAll(m[..n], clean);
      FlatOfClean(m[..n], clean);
      assert CleanList(Flat(m[..n]) + m[n], clean) == CleanList(Flat(m[..n]), clean) + CleanList(m[n], clean);
    }
  }

  /** One round trip turns every bucket chain around. */
  lemma RoundTripReverses<D>(m: Chains<D>, clean: D -> D, b: nat, eq: KeyEq)
    requires Good(m) && IsEquality(eq) && |Flat(m)| <= DFS_MAX_SUB_ENTRIES && b < BUCKETS
    ensures Load(Image(m, clean), eq)[b] == Reverse(CleanList(m[b], clean))
    ensures LoadChildren(Image(m, clean), eq)[b] == Reverse(CleanList(m[b], clean))
  {
    hide Load, LoadChildren, Flat, Hash, IsEquality, BucketReversed, Reverse;
    ImageIsListed(m, clean);
    LoadReverses(Image(m, clean), b, eq);
    FlatOfClean(m, clean);
    var n: Chains<D> := CleanAll(m, clean);
    forall k: int, i: int {:trigger n[k][i]} | 0 <= k < |n| && 0 <= i < |n[k]| ensures Hash(n[k][i].key) == k {
      assert m[k][i].value.name == m[k][i].key;
    }
    PickOfFlat(n, b);
  }

  lemma {:induction false} FlatSizes<D>(m: Chains<D>, n: Chains<D>)
    requires |m| == |n| && forall b {:trigger m[b]} | 0 <= b < |m| :: |m[b]| == |n[b]|
    ensures |Flat(m)| == |Flat(n)|
  {
    if m != [] {
      FlatSizes(m[..|m| - 1], n[..|n| - 1]);
    }
  }

  lemma {:induction false} ReverseSize<D>(c: Chain<D>)
    ensures |Reverse(c)| == |c| && forall e | e in Reverse(c) :: e in c
  {
    if c != [] {
      ReverseSize(c[..|c| - 1]);
    }
  }

  lemma {:induction false} CleanOfReverse<D>(c: Chain<D>, clean: D -> D)
    ensures CleanList(Reverse(c), clean) == Reverse(CleanList(c, clean))
  {
    if c != [] {
      var n := |c| - 1;
      CleanOfReverse(c[..n], clean);
      assert CleanList(c, clean)[..n] == CleanList(c[..n], clean);
      var r := Reverse(c[..n]);
      assert CleanList([c[n]] + r, clean) == CleanList([c[n]], clean) + CleanList(r, clean);
    }
  }

  /** A second round trip restores the order of every chain. */
  lemma TwoRoundTrips<D>(m: Chains<D>, clean: D -> D, b: nat, eq: KeyEq)
    requires Good(m) && IsEquality(eq) && |Flat(m)| <= DFS_MAX_SUB_ENTRIES && b < BUCKETS
    ensures Load(Image(Load(Image(m, clean), eq), clean), eq)[b] == CleanList(CleanList(m[b], clean), clean)
  {
    hide Load, Flat, Hash, Image, Reverse, IsEquality, GoodChain;
    var n := Load(Image(m, clean), eq);
    forall k | 0 <= k < |m| ensures |m[k]| == |n[k]| {
      RoundTripReverses(m, clean, k, eq);
      ReverseSize(CleanList(m[k], clean));
    }
    FlatSizes(m, n);
    ImageIsListed(m, clean);
    LoadFindsLast(Image(m, clean), "", eq);
    RoundTripReverses(n, clean, b, eq);
    RoundTripReverses(m, clean, b, eq);
    CleanOfReverse(CleanList(m[b], clean), clean);
    ReverseTwice(CleanList(CleanList(m[b], clean), clean));
  }
}
