// Saving and loading a file map, whose loaders compare names with memcmp.
module FileImage {
  import opened ChainMap
  import opened Common
  import opened FolderImage
  import opened Memcmp

  /** Files are put into the map by either of the two loaders. */
  ghost function Loaded<D>(l: Chain<D>, skip: bool): (m: Chains<D>)
    ensures Shape(m)
  {
    if skip then LoadChildren(l, FileEq) else Load(l, FileEq)
  }

  /** Entry i lies in the bucket in which entry j is looked for, and compares equal to it. */
  ghost predicate Dominates<D>(l: Chain<D>, i: nat, j: nat)
    requires i < |l| && j < |l|
  {
    i != j && Hash(l[i].key) == Hash(l[j].key) && FileEq(l[i].key, l[j].key)
  }

  ghost predicate NamesApart<D>(l: Chain<D>) {
    forall i: nat, j: nat {:trigger Dominates(l, i, j)} | i < |l| && j < |l| :: !Dominates(l, i, j)
  }

  lemma LoadedStep<D>(l: Chain<D>, skip: bool)
    requires l != []
    ensures var e, m := l[|l| - 1], Loaded(l[..|l| - 1], skip);
      Loaded(l, skip) == if skip && Find(m, e.key, FileEq) != None then m else Insert(m, e.key, e.value.data, FileEq)
  {
  }

  ghost predicate LastApart<D>(l: Chain<D>)
    requires l != []
  {
    forall u: nat {:trigger l[u]} | u < |l| - 1 :: !Dominates(l, u, |l| - 1)
  }

  ghost predicate FirstApart<D>(l: Chain<D>)
    requires l != []
  {
    forall u: nat {:trigger l[u]} | u < |l| - 1 :: !Dominates(l, |l| - 1, u)
  }

  /** A lookup of w does not give the record that carries this name. */
  ghost predicate Lost<D>(m: Chains<D>, w: string)
    requires Shape(m)
  {
    Find(m, w, FileEq) == None || Find(m, w, FileEq).value.name != w
  }

  /** No insertion under another name brings it back. */
  lemma LostStays<D>(m: Chains<D>, key: string, data: D, w: string)
    requires Shape(m) && Lost(m, w) && key != w && |key| <= MAX_NAME
    ensures Lost(Insert(m, key, data, FileEq), w)
  {
    hide Hash, FileEq;
    var c := m[Hash(w)];
    var i, k := Index(c, key, FileEq), Index(c, w, FileEq);
    var d := ChainInsert(c, key, data, FileEq);
    if Hash(key) == Hash(w) {
      if i < |c| {
        assert forall j | 0 <= j < |c| :: d[j].key == c[j].key;
        IndexIs(d, w, FileEq, k);
      } else {
        IndexIs(d, w, FileEq, if FileEq(key, w) then 0 else 1 + k);
      }
    }
  }

  lemma LostStaysLoading<D>(l: Chain<D>, skip: bool, w: string)
    requires l != [] && |l[|l| - 1].key| <= MAX_NAME && l[|l| - 1].key != w && Lost(Loaded(l[..|l| - 1], skip), w)
    ensures Lost(Loaded(l, skip), w)
  {
    hide Lost, Find, Insert;
    LostStays(Loaded(l[..|l| - 1], skip), l[|l| - 1].key, l[|l| - 1].value.data, w);
  }

  lemma {:induction false} ForeignIsLost<D>(l: Chain<D>, skip: bool, w: string)
    requires Listed(l) && forall i | 0 <= i < |l| :: l[i].key != w
    ensures Lost(Loaded(l, skip), w)
  {
    if l != [] {
      ForeignIsLost(l[..|l| - 1], skip, w);
      LostStaysLoading(l, skip, w);
    }
  }

  // ----- Loading when no name dominates another -----

  lemma SameNameIsEquality()
    ensures IsEquality(SameName)
  {
  }

  /** With true equality, the chains hold exactly the listed entries. */
  lemma ChainsOfList<D>(l: Chain<D>)
    requires Listed(l) && UniqueKeys(l)
    ensures LoadChildren(l, SameName) == Load(l, SameName) && Good(Load(l, SameName))
    ensures forall i: nat | i < |l| :: Find(Load(l, SameName), l[i].key, SameName) == Some(l[i].value)
    ensures forall w | Find(Load(l, SameName), w, SameName) != None :: exists i: nat :: i < |l| && l[i].key == w
  {
    hide Hash, Find, Good, Load, LoadChildren;
    SameNameIsEquality();
    forall b | 0 <= b < BUCKETS ensures LoadChildren(l, SameName)[b] == Load(l, SameName)[b] {
      LoadReverses(l, b, SameName);
    }
    LoadFindsLast(l, "", SameName);
    forall i: nat | i < |l| ensures Find(Load(l, SameName), l[i].key, SameName) == Some(l[i].value) {
      LoadFindsLast(l, l[i].key, SameName);
      LastWithUnique(l, i);
    }
    forall w | Find(Load(l, SameName), w, SameName) != None ensures exists i: nat :: i < |l| && l[i].key == w {
      LoadFindsLast(l, w, SameName);
      if forall i: nat | i < |l| :: l[i].key != w {
        AbsentEnds(l, w, SameName);
      }
    }
  }

  /** An entry of the chains is an entry of the list. */
  lemma EntryInList<D>(l: Chain<D>, b: nat, i: nat) returns (t: nat)
    requires Listed(l) && UniqueKeys(l) && b < BUCKETS && i < |Load(l, SameName)[b]|
    ensures t < |l| && l[t].key == Load(l, SameName)[b][i].key && Hash(l[t].key) == b
  {
    hide Hash, Load, LoadChildren;
    ChainsOfList(l);
    var e := Load(l, SameName)[b][i];
    assert Hash(e.key) == b;
    IndexIs(Load(l, SameName)[b], e.key, SameName, i);
    assert Find(Load(l, SameName), e.key, SameName) == Some(e.value);
    t :| t < |l| && l[t].key == e.key;
  }

  /** A listed entry is in the chains. */
  lemma EntryInChain<D>(l: Chain<D>, t: nat) returns (i: nat)
    requires Listed(l) && UniqueKeys(l) && t < |l|
    ensures var c := Load(l, SameName)[Hash(l[t].key)]; i < |c| && c[i].key == l[t].key && c[i].value == l[t].value
  {
    hide Hash, Load, LoadChildren;
    ChainsOfList(l);
    i := Index(Load(l, SameName)[Hash(l[t].key)], l[t].key, SameName);
  }

  /** A name that no listed one dominates is looked up as with true equality. */
  lemma RightIfApart<D>(l: Chain<D>, key: string)
    requires Listed(l) && UniqueKeys(l)
    requires forall t: nat | t < |l| && l[t].key != key && Hash(l[t].key) == Hash(key) :: !FileEq(l[t].key, key)
    ensures NoneDominates(Load(l, SameName)[Hash(key)], key)
  {
    hide Hash, FileEq;
    var c := Load(l, SameName)[Hash(key)];
    forall j | 0 <= j < Index(c, key, SameName) ensures !FileEq(c[j].key, key) {
      var t := EntryInList(l, Hash(key), j);
      assert c[j].key != key;
    }
  }

  // ----- The general case -----

  /** Either no name dominates another, and loading is as with true equality; or some record is lost. */
  lemma {:induction false} Fate<D>(l: Chain<D>, skip: bool)
    requires Listed(l) && UniqueKeys(l)
    ensures if NamesApart(l) then Loaded(l, skip) == Load(l, SameName) else exists i: nat :: i < |l| && Lost(Loaded(l, skip), l[i].key)
  {
    hide Hash, Find, Lost, FileEq, Dominates, NamesApart;
    if l == [] {
      NothingApart<D>();
    } else {
      var n := |l| - 1;
      var r, e := l[..n], l[n];
      Fate(r, skip);
      if !NamesApart(r) {
        var i: nat :| i < |r| && Lost(Loaded(r, skip), r[i].key);
        LostStaysLoading(l, skip, l[i].key);
        if NamesApart(l) {
          ApartPrefix(l);
        }
      } else {
        FateOfLast(l, skip);
      }
    }
  }

  lemma NothingApart<D>()
    ensures NamesApart<D>([])
  {
  }

  lemma ApartPrefix<D>(l: Chain<D>)
    requires l != [] && NamesApart(l)
    ensures NamesApart(l[..|l| - 1])
  {
    hide Hash, FileEq;
    var r := l[..|l| - 1];
    forall i: nat, j: nat | i < |r| && j < |r| ensures !Dominates(r, i, j) {
      assert !Dominates(l, i, j);
    }
  }

  lemma FateOfLast<D>(l: Chain<D>, skip: bool)
    requires Listed(l) && UniqueKeys(l) && l != [] && NamesApart(l[..|l| - 1])
    requires Loaded(l[..|l| - 1], skip) == Load(l[..|l| - 1], SameName)
    ensures if NamesApart(l) then Loaded(l, skip) == Load(l, SameName) else exists i: nat :: i < |l| && Lost(Loaded(l, skip), l[i].key)
  {
    hide *;
    if LastApart(l) && FirstApart(l) {
      ApartWithLast(l);
      Undisturbed(l, skip);
    } else {
      var i := LossOfLast(l, skip);
      LossMeansDomination(l);
    }
  }

  lemma LossMeansDomination<D>(l: Chain<D>)
    requires l != [] && !(LastApart(l) && FirstApart(l))
    ensures !NamesApart(l)
  {
    hide Dominates;
  }

  lemma LossOfLast<D>(l: Chain<D>, skip: bool) returns (i: nat)
    requires Listed(l) && UniqueKeys(l) && l != [] && NamesApart(l[..|l| - 1])
    requires Loaded(l[..|l| - 1], skip) == Load(l[..|l| - 1], SameName)
    requires !(LastApart(l) && FirstApart(l))
    ensures i < |l| && Lost(Loaded(l, skip), l[i].key)
  {
    hide Dominates, Load, LoadChildren, Loaded, Lost, NamesApart, Listed, UniqueKeys;
    if !LastApart(l) {
      var t: nat :| t < |l| - 1 && Dominates(l, t, |l| - 1);
      i := Overwritten(l, skip, t);
    } else {
      i :| i < |l| - 1 && Dominates(l, |l| - 1, i);
      InFront(l, skip, i);
    }
  }

  lemma ApartWithLast<D>(l: Chain<D>)
    requires l != [] && NamesApart(l[..|l| - 1]) && LastApart(l) && FirstApart(l)
    ensures NamesApart(l)
  {
    hide Hash, FileEq;
    var n := |l| - 1;
    forall i: nat, j: nat | i < |l| && j < |l| ensures !Dominates(l, i, j) {
      if i < n && j < n {
        assert !Dominates(l[..n], i, j);
      }
    }
  }

  /** A dominated newcomer takes the place of another record, or is skipped. */
  lemma Overwritten<D>(l: Chain<D>, skip: bool, t: nat) returns (i: nat)
    requires Listed(l) && UniqueKeys(l) && l != [] && NamesApart(l[..|l| - 1])
    requires Loaded(l[..|l| - 1], skip) == Load(l[..|l| - 1], SameName)
    requires t < |l| - 1 && Dominates(l, t, |l| - 1)
    ensures i < |l| && Lost(Loaded(l, skip), l[i].key)
  {
    hide Hash, FileEq, NamesApart, Load, LoadChildren, Loaded;
    var n := |l| - 1;
    var r, e := l[..n], l[n];
    var m := Load(r, SameName);
    LoadedStep(l, skip);
    var c := m[Hash(e.key)];
    var p := EntryInChain(r, t);
    ChainsOfList(r);
    var q := Index(c, e.key, FileEq);
    var u := EntryInList(r, Hash(e.key), q);
    assert c[q].value.name == c[q].key == l[u].key;
    if skip {
      i := n;
    } else {
      i := u;
      FirstOfItsName(r, Hash(e.key), q);
      var d := ChainInsert(c, e.key, e.value.data, FileEq);
      assert forall j | 0 <= j < |c| :: d[j].key == c[j].key;
      IndexIs(d, c[q].key, FileEq, q);
    }
  }

  lemma FirstOfItsName<D>(l: Chain<D>, b: nat, q: nat)
    requires Listed(l) && UniqueKeys(l) && NamesApart(l) && b < BUCKETS && q < |Load(l, SameName)[b]|
    ensures var c := Load(l, SameName)[b]; FileEq(c[q].key, c[q].key) && forall j | 0 <= j < q :: !FileEq(c[j].key, c[q].key)
  {
    hide Hash, FileEq;
    ChainsOfList(l);
    var c := Load(l, SameName)[b];
    SameIsFileEq(c[q].key);
    forall j | 0 <= j < q ensures !FileEq(c[j].key, c[q].key) {
      var t := EntryInList(l, b, j);
      var u := EntryInList(l, b, q);
      assert c[j].key != c[q].key;
      assert !Dominates(l, t, u);
    }
  }

  /** A newcomer that dominates another name stands in front of it. */
  lemma InFront<D>(l: Chain<D>, skip: bool, t: nat)
    requires Listed(l) && UniqueKeys(l) && l != []
    requires Loaded(l[..|l| - 1], skip) == Load(l[..|l| - 1], SameName)
    requires t < |l| - 1 && Dominates(l, |l| - 1, t) && LastApart(l)
    ensures Lost(Loaded(l, skip), l[t].key)
  {
    hide Hash, FileEq, Load, LoadChildren, Loaded;
    var n := |l| - 1;
    LoadedStep(l, skip);
    var c := NothingFound(l, skip);
    var d := ChainInsert(c, l[n].key, l[n].value.data, FileEq);
    assert d[0].key == l[n].key && d[0].value.name == l[n].key;
    IndexIs(d, l[t].key, FileEq, 0);
  }

  /** The chain in which the last entry is looked for holds none that compares equal to it. */
  lemma NothingFound<D>(l: Chain<D>, skip: bool) returns (c: Chain<D>)
    requires Listed(l) && UniqueKeys(l) && l != []
    requires LastApart(l)
    ensures c == Load(l[..|l| - 1], SameName)[Hash(l[|l| - 1].key)]
    ensures Index(c, l[|l| - 1].key, FileEq) == Index(c, l[|l| - 1].key, SameName) == |c|
    ensures NoneDominates(c, l[|l| - 1].key)
  {
    hide Hash, FileEq;
    var n := |l| - 1;
    var r, key := l[..n], l[n].key;
    c := Load(r, SameName)[Hash(key)];
    forall j | 0 <= j < |c| ensures !FileEq(c[j].key, key) && c[j].key != key {
      var t := EntryInList(r, Hash(key), j);
      assert !Dominates(l, t, n);
      assert r[t] == l[t];
    }
    IndexIs(c, key, FileEq, |c|);
    IndexIs(c, key, SameName, |c|);
  }

  lemma Undisturbed<D>(l: Chain<D>, skip: bool)
    requires Listed(l) && UniqueKeys(l) && l != []
    requires Loaded(l[..|l| - 1], skip) == Load(l[..|l| - 1], SameName)
    requires LastApart(l)
    ensures Loaded(l, skip) == Load(l, SameName)
  {
    hide Hash, FileEq;
    var c := NothingFound(l, skip);
  }

  // ----- The round trip -----

  /** After loading a list, each of its names finds its own record exactly if no name dominates another. */
  lemma ListRestored<D>(l: Chain<D>, skip: bool)
    requires Listed(l) && UniqueKeys(l)
    ensures (forall i: nat | i < |l| :: Find(Loaded(l, skip), l[i].key, FileEq) == Some(l[i].value)) <==> NamesApart(l)
  {
    hide Hash, FileEq, Find, Loaded;
    Fate(l, skip);
    if NamesApart(l) {
      ChainsOfList(l);
      forall i: nat | i < |l| ensures Find(Loaded(l, skip), l[i].key, FileEq) == Some(l[i].value) {
        forall t: nat | t < |l| && l[t].key != l[i].key && Hash(l[t].key) == Hash(l[i].key) ensures !FileEq(l[t].key, l[i].key) {
          assert !Dominates(l, t, i);
        }
        RightIfApart(l, l[i].key);
        FileMapRight(Load(l, SameName), l[i].key, l[i].value.data);
      }
    } else {
      var i: nat :| i < |l| && Lost(Loaded(l, skip), l[i].key);
      assert l[i].value.name == l[i].key;
    }
  }

  ghost predicate Restored<D>(m: Chains<D>, clean: D -> D, skip: bool, e: Entry<D>) {
    Find(Loaded(Image(m, clean), skip), e.key, FileEq) == Some(Info(e.key, clean(e.value.data)))
  }

  /** Saving a file map and loading it back lets every file be found under its name exactly if there are at most 128, and none has
      a name that dominates another one of its bucket. */
  lemma FileRoundTrip<D>(m: Chains<D>, clean: D -> D, skip: bool)
    requires Good(m)
    ensures (forall i: nat | i < |Flat(m)| :: Restored(m, clean, skip, Flat(m)[i])) <==> |Flat(m)| <= DFS_MAX_SUB_ENTRIES && NamesApart(Flat(m))
  {
    hide Hash, FileEq, Find, Loaded, Flat, NamesApart, Good;
    var f, l := Flat(m), Image(m, clean);
    ImageIsListed(m, clean);
    if |f| > DFS_MAX_SUB_ENTRIES {
      ForeignIsLost(l, skip, f[DFS_MAX_SUB_ENTRIES].key);
      assert !Restored(m, clean, skip, f[DFS_MAX_SUB_ENTRIES]);
    } else {
      ListRestored(l, skip);
      SameApart(l, f);
      forall i: nat | i < |f| ensures Restored(m, clean, skip, f[i]) <==> Find(Loaded(l, skip), l[i].key, FileEq) == Some(l[i].value) {
        assert l[i].key == f[i].key && l[i].value.name == l[i].key;
      }
      if forall i: nat | i < |f| :: Restored(m, clean, skip, f[i]) {
        forall i: nat | i < |l| ensures Find(Loaded(l, skip), l[i].key, FileEq) == Some(l[i].value) {
          assert Restored(m, clean, skip, f[i]);
        }
      }
    }
  }

  lemma SameApart<D>(l: Chain<D>, f: Chain<D>)
    requires |l| == |f| && forall i | 0 <= i < |l| :: l[i].key == f[i].key
    ensures NamesApart(l) == NamesApart(f)
  {
    hide Hash, FileEq;
    forall i: nat, j: nat | i < |l| && j < |l| ensures Dominates(l, i, j) == Dominates(f, i, j) {
    }
  }

  /** The names q and a share a bucket, and q dominates a: if both files are there, one of them is not found after a round trip. */
  lemma TwoFilesConfused<D>(data: D, other: D, clean: D -> D, skip: bool)
    ensures var m := Insert(Insert(Empty<D>(), "a", data, FileEq), "q", other, FileEq);
      Good(m) && exists i: nat :: i < |Flat(m)| && !Restored(m, clean, skip, Flat(m)[i])
  {
    hide Hash, Flat, Find, Restored, Good;
    TwoFiles(data, other);
    SameNameIsEquality();
    var m := Insert(Insert(Empty<D>(), "a", data, FileEq), "q", other, FileEq);
    var a, q := Entry("a", Info("a", data)), Entry("q", Info("q", other));
    FlatIsTheMap(m, SameName, a);
    FlatIsTheMap(m, SameName, q);
    var i: nat :| i < |Flat(m)| && Flat(m)[i] == a;
    var j: nat :| j < |Flat(m)| && Flat(m)[j] == q;
    OneBucket();
    assert Dominates(Flat(m), j, i);
    FileRoundTrip(m, clean, skip);
  }

  lemma TwoFiles<D>(data: D, other: D)
    ensures var m := Insert(Insert(Empty<D>(), "a", data, FileEq), "q", other, FileEq);
      Good(m) && Find(m, "a", SameName) == Some(Info("a", data)) && Find(m, "q", SameName) == Some(Info("q", other))
  {
    hide Hash, Good, Find, Insert, FileEq;
    SameNameIsEquality();
    EmptyLaw<D>("a", SameName);
    FileMapRight(Empty<D>(), "a", data);
    var one := Insert(Empty<D>(), "a", data, SameName);
    InsertLaw(Empty<D>(), "a", data, "a", SameName);
    OnlyA(data);
    FileMapRight(one, "q", other);
    InsertLaw(one, "q", other, "a", SameName);
    InsertLaw(one, "q", other, "q", SameName);
  }

  lemma OnlyA<D>(data: D)
    ensures var one := Insert(Empty<D>(), "a", data, SameName); NoneDominates(one[Hash("q")], "q")
  {
    hide Hash;
    OneBucket();
    assert Insert(Empty<D>(), "a", data, SameName)[6] == [Entry("a", Info("a", data))];
    assert Byte("a"[0]) < Byte("q"[0]);
  }
}
