// memcmp as libc/src/string/memcmp.c implements it, and the file-name comparison built on it.
module Memcmp {
  import opened ChainMap
  import opened Common

  function Byte(c: char): nat { c as int % 256 }

  /** What the loop of memcmp computes: both of its tests ask whether a[i] < b[i]. */
  ghost predicate NeverBelow(a: string, b: string, size: nat)
    requires size <= |a| && size <= |b|
  {
    forall i | 0 <= i < size :: Byte(a[i]) >= Byte(b[i])
  }

  method Memcmp(a: string, b: string, size: nat) returns (r: int)
    requires size <= |a| && size <= |b|
    ensures r == if NeverBelow(a, b, size) then 0 else -1
  {
    var i := 0;
    while i < size
      invariant i <= size && NeverBelow(a, b, i)
    {
      if Byte(a[i]) < Byte(b[i]) {
        return -1;
      }
      i := i + 1;
    }
    return 0;
  }

  /** _file_streq */
  method FileStreq(a: string, b: string) returns (r: bool)
    ensures r == FileEq(a, b)
  {
    if |a| != |b| {
      return false;
    }
    var c := Memcmp(a, b, |a|);
    r := c == 0;
  }

  predicate FileEq(a: string, b: string) {
    |a| == |b| && forall i | 0 <= i < |a| :: Byte(a[i]) >= Byte(b[i])
  }

  /** The comparison holds both ways round exactly for equal names; one way round it only says that no byte is below. */
  lemma FileEqBothWays(a: string, b: string)
    requires forall c | c in a + b :: c as int < 256
    ensures FileEq(a, b) && FileEq(b, a) <==> a == b
  {
    if FileEq(a, b) && FileEq(b, a) {
      forall i | 0 <= i < |a| ensures a[i] == b[i] {
        assert a[i] in a + b && b[i] in a + b;
      }
    }
  }

  /** Looking up file "a" in a map that holds only file "q" finds "q". */
  lemma FileLookupConfusesNames<D>(data: D)
    ensures var m := Insert(Empty<D>(), "q", data, FileEq);
      Find(m, "a", FileEq) == Some(Info("q", data))
  {
    OneBucket();
    assert FileEq("q", "a");
  }

  /** Deleting "a" from that map deletes "q", and a file "a" cannot be added: "q" is overwritten instead. */
  lemma FileDeleteRemovesAnother<D>(data: D, other: D)
    ensures var m := Insert(Empty<D>(), "q", data, FileEq);
      Find(Delete(m, "a", FileEq), "q", FileEq) == None && Find(Insert(m, "a", other, FileEq), "q", FileEq) == Some(Info("a", other))
  {
    hide Hash;
    OneBucket();
    var m := Insert(Empty<D>(), "q", data, FileEq);
    var e := Entry("q", Info("q", data));
    assert m[Hash("q")] == [e];
    assert FileEq("q", "a") && FileEq("q", "q");
    assert Index([e], "a", FileEq) == 0;
    assert ChainDelete([e], "a", FileEq) == [];
    assert ChainInsert([e], "a", other, FileEq) == [Entry("q", Info("a", other))];
  }

  lemma OneBucket()
    ensures Hash("q") == Hash("a") == 6
  {
    assert Djb2("q", 5381) == (5381 * 33 + 113) % 0x1_0000_0000 by { assert "q"[1..] == ""; }
    assert Djb2("a", 5381) == (5381 * 33 + 97) % 0x1_0000_0000 by { assert "a"[1..] == ""; }
  }

  function SameName(a: string, b: string): bool { a == b }

  /** No entry of the chain in front of the one for key has bytes that are all at least those of key. */
  ghost predicate NoneDominates<D>(c: Chain<D>, key: string) {
    forall j | 0 <= j < Index(c, key, SameName) :: !FileEq(c[j].key, key)
  }

  /** Exactly then lookup, insertion and deletion with the library's comparison are those with true equality. */
  lemma FileChainRight<D>(c: Chain<D>, key: string, data: D)
    requires GoodChain(c, Hash(key)) && |key| <= MAX_NAME
    ensures ChainFind(c, key, FileEq) == ChainFind(c, key, SameName) <==> NoneDominates(c, key)
    ensures ChainInsert(c, key, data, FileEq) == ChainInsert(c, key, data, SameName) <==> NoneDominates(c, key)
    ensures ChainDelete(c, key, FileEq) == ChainDelete(c, key, SameName) <==> NoneDominates(c, key)
  {
    hide Hash, FileEq;
    var i, j := Index(c, key, FileEq), Index(c, key, SameName);
    SameIsFileEq(key);
    if NoneDominates(c, key) {
      IndexIs(c, key, FileEq, j);
    } else {
      EarlierIndex(c, key);
      assert c[i].key != key;
      assert c[i].value.name == c[i].key;
      FindDiffers(c, key, i, j);
      InsertDiffers(c, key, data, i, j);
      DeleteDiffers(c, key, i, j);
    }
  }

  lemma SameIsFileEq(key: string)
    ensures FileEq(key, key)
  {
  }

  lemma EarlierIndex<D>(c: Chain<D>, key: string)
    requires !NoneDominates(c, key)
    ensures Index(c, key, FileEq) < Index(c, key, SameName) <= |c| && c[Index(c, key, FileEq)].key != key
  {
    hide FileEq;
  }

  lemma FindDiffers<D>(c: Chain<D>, key: string, i: nat, j: nat)
    requires i == Index(c, key, FileEq) < j == Index(c, key, SameName) <= |c|
    requires forall k {:trigger c[k]} | 0 <= k < |c| :: c[k].value.name == c[k].key
    requires c[i].key != key
    ensures ChainFind(c, key, FileEq) != ChainFind(c, key, SameName)
  {
    hide Index;
    assert j < |c| ==> c[j].key == key by { SameAt(c, key, j); }
  }

  lemma SameAt<D>(c: Chain<D>, key: string, j: nat)
    requires j == Index(c, key, SameName)
    ensures j < |c| ==> c[j].key == key
  {
  }

  lemma InsertDiffers<D>(c: Chain<D>, key: string, data: D, i: nat, j: nat)
    requires i == Index(c, key, FileEq) < j == Index(c, key, SameName) <= |c| && |key| <= MAX_NAME
    requires forall k {:trigger c[k]} | 0 <= k < |c| :: c[k].value.name == c[k].key
    requires c[i].key != key
    ensures ChainInsert(c, key, data, FileEq) != ChainInsert(c, key, data, SameName)
  {
    hide Index;
    var x, y := ChainInsert(c, key, data, FileEq), ChainInsert(c, key, data, SameName);
    if j < |c| {
      assert x[i].value.name == key && y[i] == c[i];
    } else {
      assert |x| != |y|;
    }
  }

  lemma DeleteDiffers<D>(c: Chain<D>, key: string, i: nat, j: nat)
    requires i == Index(c, key, FileEq) < j == Index(c, key, SameName) <= |c| && UniqueKeys(c)
    ensures ChainDelete(c, key, FileEq) != ChainDelete(c, key, SameName)
  {
    hide Index;
    var x, y := ChainDelete(c, key, FileEq), ChainDelete(c, key, SameName);
    if j < |c| {
      assert x[i] == c[i + 1] && y[i] == c[i];
      assert c[i].key != c[i + 1].key;
    } else {
      assert |x| != |y|;
    }
  }

  /** The same for whole maps. */
  lemma FileMapRight<D>(m: Chains<D>, key: string, data: D)
    requires Good(m) && |key| <= MAX_NAME
    ensures Find(m, key, FileEq) == Find(m, key, SameName) <==> NoneDominates(m[Hash(key)], key)
    ensures Insert(m, key, data, FileEq) == Insert(m, key, data, SameName) <==> NoneDominates(m[Hash(key)], key)
    ensures Delete(m, key, FileEq) == Delete(m, key, SameName) <==> NoneDominates(m[Hash(key)], key)
  {
    hide Hash, ChainFind, ChainInsert, ChainDelete, NoneDominates;
    var b := Hash(key);
    FileChainRight(m[b], key, data);
    SetBucket(m, b, ChainInsert(m[b], key, data, FileEq), ChainInsert(m[b], key, data, SameName));
    SetBucket(m, b, ChainDelete(m[b], key, FileEq), ChainDelete(m[b], key, SameName));
  }

  lemma SetBucket<D>(m: Chains<D>, b: nat, c: Chain<D>, d: Chain<D>)
    requires b < |m|
    ensures m[b := c] == m[b := d] <==> c == d
  {
    assert m[b := c][b] == c && m[b := d][b] == d;
  }
}
