// The contents of a ramfs hash map as a value: sixteen chains of entries.
module ChainMap {
  import opened Common

  const BUCKETS: nat := 16

  /** ramfs_foder_info or ramfs_file_info: the name field, and the rest of the record. */
  datatype Info<D> = Info(name: string, data: D)

  datatype Entry<D> = Entry(key: string, value: Info<D>)

  type Chain<D> = seq<Entry<D>>

  // ----- Strings -----

  /** A C string has no NUL inside. */
  predicate CString(s: string) { forall c | c in s :: c != '\0' }

  /** _strcpy keeps at most 127 characters. */
  function Truncated(s: string): (t: string)
    ensures |t| <= MAX_NAME && t <= s
  {
    if |s| <= MAX_NAME then s else s[..MAX_NAME]
  }

  /** The value of a char, which is signed on this machine. */
  function SignedChar(c: char): int {
    var b := c as int % 256;
    if b >= 128 then b - 256 else b
  }

  /** djb2 over 32-bit unsigned arithmetic, from the left. */
  function Djb2(s: string, h: nat): nat {
    if s == [] then h else Djb2(s[1..], (h * 33 + SignedChar(s[0])) % 0x1_0000_0000)
  }

  function Hash(key: string): (b: nat)
    ensures b < BUCKETS
  {
    Djb2(key, 5381) % BUCKETS
  }

  /** The sum of the characters of a string. */
  ghost function CharSum(s: string): int { if s == "" then 0 else CharSum(s[..|s| - 1]) + SignedChar(s[|s| - 1]) }

  /** 33 is 1 modulo 16, so that the bucket of a name depends on the sum of its characters alone, and not on their order. */
  lemma HashIsSum(key: string)
    ensures Hash(key) == (5 + CharSum(key)) % 16
  {
    hide SignedChar, CharSum;
    Djb2Mod(key, 5381, 0);
    assert key[0..] == key;
    assert key[..0] == "" && CharSum("") == 0 by { EmptySum(); }
  }

  lemma EmptySum()
    ensures CharSum("") == 0
  {
  }

  lemma {:induction false} Djb2Mod(key: string, h: nat, i: nat)
    requires i <= |key|
    ensures (Djb2(key[i..], h) - (h + CharSum(key) - CharSum(key[..i]))) % 16 == 0
    decreases |key| - i
  {
    hide SignedChar, CharSum;
    if i == |key| {
      assert key[i..] == "" && key[..i] == key;
    } else {
      var h' := (h * 33 + SignedChar(key[i])) % 0x1_0000_0000;
      assert key[i..][0] == key[i] && key[i..][1..] == key[i + 1..];
      Djb2Mod(key, h', i + 1);
      SumStep(key, i);
      ModStep(h, SignedChar(key[i]), h');
    }
  }

  lemma SumStep(key: string, i: nat)
    requires i < |key|
    ensures CharSum(key[..i + 1]) == CharSum(key[..i]) + SignedChar(key[i])
  {
    assert key[..i + 1][..i] == key[..i];
  }

  lemma ModStep(h: nat, c: int, h': nat)
    requires h' == (h * 33 + c) % 0x1_0000_0000
    ensures (h' - (h + c)) % 16 == 0
  {
    var q := (h * 33 + c) / 0x1_0000_0000;
    assert h' == h * 33 + c - 0x1_0000_0000 * q;
    assert h' - (h + c) == 16 * (2 * h - 0x1000_0000 * q);
  }

  // ----- Operations on one chain -----

  type KeyEq = (string, string) -> bool

  /** Position of the first entry whose key compares equal to key, or the length of the chain. */
  function Index<D>(c: Chain<D>, key: string, eq: KeyEq): (i: nat)
    ensures i <= |c|
    ensures i < |c| ==> eq(c[i].key, key)
    ensures forall j | 0 <= j < i :: !eq(c[j].key, key)
  {
    if c == [] then 0 else if eq(c[0].key, key) then 0 else 1 + Index(c[1..], key, eq)
  }

  ghost function ChainFind<D>(c: Chain<D>, key: string, eq: KeyEq): Option<Info<D>> {
    var i := Index(c, key, eq);
    if i < |c| then Some(c[i].value) else None
  }

  /** Update the entry in place, or put a new one in front. */
  ghost function ChainInsert<D>(c: Chain<D>, key: string, data: D, eq: KeyEq): Chain<D> {
    var i, v := Index(c, key, eq), Info(Truncated(key), data);
    if i < |c| then c[i := c[i].(value := v)] else [Entry(Truncated(key), v)] + c
  }

  ghost function ChainDelete<D>(c: Chain<D>, key: string, eq: KeyEq): Chain<D> {
    var i := Index(c, key, eq);
    if i < |c| then c[..i] + c[i + 1..] else c
  }

  // ----- The whole map -----

  type Chains<D> = seq<Chain<D>>

  ghost predicate Shape<D>(m: Chains<D>) { |m| == BUCKETS }

  ghost function Find<D>(m: Chains<D>, key: string, eq: KeyEq): Option<Info<D>>
    requires Shape(m)
  {
    ChainFind(m[Hash(key)], key, eq)
  }

  ghost function Insert<D>(m: Chains<D>, key: string, data: D, eq: KeyEq): Chains<D>
    requires Shape(m)
  {
    m[Hash(key) := ChainInsert(m[Hash(key)], key, data, eq)]
  }

  ghost function Delete<D>(m: Chains<D>, key: string, eq: KeyEq): Chains<D>
    requires Shape(m)
  {
    m[Hash(key) := ChainDelete(m[Hash(key)], key, eq)]
  }

  /** All entries, bucket by bucket and in chain order: the order in which list and save walk the map. */
  ghost function Flat<D>(m: Chains<D>): Chain<D> {
    if m == [] then [] else Flat(m[..|m| - 1]) + m[|m| - 1]
  }

  /** true equality, as _streq in ramfs_hash.c computes it */
  ghost predicate IsEquality(eq: KeyEq) { forall a, b :: eq(a, b) <==> a == b }

  ghost predicate UniqueKeys<D>(c: Chain<D>) {
    forall i, j | 0 <= i < j < |c| :: c[i].key != c[j].key
  }

  /** Keys are unique and short, hash to this bucket, and are repeated in the name field. */
  ghost predicate GoodChain<D>(c: Chain<D>, b: nat) {
    && UniqueKeys(c)
    && forall i {:trigger c[i]} | 0 <= i < |c| :: |c[i].key| <= MAX_NAME && Hash(c[i].key) == b && c[i].value.name == c[i].key
  }

  ghost predicate Good<D>(m: Chains<D>) {
    Shape(m) && forall b {:trigger m[b]} | 0 <= b < BUCKETS :: GoodChain(m[b], b)
  }

  // ----- Map laws -----

  lemma ChainFindAfterInsert<D>(c: Chain<D>, key: string, data: D, key': string, eq: KeyEq)
    requires IsEquality(eq) && UniqueKeys(c) && |key| <= MAX_NAME
    ensures UniqueKeys(ChainInsert(c, key, data, eq))
    ensures ChainFind(ChainInsert(c, key, data, eq), key', eq) ==
      if key' == key then Some(Info(key, data)) else ChainFind(c, key', eq)
  {
    var i, d := Index(c, key, eq), ChainInsert(c, key, data, eq);
    if i < |c| {
      assert forall j | 0 <= j < |c| :: d[j].key == c[j].key;
      IndexIs(d, key', eq, Index(c, key', eq));
    } else {
      IndexIs(d, key', eq, if key' == key then 0 else 1 + Index(c, key', eq));
    }
  }

  lemma {:induction false} IndexIs<D>(c: Chain<D>, key: string, eq: KeyEq, i: nat)
    requires i <= |c| && (forall j | 0 <= j < i :: !eq(c[j].key, key)) && (i < |c| ==> eq(c[i].key, key))
    ensures Index(c, key, eq) == i
  {
    if i > 0 {
      assert !eq(c[0].key, key);
      IndexIs(c[1..], key, eq, i - 1);
    }
  }

  lemma ChainDeleteAt<D>(c: Chain<D>, key: string, eq: KeyEq)
    requires IsEquality(eq) && UniqueKeys(c)
    ensures var i, d := Index(c, key, eq), ChainDelete(c, key, eq);
      |d| == (if i < |c| then |c| - 1 else |c|) && (forall j | 0 <= j < |d| :: d[j] == c[if j < i then j else j + 1])
    ensures UniqueKeys(ChainDelete(c, key, eq))
  {
    hide Index;
    var i, d := Index(c, key, eq), ChainDelete(c, key, eq);
    assert forall j | 0 <= j < |d| :: d[j] == c[if j < i then j else j + 1];
  }

  lemma ChainFindAfterDelete<D>(c: Chain<D>, key: string, key': string, eq: KeyEq)
    requires IsEquality(eq) && UniqueKeys(c)
    ensures UniqueKeys(ChainDelete(c, key, eq))
    ensures ChainFind(ChainDelete(c, key, eq), key', eq) == if key' == key then None else ChainFind(c, key', eq)
  {
    hide Index, ChainDelete;
    ChainDeleteAt(c, key, eq);
    var i, d, k := Index(c, key, eq), ChainDelete(c, key, eq), Index(c, key', eq);
    if i < |c| {
      IndexIs(d, key', eq, if key' == key then |d| else if k <= i then k else k - 1);
    } else {
      assert d == c;
    }
  }

  ghost function Empty<D>(): Chains<D> { seq(BUCKETS, _ => []) }

  lemma EmptyLaw<D>(key: string, eq: KeyEq)
    ensures Good(Empty<D>()) && Find(Empty<D>(), key, eq) == None
  {
  }

  /** Inserting a key of at most 127 characters sets that key and no other. */
  lemma InsertLaw<D>(m: Chains<D>, key: string, data: D, key': string, eq: KeyEq)
    requires Good(m) && IsEquality(eq) && |key| <= MAX_NAME
    ensures Good(Insert(m, key, data, eq))
    ensures Find(Insert(m, key, data, eq), key', eq) == if key' == key then Some(Info(key, data)) else Find(m, key', eq)
  {
    hide Hash, ChainInsert, ChainFind;
    ChainFindAfterInsert(m[Hash(key)], key, data, key', eq);
    ChainInsertGood(m[Hash(key)], key, data, eq);
  }

  lemma ChainInsertGood<D>(c: Chain<D>, key: string, data: D, eq: KeyEq)
    requires GoodChain(c, Hash(key)) && IsEquality(eq) && |key| <= MAX_NAME
    ensures GoodChain(ChainInsert(c, key, data, eq), Hash(key))
  {
    hide Hash;
    ChainFindAfterInsert(c, key, data, key, eq);
    var d, i := ChainInsert(c, key, data, eq), Index(c, key, eq);
    assert forall j | 0 <= j < |d| && j != i && i < |c| :: d[j] == c[j];
    assert i == |c| ==> forall j | 0 < j < |d| :: d[j] == c[j - 1];
  }

  lemma DeleteLaw<D>(m: Chains<D>, key: string, key': string, eq: KeyEq)
    requires Good(m) && IsEquality(eq)
    ensures Good(Delete(m, key, eq))
    ensures Find(Delete(m, key, eq), key', eq) == if key' == key then None else Find(m, key', eq)
  {
    hide Hash, ChainDelete, ChainFind;
    ChainFindAfterDelete(m[Hash(key)], key, key', eq);
    ChainDeleteGood(m[Hash(key)], key, Hash(key), eq);
  }

  lemma ChainDeleteGood<D>(c: Chain<D>, key: string, b: nat, eq: KeyEq)
    requires GoodChain(c, b) && IsEquality(eq)
    ensures GoodChain(ChainDelete(c, key, eq), b)
  {
    hide Hash;
    ChainFindAfterDelete(c, key, key, eq);
    var d, i := ChainDelete(c, key, eq), Index(c, key, eq);
    assert forall j | 0 <= j < |d| :: d[j] == c[if i < |c| && j >= i then j + 1 else j];
  }

  /** An inserted key is found again exactly if it has at most 127 characters: longer ones are stored cut. */
  lemma FoundAfterInsert<D>(m: Chains<D>, key: string, data: D, eq: KeyEq)
    requires Good(m) && IsEquality(eq)
    ensures Find(Insert(m, key, data, eq), key, eq) != None <==> |key| <= MAX_NAME
  {
    if |key| <= MAX_NAME {
      InsertLaw(m, key, data, key, eq);
    } else {
      hide Hash;
      var c := m[Hash(key)];
      var d := ChainInsert(c, key, data, eq);
      forall j | 0 <= j < |c| ensures !eq(c[j].key, key) {
        assert m[Hash(key)][j].key != key;
      }
      assert d == [Entry(Truncated(key), Info(Truncated(key), data))] + c;
      IndexIs(d, key, eq, |d|);
    }
  }

  // ----- Walking the whole map -----

  lemma {:induction false} FlatSize<D>(m: Chains<D>, b: nat, c: Chain<D>)
    requires b < |m|
    ensures |Flat(m[b := c])| == |Flat(m)| - |m[b]| + |c|
  {
    var n := |m| - 1;
    if b < n {
      assert m[b := c][..n] == m[..n][b := c];
      FlatSize(m[..n], b, c);
    } else {
      assert m[b := c][..n] == m[..n];
    }
  }

  /** The number of entries grows by one when the key was absent, and only then. */
  lemma CountAfterInsert<D>(m: Chains<D>, key: string, data: D, eq: KeyEq)
    requires Shape(m)
    ensures |Flat(Insert(m, key, data, eq))| == |Flat(m)| + if Find(m, key, eq) == None then 1 else 0
  {
    FlatSize(m, Hash(key), ChainInsert(m[Hash(key)], key, data, eq));
  }

  lemma CountAfterDelete<D>(m: Chains<D>, key: string, eq: KeyEq)
    requires Shape(m)
    ensures |Flat(Delete(m, key, eq))| == |Flat(m)| - if Find(m, key, eq) == None then 0 else 1
  {
    FlatSize(m, Hash(key), ChainDelete(m[Hash(key)], key, eq));
  }

  ghost predicate GoodUpTo<D>(m: Chains<D>) {
    && (forall b {:trigger m[b]} | 0 <= b < |m| :: UniqueKeys(m[b]))
    && (forall b, i {:trigger m[b][i]} | 0 <= b < |m| && 0 <= i < |m[b]| :: Hash(m[b][i].key) == b)
  }

  lemma {:induction false} FlatUnique<D>(m: Chains<D>)
    requires GoodUpTo(m)
    ensures UniqueKeys(Flat(m))
    ensures forall e | e in Flat(m) :: Hash(e.key) < |m| && e in m[Hash(e.key)]
    ensures forall b, i | 0 <= b < |m| && 0 <= i < |m[b]| :: m[b][i] in Flat(m)
  {
    hide Hash;
    if m != [] {
      var n := |m| - 1;
      var r, c := m[..n], m[n];
      FlatUnique(r);
      forall e | e in c ensures Hash(e.key) == n {
        var i :| 0 <= i < |c| && c[i] == e;
        assert m[n][i] == e;
      }
      FlatAppend(Flat(r), c, n);
      forall b, i | 0 <= b < |m| && 0 <= i < |m[b]| ensures m[b][i] in Flat(m) {
        assert b < n ==> r[b] == m[b];
      }
      forall e | e in Flat(m) ensures Hash(e.key) < |m| && e in m[Hash(e.key)] {
        if e in Flat(r) {
          assert r[Hash(e.key)] == m[Hash(e.key)];
        }
      }
    }
  }

  lemma FlatAppend<D>(f: Chain<D>, c: Chain<D>, n: nat)
    requires UniqueKeys(f) && UniqueKeys(c)
    requires forall e | e in f :: Hash(e.key) < n
    requires forall e | e in c :: Hash(e.key) == n
    ensures UniqueKeys(f + c)
  {
    hide Hash;
    var s := f + c;
    forall i, j | 0 <= i < j < |s| ensures s[i].key != s[j].key {
      if i < |f| <= j {
        assert s[i] in f && s[j] in c;
      }
    }
  }

  /** A walk over the map meets every key exactly once, with the value that a lookup gives. */
  lemma FlatIsTheMap<D>(m: Chains<D>, eq: KeyEq, e: Entry<D>)
    requires Good(m) && IsEquality(eq)
    ensures UniqueKeys(Flat(m))
    ensures e in Flat(m) <==> Find(m, e.key, eq) == Some(e.value)
  {
    hide Hash;
    FlatUnique(m);
    var c := m[Hash(e.key)];
    var i := Index(c, e.key, eq);
    if e in Flat(m) {
      var j :| 0 <= j < |c| && c[j] == e;
      IndexIs(c, e.key, eq, j);
    } else if i < |c| {
      assert m[Hash(e.key)][i] in Flat(m);
      assert c[i] == Entry(e.key, c[i].value);
    }
  }
}