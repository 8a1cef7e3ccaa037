// ramfs_hash.c, and its twin ramfs_hash_file.c, which differs only in the key comparison.
module RamfsHash {
  import opened ChainMap
  import opened Common

  class Node<D> {
    const key: string
    var value: Info<D>
    var next: Node?<D>
    ghost const home: nat     // the bucket whose chain the node is on

    constructor (key: string, value: Info<D>, next: Node?<D>, ghost home: nat)
      ensures this.key == key && this.value == value && this.next == next && this.home == home
    {
      this.key, this.value, this.next, this.home := key, value, next, home;
    }
  }

  ghost function NodeAt<D>(s: seq<Node<D>>, i: int): Node?<D> {
    if 0 <= i < |s| then s[i] else null
  }

  /** The nodes s are linked, belong to bucket b and hold the entries of chain c. */
  ghost predicate Holds<D>(s: seq<Node<D>>, c: Chain<D>, b: nat)
    reads s`next, s`value
  {
    && |s| == |c| && Injective(s)
    && (forall i {:trigger s[i]} | 0 <= i < |s| :: s[i].home == b && s[i].key == c[i].key)
    && (forall i {:trigger s[i].value} | 0 <= i < |s| :: s[i].value == c[i].value)
    && (forall i {:trigger s[i].next} | 0 <= i < |s| :: s[i].next == NodeAt(s, i + 1))
  }

  /** _streq: compare up to the first NUL. */
  method Streq(a: string, b: string) returns (r: bool)
    requires CString(a) && CString(b)
    ensures r == (a == b)
  {
    var i := 0;
    while i < |a| && i < |b|
      invariant i <= |a| && i <= |b| && a[..i] == b[..i]
    {
      if a[i] != b[i] {
        return false;
      }
      i := i + 1;
    }
    r := |a| == |b|;
  }

  /** _strcpy */
  method CopyName(src: string) returns (dest: string)
    ensures dest == Truncated(src)
  {
    var i := 0;
    dest := [];
    while i < |src| && i < MAX_NAME
      invariant i <= |src| && i <= MAX_NAME && dest == src[..i]
    {
      dest := dest + [src[i]];
      i := i + 1;
    }
  }

  /** _hash */
  method HashOf(key: string) returns (b: nat)
    ensures b == Hash(key)
  {
    var h, i := 5381, 0;
    while i < |key|
      invariant i <= |key| && 0 <= h
      invariant Djb2(key[i..], h) == Djb2(key, 5381)
    {
      h := (h * 33 + SignedChar(key[i])) % 0x1_0000_0000;
      i := i + 1;
    }
    b := h % BUCKETS;
  }

  ghost predicate Within<D>(s: seq<Node<D>>, repr: set<Node<D>>) {
    forall x | x in s :: x in repr
  }

  // ----- One chain, after the writes of an operation -----

  lemma UpdatedChain<D>(s: seq<Node<D>>, c: Chain<D>, b: nat, i: nat, v: Info<D>)
    requires |s| == |c| && i < |s| && Injective(s)
    requires forall j {:trigger s[j]} | 0 <= j < |s| :: s[j].home == b && s[j].key == c[j].key
    requires forall j {:trigger s[j].value} | 0 <= j < |s| :: s[j].value == if j == i then v else c[j].value
    requires forall j {:trigger s[j].next} | 0 <= j < |s| :: s[j].next == NodeAt(s, j + 1)
    ensures Holds(s, c[i := c[i].(value := v)], b)
  {
  }

  lemma PushedChain<D>(s: seq<Node<D>>, c: Chain<D>, b: nat, n: Node<D>)
    requires Holds(s, c, b) && n !in s && n.home == b && n.next == NodeAt(s, 0)
    ensures Holds([n] + s, [Entry(n.key, n.value)] + c, b)
  {
    hide NodeAt;
    var t, d := [n] + s, [Entry(n.key, n.value)] + c;
    assert forall j | 0 < j < |t| :: t[j] == s[j - 1] && s[j - 1] in s;
    assert forall j | 0 < j < |d| :: d[j] == c[j - 1];
    forall j | 0 <= j < |t| ensures t[j].next == NodeAt(t, j + 1) {
      PushedNext(s, n, j);
    }
  }

  lemma PushedNext<D>(s: seq<Node<D>>, n: Node<D>, j: nat)
    requires j <= |s|
    ensures NodeAt([n] + s, j + 1) == NodeAt(s, j) && ([n] + s)[j] == (if j == 0 then n else s[j - 1])
  {
  }

  lemma CutChain<D>(s: seq<Node<D>>, c: Chain<D>, b: nat, i: nat)
    requires |s| == |c| && i < |s| && Injective(s)
    requires forall j {:trigger s[j]} | 0 <= j < |s| :: s[j].home == b && s[j].key == c[j].key
    requires forall j {:trigger s[j].value} | 0 <= j < |s| :: s[j].value == c[j].value
    requires forall j {:trigger s[j].next} | 0 <= j < |s| && j != i :: s[j].next == if j == i - 1 then NodeAt(s, i + 1) else NodeAt(s, j + 1)
    ensures Holds(s[..i] + s[i + 1..], c[..i] + c[i + 1..], b)
  {
    hide NodeAt;
    var t, d := s[..i] + s[i + 1..], c[..i] + c[i + 1..];
    forall j | 0 <= j < |t|
      ensures t[j].home == b && t[j].key == d[j].key && t[j].value == d[j].value && t[j].next == NodeAt(t, j + 1)
    {
      CutNext(s, c, i, j);
    }
    assert forall j | 0 <= j < |t| :: t[j] == s[if j < i then j else j + 1];
  }

  lemma CutNext<D>(s: seq<Node<D>>, c: Chain<D>, i: nat, j: nat)
    requires |s| == |c| && i < |s| && j < |s| - 1
    ensures var t := s[..i] + s[i + 1..]; var d := c[..i] + c[i + 1..]; var k := if j < i then j else j + 1;
      t[j] == s[k] && d[j] == c[k] && NodeAt(t, j + 1) == (if k == i - 1 then NodeAt(s, i + 1) else NodeAt(s, k + 1))
  {
  }

  class HashMap<D> {
    const eq: KeyEq
    var buckets: array<Node?<D>>
    var count: nat
    ghost var nodes: seq<seq<Node<D>>>
    ghost var entries: Chains<D>
    ghost var repr: set<Node<D>>

    ghost predicate Valid()
      reads this, buckets, repr
    {
      && buckets.Length == |nodes| == |entries| == BUCKETS
      && (forall b {:trigger buckets[b]} {:trigger nodes[b]} | 0 <= b < BUCKETS :: buckets[b] == NodeAt(nodes[b], 0))
      && (forall b {:trigger nodes[b]} {:trigger entries[b]} | 0 <= b < BUCKETS ::
            Within(nodes[b], repr) && Holds(nodes[b], entries[b], b))
      && count == |Flat(entries)|
    }

    /** init */
    constructor (eq: KeyEq)
      ensures Valid() && fresh(buckets) && fresh(repr) && entries == Empty() && this.eq == eq
    {
      this.eq := eq;
      buckets := new Node?<D>[BUCKETS](_ => null);
      count := 0;
      nodes := seq(BUCKETS, _ => []);
      entries := Empty();
      repr := {};
      new;
      FlatEmpty<D>();
    }

    /** The search loop shared by insert, find and delete: the first node whose key compares equal, and the one before it. */
    method Search(b: nat, key: string) returns (node: Node?<D>, prev: Node?<D>, ghost i: nat)
      requires Valid() && b < BUCKETS
      ensures i == Index(entries[b], key, eq) && |nodes[b]| == |entries[b]|
      ensures node == NodeAt(nodes[b], Index(entries[b], key, eq)) && prev == NodeAt(nodes[b], Index(entries[b], key, eq) - 1)
    {
      ghost var s, c := nodes[b], entries[b];
      node, prev, i := buckets[b], null, 0;
      while node != null
        invariant i <= |s| && node == NodeAt(s, i) && prev == NodeAt(s, i - 1)
        invariant forall j | 0 <= j < i :: !eq(c[j].key, key)
        decreases |s| - i
      {
        if eq(node.key, key) {
          break;
        }
        prev, node, i := node, node.next, i + 1;
      }
      IndexIs(c, key, eq, i);
    }

    /** find: the value stored under the key, or none. */
    method Find(key: string) returns (r: Option<Info<D>>)
      requires Valid()
      ensures r == ChainMap.Find(entries, key, eq)
    {
      var idx := HashOf(key);
      var node, prev;
      ghost var i;
      node, prev, i := Search(idx, key);
      r := if node == null then None else Some(node.value);
    }

    /** The chains of the other buckets do not contain a node of bucket b. */
    lemma OtherChains(b: nat, n: Node<D>)
      requires Valid() && b < BUCKETS && n.home == b
      ensures forall d {:trigger nodes[d]} | 0 <= d < BUCKETS && d != b :: n !in nodes[d]
    {
    }

    method UpdateNode(b: nat, node: Node<D>, v: Info<D>, ghost i: nat)
      requires Valid() && b < BUCKETS && i < |nodes[b]| && node == nodes[b][i]
      modifies this`entries, repr`value
      ensures Valid() && entries == old(entries)[b := old(entries)[b][i := old(entries)[b][i].(value := v)]]
    {
      hide Flat;
      OtherChains(b, node);
      ghost var c := entries[b];
      node.value := v;
      UpdatedChain(nodes[b], c, b, i, v);
      FlatSize(entries, b, c[i := c[i].(value := v)]);
      entries := entries[b := c[i := c[i].(value := v)]];
    }

    method PushNode(b: nat, key: string, v: Info<D>)
      requires Valid() && b < BUCKETS
      modifies this`entries, this`nodes, this`repr, this`count, buckets
      ensures Valid() && entries == old(entries)[b := [Entry(key, v)] + old(entries)[b]]
      ensures fresh(repr - old(repr))
    {
      hide Flat;
      var n := new Node(key, v, buckets[b], b);
      PushedChain(nodes[b], entries[b], b, n);
      FlatSize(entries, b, [Entry(key, v)] + entries[b]);
      buckets[b] := n;
      nodes, entries, repr := nodes[b := [n] + nodes[b]], entries[b := [Entry(key, v)] + entries[b]], repr + {n};
      count := count + 1;
    }

    /** The node before position i is at position i - 1, and the first one is in the bucket. */
    lemma Neighbours(b: nat, i: nat)
      requires Valid() && b < BUCKETS && i < |nodes[b]|
      ensures NodeAt(nodes[b], i - 1) == (if i == 0 then null else nodes[b][i - 1]) && nodes[b][i].next == NodeAt(nodes[b], i + 1)
      ensures i + 1 >= |nodes[b]| ==> NodeAt(nodes[b], i + 1) == null
      ensures i == 0 ==> NodeAt(nodes[b][..i] + nodes[b][i + 1..], 0) == NodeAt(nodes[b], 1)
      ensures i > 0 ==> NodeAt(nodes[b][..i] + nodes[b][i + 1..], 0) == NodeAt(nodes[b], 0) == buckets[b]
      ensures forall j, k | 0 <= j < |nodes[b]| && 0 <= k < |nodes[b]| && nodes[b][j] == nodes[b][k] :: j == k
    {
    }

    method CutNode(b: nat, node: Node<D>, prev: Node?<D>, ghost i: nat)
      requires Valid() && b < BUCKETS && i < |nodes[b]| && node == nodes[b][i] && prev == NodeAt(nodes[b], i - 1)
      modifies this`entries, this`nodes, this`count, buckets, repr`next
      ensures Valid() && entries == old(entries)[b := old(entries)[b][..i] + old(entries)[b][i + 1..]]
    {
      hide Flat, Injective, NodeAt;
      Neighbours(b, i);
      ghost var s, c := nodes[b], entries[b];
      if prev != null {
        OtherChains(b, prev);
        prev.next := node.next;
      } else {
        buckets[b] := node.next;
      }
      CutChain(s, c, b, i);
      FlatSize(entries, b, c[..i] + c[i + 1..]);
      nodes, entries := nodes[b := s[..i] + s[i + 1..]], entries[b := c[..i] + c[i + 1..]];
      count := count - 1;
    }

    /** insert: update in place or push a new node; oom says that malloc fails. */
    method Insert(key: string, data: D, oom: bool) returns (ok: bool)
      requires Valid()
      modifies this, buckets, repr
      ensures Valid() && fresh(repr - old(repr)) && buckets == old(buckets)
      ensures ok == !(oom && ChainMap.Find(old(entries), key, eq) == None)
      ensures entries == if ok then ChainMap.Insert(old(entries), key, data, eq) else old(entries)
    {
      hide Flat;
      var idx := HashOf(key);
      var node, prev;
      ghost var i;
      node, prev, i := Search(idx, key);
      var name := CopyName(key);
      if node != null {
        UpdateNode(idx, node, Info(name, data), i);
        return true;
      }
      if oom {
        return false;
      }
      PushNode(idx, name, Info(name, data));
      ok := true;
    }

    /** delete */
    method Delete(key: string) returns (ok: bool)
      requires Valid()
      modifies this, buckets, repr
      ensures Valid() && repr == old(repr) && buckets == old(buckets)
      ensures ok == (ChainMap.Find(old(entries), key, eq) != None)
      ensures entries == ChainMap.Delete(old(entries), key, eq)
    {
      hide Flat;
      var idx := HashOf(key);
      var node, prev;
      ghost var i;
      node, prev, i := Search(idx, key);
      if node == null {
        return false;
      }
      CutNode(idx, node, prev, i);
      ok := true;
    }

    /** list: the keys of all nodes, bucket by bucket; NULL for an empty map, or if oom says that there is no memory. */
    method List(oom: bool) returns (result: Option<seq<string>>)
      requires Valid()
      ensures result == None <==> Flat(entries) == [] || oom
      ensures result.Some? ==>
        && |result.value| == |Flat(entries)| == count
        && forall i | 0 <= i < count :: result.value[i] == Truncated(Flat(entries)[i].key)
    {
      hide Flat, Holds, NodeAt;
      if count == 0 || oom {
        return None;
      }
      var keys := [];
      FlatStart(entries);
      var b := 0;
      while b < BUCKETS
        invariant b <= BUCKETS && |keys| == |Flat(entries[..b])|
        invariant forall i | 0 <= i < |keys| :: keys[i] == Truncated(Flat(entries[..b])[i].key)
      {
        var more := ListChain(b);
        FlatStep(entries, b);
        keys := keys + more;
        b := b + 1;
      }
      result := Some(keys);
    }

    method ListChain(b: nat) returns (keys: seq<string>)
      requires Valid() && b < BUCKETS
      ensures |keys| == |entries[b]| && forall i | 0 <= i < |keys| :: keys[i] == Truncated(entries[b][i].key)
    {
      keys := [];
      var node := buckets[b];
      while node != null
        invariant |keys| <= |nodes[b]| && node == NodeAt(nodes[b], |keys|)
        invariant forall i | 0 <= i < |keys| :: keys[i] == Truncated(entries[b][i].key)
        decreases |nodes[b]| - |keys|
      {
        var name := CopyName(node.key);
        keys := keys + [name];
        node := node.next;
      }
    }

    /** destroy: every node is freed once, chain by chain, and the map is empty again. */
    method Destroy() returns (freed: seq<Node<D>>)
      requires Valid()
      modifies this, buckets
      ensures Valid() && entries == Empty() && count == 0 && buckets == old(buckets)
      ensures |freed| == old(count) && forall b, i | 0 <= b < BUCKETS && 0 <= i < |old(nodes)[b]| :: old(nodes)[b][i] in freed
    {
      freed := FreeAll();
      FlatEmpty<D>();
      count, nodes, entries := 0, seq(BUCKETS, _ => []), Empty();
    }

    method FreeAll() returns (freed: seq<Node<D>>)
      requires Valid()
      modifies buckets
      ensures forall b {:trigger buckets[b]} | 0 <= b < BUCKETS :: buckets[b] == null
      ensures |freed| == |Flat(entries)| && forall b, i | 0 <= b < BUCKETS && 0 <= i < |nodes[b]| :: nodes[b][i] in freed
    {
      hide Flat;
      freed := [];
      FlatStart(entries);
      var b := 0;
      while b < BUCKETS
        invariant b <= BUCKETS && |freed| == |Flat(entries[..b])|
        invariant forall d, i | 0 <= d < b && 0 <= i < |nodes[d]| :: nodes[d][i] in freed
        invariant forall d {:trigger buckets[d]} | 0 <= d < BUCKETS :: buckets[d] == if d < b then null else NodeAt(nodes[d], 0)
      {
        var part := FreeChain(buckets[b], nodes[b], entries[b], b);
        FlatStep(entries, b);
        freed := freed + part;
        buckets[b] := null;
        b := b + 1;
      }
    }

    static method FreeChain(first: Node?<D>, ghost s: seq<Node<D>>, ghost c: Chain<D>, ghost b: nat) returns (freed: seq<Node<D>>)
      requires Holds(s, c, b) && first == NodeAt(s, 0)
      ensures freed == s && |freed| == |c|
    {
      freed := [];
      var node := first;
      while node != null
        invariant |freed| <= |s| && node == NodeAt(s, |freed|) && freed == s[..|freed|]
        decreases |s| - |freed|
      {
        freed := freed + [node];
        node := node.next;
      }
    }
  }

  lemma FlatStart<D>(m: Chains<D>)
    ensures Flat(m[..0]) == [] && Flat(m[..|m|]) == Flat(m)
  {
    assert m[..|m|] == m;
  }

  lemma FlatStep<D>(m: Chains<D>, b: nat)
    requires b < |m|
    ensures Flat(m[..b + 1]) == Flat(m[..b]) + m[b]
  {
    assert m[..b + 1][..b] == m[..b];
  }

  lemma FlatEmpty<D>()
    ensures Flat(Empty<D>()) == []
  {
    FlatOfEmpty<D>(BUCKETS);
  }

  lemma {:induction false} FlatOfEmpty<D>(n: nat)
    ensures Flat<D>(seq(n, _ => [])) == []
  {
    if n > 0 {
      assert seq<Chain<D>>(n, _ => [])[..n - 1] == seq(n - 1, _ => []);
      FlatOfEmpty<D>(n - 1);
    }
  }
}