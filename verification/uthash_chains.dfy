// uthash: every item stands in two intrusive doubly linked lists at once, the
// application-order list and the chain of its bucket.
module UtHashChains {
  import opened Bits
  import opened Common
  import opened StableSort

  const HASH_INITIAL_NUM_BUCKETS: nat := 32
  const HASH_INITIAL_NUM_BUCKETS_LOG2: nat := 5
  const HASH_BKT_CAPACITY_THRESH: nat := 10

  /** HASH_TO_BKT */
  function HashToBkt(hashv: nat, numBkts: nat): (bkt: nat)
    requires numBkts > 0
    ensures bkt < numBkts
  {
    BitAnd(hashv, numBkts - 1)
  }

  /** UT_hash_handle. The key and its hash value are fixed while the item is in a table. */
  class Handle {
    const key: string
    const hashv: nat
    var prev: Handle?
    var next: Handle?
    var hhPrev: Handle?
    var hhNext: Handle?

    constructor (key: string, hashv: nat)
      ensures this.key == key && this.hashv == hashv
    {
      this.key := key;
      this.hashv := hashv;
      prev, next, hhPrev, hhNext := null, null, null, null;
    }
  }

  /** UT_hash_bucket */
  datatype Bucket = Bucket(hhHead: Handle?, count: nat, expandMult: nat)

  /** expand_mult of each bucket */
  ghost function MultsOf(bs: seq<Bucket>): (m: seq<nat>)
    ensures |m| == |bs| && forall b {:trigger m[b]} {:trigger bs[b]} | 0 <= b < |m| :: m[b] == bs[b].expandMult
  {
    seq(|bs|, b requires 0 <= b < |bs| => bs[b].expandMult)
  }

  ghost function At(s: seq<Handle>, i: int): Handle? {
    if 0 <= i < |s| then s[i] else null
  }

  lemma InjectiveRemove(s: seq<Handle>, k: nat)
    requires Injective(s) && k < |s|
    ensures Injective(s[..k] + s[k + 1..]) && s[k] !in s[..k] + s[k + 1..]
    ensures forall h | h in s && h != s[k] :: h in s[..k] + s[k + 1..]
    ensures forall h | h in s[..k] + s[k + 1..] :: h in s
  {
    var t := s[..k] + s[k + 1..];
    assert forall i | 0 <= i < |t| :: t[i] == s[if i < k then i else i + 1];
    forall h | h in s && h != s[k] ensures h in t {
      var i :| 0 <= i < |s| && s[i] == h;
      assert t[if i < k then i else i - 1] == h;
    }
  }

  lemma RemoveNeighbours(s: seq<Handle>, k: nat, i: nat)
    requires k < |s| && i < |s| - 1
    ensures var t := s[..k] + s[k + 1..]; var j := if i < k then i else i + 1;
      && t[i] == s[j]
      && At(t, i + 1) == (if j == k - 1 then At(s, k + 1) else At(s, j + 1))
      && At(t, i - 1) == (if j == k + 1 then At(s, k - 1) else At(s, j - 1))
  {
  }

  lemma RemoveEnds(s: seq<Handle>, k: nat)
    requires k < |s| && |s| > 1
    ensures var t := s[..k] + s[k + 1..];
      && At(t, 0) == (if k == 0 then At(s, 1) else At(s, 0))
      && t[|t| - 1] == (if k == |s| - 1 then s[|s| - 2] else s[|s| - 1])
  {
  }

  lemma InsertEnds(s: seq<Handle>, k: nat, x: Handle)
    requires k < |s|
    ensures var t := s[..k] + [x] + s[k..]; At(t, 0) == (if k == 0 then x else At(s, 0)) && t[|t| - 1] == s[|s| - 1]
  {
  }

  lemma InsertNeighbours(s: seq<Handle>, k: nat, x: Handle, i: nat)
    requires k <= |s| && i <= |s|
    ensures var t := s[..k] + [x] + s[k..]; var j := if i < k then i else i - 1;
      && (i == k ==> t[i] == x && At(t, i + 1) == At(s, k) && At(t, i - 1) == At(s, k - 1))
      && (i != k ==>
        && t[i] == s[j]
        && At(t, i + 1) == (if j == k - 1 then x else At(s, j + 1))
        && At(t, i - 1) == (if j == k then x else At(s, j - 1)))
  {
  }

  lemma InjectiveInsert(s: seq<Handle>, k: nat, x: Handle)
    requires Injective(s) && k <= |s| && x !in s
    ensures Injective(s[..k] + [x] + s[k..])
    ensures (set h | h in s[..k] + [x] + s[k..]) == (set h | h in s) + {x}
  {
    var t := s[..k] + [x] + s[k..];
    assert forall i | 0 <= i < |t| :: t[i] == if i < k then s[i] else if i == k then x else s[i - 1];
    forall h | h in s ensures h in t {
      var i :| 0 <= i < |s| && s[i] == h;
      assert t[if i < k then i else i + 1] == h;
    }
    assert t[k] == x;
  }

  /** next and prev are mutually inverse along s and null at its ends. */
  ghost predicate AppLinks(s: seq<Handle>)
    reads s`next, s`prev
  {
    && (forall i {:trigger s[i].next} | 0 <= i < |s| :: s[i].next == At(s, i + 1))
    && (forall i {:trigger s[i].prev} | 0 <= i < |s| :: s[i].prev == At(s, i - 1))
  }

  lemma NoLinks()
    ensures AppLinks([]) && Injective<Handle>([])
  {
  }

  lemma AloneIsOnly(s: seq<Handle>, k: nat)
    requires AppLinks(s) && k < |s|
    ensures s[k].prev == null && s[k].next == null <==> |s| == 1
  {
  }

  /** s[k] has been bypassed: the rest is linked. */
  lemma BypassedLinks(s: seq<Handle>, k: nat)
    requires k < |s|
    requires forall j {:trigger s[j].next} | 0 <= j < |s| && j != k :: s[j].next == if j == k - 1 then At(s, k + 1) else At(s, j + 1)
    requires forall j {:trigger s[j].prev} | 0 <= j < |s| && j != k :: s[j].prev == if j == k + 1 then At(s, k - 1) else At(s, j - 1)
    ensures AppLinks(s[..k] + s[k + 1..])
  {
    hide At;
    var t := s[..k] + s[k + 1..];
    forall i | 0 <= i < |t| ensures t[i].next == At(t, i + 1) && t[i].prev == At(t, i - 1) {
      RemoveNeighbours(s, k, i);
    }
  }

  /** x has been linked in front of s[k]. */
  lemma InsertedLinks(s: seq<Handle>, k: nat, x: Handle)
    requires k < |s| && x.next == s[k] && x.prev == At(s, k - 1)
    requires forall j {:trigger s[j].next} | 0 <= j < |s| :: s[j].next == if j == k - 1 then x else At(s, j + 1)
    requires forall j {:trigger s[j].prev} | 0 <= j < |s| :: s[j].prev == if j == k then x else At(s, j - 1)
    ensures AppLinks(s[..k] + [x] + s[k..])
  {
    assert At(s, k) == s[k];
    hide At;
    var t := s[..k] + [x] + s[k..];
    forall i | 0 <= i < |t| ensures t[i].next == At(t, i + 1) && t[i].prev == At(t, i - 1) {
      InsertNeighbours(s, k, x, i);
    }
  }

  /** The bucket array heads the given chains; every chained item lies in items and hashes to its bucket. */
  ghost predicate Linked(bs: array<Bucket>, chains: seq<seq<Handle>>, items: set<Handle>)
    reads bs, items`hhNext, items`hhPrev
  {
    && bs.Length == |chains| > 0
    && (forall b {:trigger bs[b]} {:trigger chains[b]} | 0 <= b < |chains| ::
          bs[b].hhHead == At(chains[b], 0) && bs[b].count == |chains[b]| && Injective(chains[b]))
    && (forall b, i {:trigger chains[b][i]} | 0 <= b < |chains| && 0 <= i < |chains[b]| ::
          chains[b][i] in items && HashToBkt(chains[b][i].hashv, |chains|) == b)
    && (forall b, i {:trigger chains[b][i].hhNext} | 0 <= b < |chains| && 0 <= i < |chains[b]| ::
          chains[b][i].hhNext == At(chains[b], i + 1))
    && (forall b, i {:trigger chains[b][i].hhPrev} | 0 <= b < |chains| && 0 <= i < |chains[b]| ::
          chains[b][i].hhPrev == At(chains[b], i - 1))
  }

  /** Every item stands in the chain its hash value selects. */
  ghost predicate Placed(chains: seq<seq<Handle>>, items: set<Handle>)
    requires |chains| > 0
  {
    forall h {:trigger h in items} | h in items :: h in chains[HashToBkt(h.hashv, |chains|)]
  }

  /** h has been pushed in front of chain b. */
  lemma PushedChain(bs: array<Bucket>, chains: seq<seq<Handle>>, items: set<Handle>, b: nat, h: Handle)
    requires bs.Length == |chains| && b < |chains| && h !in items && HashToBkt(h.hashv, |chains|) == b
    requires forall d, i {:trigger chains[d][i]} | 0 <= d < |chains| && 0 <= i < |chains[d]| ::
               chains[d][i] in items && HashToBkt(chains[d][i].hashv, |chains|) == d
    requires forall d {:trigger bs[d]} {:trigger chains[d]} | 0 <= d < |chains| ::
               && bs[d].hhHead == (if d == b then h else At(chains[d], 0))
               && bs[d].count == |chains[d]| + (if d == b then 1 else 0)
               && Injective(chains[d])
    requires h.hhNext == At(chains[b], 0) && h.hhPrev == null
    requires forall d, i {:trigger chains[d][i].hhNext} | 0 <= d < |chains| && 0 <= i < |chains[d]| ::
               chains[d][i].hhNext == At(chains[d], i + 1)
    requires forall d, i {:trigger chains[d][i].hhPrev} | 0 <= d < |chains| && 0 <= i < |chains[d]| ::
               chains[d][i].hhPrev == if d == b && i == 0 then h else At(chains[d], i - 1)
    ensures Linked(bs, chains[b := [h] + chains[b]], items + {h})
  {
    hide HashToBkt, At;
    var c := [h] + chains[b];
    var cs := chains[b := c];
    assert forall i | 0 < i < |c| :: c[i] == chains[b][i - 1];
    assert Injective(c);
    PushNeighbours(chains[b], h, 0);
    forall d, i | 0 <= d < |cs| && 0 <= i < |cs[d]|
      ensures cs[d][i] in items + {h} && HashToBkt(cs[d][i].hashv, |cs|) == d
      ensures cs[d][i].hhNext == At(cs[d], i + 1) && cs[d][i].hhPrev == At(cs[d], i - 1)
    {
      if d == b {
        PushNeighbours(chains[b], h, i);
      } else {
        assert cs[d] == chains[d];
      }
    }
  }

  lemma PushNeighbours(s: seq<Handle>, h: Handle, i: nat)
    requires i <= |s|
    ensures var t := [h] + s;
      && At(t, i) == t[i] == (if i == 0 then h else s[i - 1])
      && At(t, i + 1) == At(s, i)
      && At(t, i - 1) == (if i == 0 then null else if i == 1 then h else At(s, i - 2))
  {
  }

  ghost function Remove(s: seq<Handle>, k: nat): seq<Handle>
    requires k < |s|
  {
    s[..k] + s[k + 1..]
  }

  /** chains[b][k] has been bypassed: the other items are chained. */
  lemma BypassedChain(bs: array<Bucket>, chains: seq<seq<Handle>>, items: set<Handle>, b: nat, k: nat)
    requires bs.Length == |chains| && b < |chains| && k < |chains[b]| && Injective(chains[b])
    requires forall d, i {:trigger chains[d][i]} | 0 <= d < |chains| && 0 <= i < |chains[d]| ::
               chains[d][i] in items && HashToBkt(chains[d][i].hashv, |chains|) == d
    requires forall d {:trigger bs[d]} {:trigger chains[d]} | 0 <= d < |chains| && d != b ::
               bs[d].hhHead == At(chains[d], 0) && bs[d].count == |chains[d]| && Injective(chains[d])
    requires bs[b].hhHead == (if k == 0 then At(chains[b], 1) else At(chains[b], 0)) && bs[b].count == |chains[b]| - 1
    requires forall d, i {:trigger chains[d][i].hhNext} | 0 <= d < |chains| && 0 <= i < |chains[d]| && !(d == b && i == k) ::
               chains[d][i].hhNext == if d == b && i == k - 1 then At(chains[b], k + 1) else At(chains[d], i + 1)
    requires forall d, i {:trigger chains[d][i].hhPrev} | 0 <= d < |chains| && 0 <= i < |chains[d]| && !(d == b && i == k) ::
               chains[d][i].hhPrev == if d == b && i == k + 1 then At(chains[b], k - 1) else At(chains[d], i - 1)
    ensures Linked(bs, chains[b := Remove(chains[b], k)], items - {chains[b][k]})
  {
    hide At, HashToBkt;
    var c, t := chains[b], Remove(chains[b], k);
    var cs := chains[b := t];
    InjectiveRemove(c, k);
    RemoveHead(c, k);
    forall d, i | 0 <= d < |cs| && 0 <= i < |cs[d]|
      ensures cs[d][i] in items - {c[k]} && HashToBkt(cs[d][i].hashv, |cs|) == d
      ensures cs[d][i].hhNext == At(cs[d], i + 1) && cs[d][i].hhPrev == At(cs[d], i - 1)
    {
      if d == b {
        RemoveNeighbours(c, k, i);
      } else {
        assert cs[d][i] == chains[d][i];
        assert HashToBkt(c[k].hashv, |chains|) == b;
      }
    }
  }

  lemma RemoveHead(s: seq<Handle>, k: nat)
    requires k < |s|
    ensures At(Remove(s, k), 0) == if k == 0 then At(s, 1) else At(s, 0)
  {
  }

  lemma PlacedRemove(chains: seq<seq<Handle>>, items: set<Handle>, h: Handle, k: nat)
    requires |chains| > 0 && Placed(chains, items)
    requires var c := chains[HashToBkt(h.hashv, |chains|)]; k < |c| && c[k] == h && Injective(c)
    ensures var b := HashToBkt(h.hashv, |chains|); Placed(chains[b := Remove(chains[b], k)], items - {h})
  {
    hide HashToBkt;
    InjectiveRemove(chains[HashToBkt(h.hashv, |chains|)], k);
  }

  ghost function TotalLen(chains: seq<seq<Handle>>): nat {
    if chains == [] then 0 else TotalLen(chains[..|chains| - 1]) + |chains[|chains| - 1]|
  }

  lemma {:induction false} TotalLenUpdate(chains: seq<seq<Handle>>, b: nat, c: seq<Handle>)
    requires b < |chains|
    ensures TotalLen(chains[b := c]) == TotalLen(chains) - |chains[b]| + |c|
    ensures TotalLen(chains) >= |chains[b]|
  {
    var n := |chains| - 1;
    if b == n {
      assert chains[b := c][..n] == chains[..n];
    } else {
      assert chains[b := c][..n] == chains[..n][b := c];
      TotalLenUpdate(chains[..n], b, c);
    }
  }

  lemma TotalLenPrefix(chains: seq<seq<Handle>>, i: nat)
    requires i < |chains|
    ensures TotalLen(chains[..i + 1]) == TotalLen(chains[..i]) + |chains[i]|
  {
    assert chains[..i + 1][..i] == chains[..i];
  }

  lemma {:induction false} TotalLenEmpty(n: nat)
    ensures TotalLen(seq(n, _ => [])) == 0
  {
    if n > 0 {
      assert seq<seq<Handle>>(n, _ => [])[..n - 1] == seq(n - 1, _ => []);
      TotalLenEmpty(n - 1);
    }
  }

  // ----- Expansion -----

  /** The sum over all buckets of the chain length in excess of the ideal. */
  ghost function TotalExcess(chains: seq<seq<Handle>>, ideal: nat): nat {
    if chains == [] then 0
    else TotalExcess(chains[..|chains| - 1], ideal) + Excess(|chains[|chains| - 1]|, ideal)
  }

  function Excess(n: nat, ideal: nat): nat { if n > ideal then n - ideal else 0 }

  lemma {:induction false} TotalExcessUpdate(chains: seq<seq<Handle>>, b: nat, c: seq<Handle>, ideal: nat)
    requires b < |chains|
    ensures TotalExcess(chains[b := c], ideal) == TotalExcess(chains, ideal) - Excess(|chains[b]|, ideal) + Excess(|c|, ideal)
  {
    var n := |chains| - 1;
    if b == n {
      assert chains[b := c][..n] == chains[..n];
    } else {
      assert chains[b := c][..n] == chains[..n][b := c];
      TotalExcessUpdate(chains[..n], b, c, ideal);
    }
  }

  lemma {:induction false} TotalExcessEmpty(n: nat, ideal: nat)
    ensures TotalExcess(seq(n, _ => []), ideal) == 0
  {
    if n > 0 {
      assert seq<seq<Handle>>(n, _ => [])[..n - 1] == seq(n - 1, _ => []);
      TotalExcessEmpty(n - 1, ideal);
    }
  }

  /** expand_mult of a new bucket after count items went into it. */
  function ExpandMult(count: nat, ideal: nat): nat {
    if count == 0 then 0
    else
      var m := ExpandMult(count - 1, ideal);
      if count > ideal && count > m * ideal then m + 1 else m
  }

  /** Those items of c that hash to bucket b of n, in reverse. */
  ghost function PickReversed(c: seq<Handle>, b: nat, n: nat): seq<Handle>
    requires n > 0
  {
    if c == [] then []
    else
      var h := c[|c| - 1];
      (if HashToBkt(h.hashv, n) == b then [h] else []) + PickReversed(c[..|c| - 1], b, n)
  }

  /** The bucket that items of new bucket b come from when n buckets are doubled. */
  function OldBkt(b: nat, n: nat): (o: nat)
    requires b < 2 * n
    ensures o < n
  {
    if b < n then b else b - n
  }

  /** Chain b after the items of the first i buckets and of the first j places of bucket i have moved. */
  ghost function Moved(chains: seq<seq<Handle>>, i: nat, j: nat, b: nat): seq<Handle>
    requires b < 2 * |chains|
    requires i < |chains| ==> j <= |chains[i]|
  {
    var o := OldBkt(b, |chains|);
    if o < i then PickReversed(chains[o], b, 2 * |chains|)
    else if o == i then PickReversed(chains[o][..j], b, 2 * |chains|)
    else []
  }

  /** Doubling the bucket array splits every chain in two and reverses each part. */
  ghost predicate IsSplit(nc: seq<seq<Handle>>, chains: seq<seq<Handle>>) {
    && |nc| == 2 * |chains|
    && forall b {:trigger nc[b]} | 0 <= b < |nc| :: nc[b] == PickReversed(chains[OldBkt(b, |chains|)], b, |nc|)
  }

  lemma {:induction false} PickReversedElements(c: seq<Handle>, b: nat, n: nat, h: Handle)
    requires n > 0
    ensures h in PickReversed(c, b, n) <==> h in c && HashToBkt(h.hashv, n) == b
  {
    if c != [] {
      PickReversedElements(c[..|c| - 1], b, n, h);
      assert c == c[..|c| - 1] + [c[|c| - 1]];
    }
  }

  /** Of two items that go to the same new bucket, the one that came first in the old chain comes last in the new one. */
  lemma {:induction false} PickReversedOrder(c: seq<Handle>, b: nat, n: nat, i: nat, j: nat)
    requires n > 0 && i < j < |c| && HashToBkt(c[i].hashv, n) == b && HashToBkt(c[j].hashv, n) == b
    ensures exists x, y :: 0 <= x < y < |PickReversed(c, b, n)| && PickReversed(c, b, n)[x] == c[j] && PickReversed(c, b, n)[y] == c[i]
  {
    hide HashToBkt;
    var l := |c| - 1;
    var r := PickReversed(c[..l], b, n);
    if j < l {
      PickReversedOrder(c[..l], b, n, i, j);
      var x, y :| 0 <= x < y < |r| && r[x] == c[j] && r[y] == c[i];
      var d := if HashToBkt(c[l].hashv, n) == b then 1 else 0;
      assert PickReversed(c, b, n)[x + d] == c[j] && PickReversed(c, b, n)[y + d] == c[i];
    } else {
      PickReversedElements(c[..l], b, n, c[i]);
      assert c[..l][i] in c[..l];
      var y :| 0 <= y < |r| && r[y] == c[i];
      assert PickReversed(c, b, n)[0] == c[j] && PickReversed(c, b, n)[y + 1] == c[i];
    }
  }

  lemma {:induction false} PickReversedLength(c: seq<Handle>, b: nat, n: nat)
    requires n > 0
    ensures |PickReversed(c, b, n)| <= |c|
  {
    if c != [] {
      PickReversedLength(c[..|c| - 1], b, n);
    }
  }

  /** Both halves of a split chain together are as long as the chain. */
  lemma {:induction false} SplitLengths(c: seq<Handle>, k: nat, i: nat)
    requires i < Pow2(k) && forall t | 0 <= t < |c| :: HashToBkt(c[t].hashv, Pow2(k)) == i
    ensures |PickReversed(c, i, 2 * Pow2(k))| + |PickReversed(c, i + Pow2(k), 2 * Pow2(k))| == |c|
  {
    hide HashToBkt, Pow2;
    if c != [] {
      var l := |c| - 1;
      SplitLengths(c[..l], k, i);
      assert HashToBkt(c[l].hashv, Pow2(k)) == i;
      DoubledBkt(c[l].hashv, k);
    }
  }

  lemma DoubledBkt(hashv: nat, k: nat)
    ensures Pow2(k) > 0 && HashToBkt(hashv, Pow2(k)) < Pow2(k)
    ensures var n := Pow2(k); HashToBkt(hashv, 2 * n) == HashToBkt(hashv, n) || HashToBkt(hashv, 2 * n) == HashToBkt(hashv, n) + n
  {
    MaskOfDouble(hashv, k);
  }

  /** The items in excess of the ideal, and those within it, are all items. */
  lemma {:induction false} ExcessAndRest(chains: seq<seq<Handle>>, ideal: nat)
    ensures TotalExcess(chains, ideal) + UpToIdeal(chains, ideal) == TotalLen(chains)
  {
    if chains != [] {
      ExcessAndRest(chains[..|chains| - 1], ideal);
    }
  }

  /** The sum over all buckets of the items up to the ideal number. */
  ghost function UpToIdeal(chains: seq<seq<Handle>>, ideal: nat): nat {
    if chains == [] then 0 else UpToIdeal(chains[..|chains| - 1], ideal) + Min(|chains[|chains| - 1]|, ideal)
  }

  /** expand_mult is 0 up to the ideal number of items, then counts them one by one until it has caught up with the quotient by the
      ideal, rounded up. */
  lemma {:induction false} ExpandMultIs(count: nat, ideal: nat)
    requires ideal > 0
    ensures count <= ideal ==> ExpandMult(count, ideal) == 0
    ensures count == ideal + 1 ==> ExpandMult(count, ideal) == 1
    ensures ideal == 1 && count > 1 ==> ExpandMult(count, ideal) == count - 1
    ensures ideal > 1 && count > ideal + 1 ==> (ExpandMult(count, ideal) - 1) * ideal < count <= ExpandMult(count, ideal) * ideal
  {
    if count > 0 {
      ExpandMultIs(count - 1, ideal);
      var m := ExpandMult(count - 1, ideal);
      if ideal > 1 && count > ideal + 2 {
        assert (m - 1) * ideal == m * ideal - ideal;
        assert (m + 1 - 1) * ideal < count || ExpandMult(count, ideal) == m;
        assert (m + 1) * ideal == m * ideal + ideal;
      }
    }
  }

  lemma PlacedPush(chains: seq<seq<Handle>>, items: set<Handle>, h: Handle)
    requires |chains| > 0 && Placed(chains, items)
    ensures var b := HashToBkt(h.hashv, |chains|); Placed(chains[b := [h] + chains[b]], items + {h})
  {
    hide HashToBkt;
    var b := HashToBkt(h.hashv, |chains|);
    assert h in [h] + chains[b];
  }

  lemma MovedStep(chains: seq<seq<Handle>>, k: nat, i: nat, j: nat, b: nat)
    requires |chains| == Pow2(k)
    requires i < |chains| && j < |chains[i]| && b < 2 * |chains|
    requires HashToBkt(chains[i][j].hashv, |chains|) == i
    ensures Moved(chains, i, j + 1, b)
         == (if HashToBkt(chains[i][j].hashv, 2 * |chains|) == b then [chains[i][j]] else []) + Moved(chains, i, j, b)
  {
    var c := chains[i];
    MaskOfDouble(c[j].hashv, k);
    assert c[..j + 1][..j] == c[..j] && c[..j + 1][j] == c[j];
  }

  /** Pushing the next item on its new chain, with the effect on the counters. */
  lemma MovedPush(nc: seq<seq<Handle>>, chains: seq<seq<Handle>>, k: nat, i: nat, j: nat, ideal: nat)
    requires |chains| == Pow2(k)
    requires i < |chains| && j < |chains[i]| && HashToBkt(chains[i][j].hashv, |chains|) == i
    requires |nc| == 2 * |chains| && forall b {:trigger nc[b]} | 0 <= b < |nc| :: nc[b] == Moved(chains, i, j, b)
    ensures var h := chains[i][j]; var x := HashToBkt(h.hashv, |nc|); var nc' := nc[x := [h] + nc[x]];
      && (forall b {:trigger nc'[b]} | 0 <= b < |nc'| :: nc'[b] == Moved(chains, i, j + 1, b))
      && TotalLen(nc') == TotalLen(nc) + 1
      && TotalExcess(nc', ideal) == TotalExcess(nc, ideal) + if |nc[x]| + 1 > ideal then 1 else 0
  {
    var h := chains[i][j];
    var x := HashToBkt(h.hashv, |nc|);
    var nc' := nc[x := [h] + nc[x]];
    TotalLenUpdate(nc, x, [h] + nc[x]);
    TotalExcessUpdate(nc, x, [h] + nc[x], ideal);
    forall b | 0 <= b < |nc'| ensures nc'[b] == Moved(chains, i, j + 1, b) {
      MovedStep(chains, k, i, j, b);
    }
  }

  lemma MovedWholeChain(chains: seq<seq<Handle>>, i: nat, b: nat)
    requires i < |chains| && b < 2 * |chains|
    ensures Moved(chains, i, |chains[i]|, b) == Moved(chains, i + 1, 0, b)
  {
    assert chains[i][..|chains[i]|] == chains[i];
  }

  lemma AllMoved(nc: seq<seq<Handle>>, chains: seq<seq<Handle>>)
    requires |nc| == 2 * |chains|
    requires forall b {:trigger nc[b]} | 0 <= b < |nc| :: nc[b] == Moved(chains, |chains|, 0, b)
    ensures IsSplit(nc, chains)
  {
  }

  /** A find looks in the chain its hash value selects: after a split each item is still found there. */
  lemma SplitPlaced(nc: seq<seq<Handle>>, chains: seq<seq<Handle>>, k: nat, items: set<Handle>)
    requires |chains| == Pow2(k) && IsSplit(nc, chains) && Placed(chains, items)
    ensures Placed(nc, items)
  {
    forall h | h in items ensures h in nc[HashToBkt(h.hashv, |nc|)] {
      var b := HashToBkt(h.hashv, |nc|);
      MaskOfDouble(h.hashv, k);
      PickReversedElements(chains[OldBkt(b, |chains|)], b, |nc|, h);
    }
  }

  lemma {:induction false} InsertIsSplice(s: seq<Handle>, k: nat, x: Handle, cmp: (Handle, Handle) -> int)
    requires k <= |s| && (forall i | 0 <= i < k :: cmp(s[i], x) <= 0) && (k < |s| ==> cmp(s[k], x) > 0)
    ensures Insert(s, x, cmp) == s[..k] + [x] + s[k..]
  {
    if k == 0 {
      if s != [] {
        assert s[..0] + [x] + s[0..] == [x] + s;
      }
    } else {
      InsertIsSplice(s[1..], k - 1, x, cmp);
      assert s[..k] == [s[0]] + s[1..][..k - 1] && s[k..] == s[1..][k - 1..];
    }
  }
}
