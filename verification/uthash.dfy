// The uthash table: HASH_ADD, HASH_ADD_INORDER, HASH_FIND, HASH_DELETE,
// HASH_EXPAND_BUCKETS, HASH_SRT and the integrity check HASH_FSCK.
module UtHash {
  import opened Bits
  import opened Common
  import opened StableSort
  import opened UtHashChains
  import opened UtHashMap
  import UtHashSort

  /** The user's head pointer together with the table it leads to. */
  class Table {
    var head: Handle?
    var tail: Handle?
    var buckets: array<Bucket>
    var numBuckets: nat
    var log2NumBuckets: nat
    var numItems: nat
    var idealChainMaxlen: nat
    var nonidealItems: nat
    var ineffExpands: nat
    var noexpand: bool

    ghost var app: seq<Handle>            // the items in application order
    ghost var chains: seq<seq<Handle>>    // the items of each bucket, in chain order

    ghost function Items(): set<Handle>
      reads this`app
    {
      set h | h in app
    }

    ghost predicate AppOk()
      reads this`app, this`head, this`tail, app`next, app`prev
    {
      && Injective(app) && AppLinks(app)
      && head == At(app, 0)
      && (app != [] ==> tail == app[|app| - 1])
    }

    ghost predicate TableOk(items: set<Handle>)
      reads this`buckets, this`numBuckets, this`log2NumBuckets, this`numItems, this`chains, buckets, items`hhNext, items`hhPrev
    {
      && numBuckets == Pow2(log2NumBuckets) == |chains|
      && Linked(buckets, chains, items)
      && Placed(chains, items)
      && numItems == TotalLen(chains)
    }

    ghost predicate Valid()
      reads this, buckets, app
    {
      && AppOk()
      && (head != null ==> TableOk(Items()) && numItems == |app|)
    }

    constructor ()
      ensures Valid() && app == []
    {
      head, tail := null, null;
      buckets := new Bucket[0];
      numBuckets, log2NumBuckets, numItems := 0, 0, 0;
      idealChainMaxlen, nonidealItems, ineffExpands, noexpand := 0, 0, 0, false;
      app, chains := [], [];
    }

    /** HASH_MAKE_TABLE: an empty table with 32 buckets. */
    method MakeTable()
      modifies this`buckets, this`numBuckets, this`log2NumBuckets, this`numItems, this`idealChainMaxlen,
               this`nonidealItems, this`ineffExpands, this`noexpand, this`chains
      ensures TableOk({}) && fresh(buckets) && numItems == 0
      ensures chains == seq(HASH_INITIAL_NUM_BUCKETS, _ => [])
      ensures forall b {:trigger buckets[b]} | 0 <= b < buckets.Length :: buckets[b].expandMult == 0
      ensures noexpand == false && ineffExpands == idealChainMaxlen == nonidealItems == 0
    {
      hide Linked, Pow2, TotalLen;
      numBuckets, log2NumBuckets := HASH_INITIAL_NUM_BUCKETS, HASH_INITIAL_NUM_BUCKETS_LOG2;
      numItems, idealChainMaxlen, nonidealItems, ineffExpands, noexpand := 0, 0, 0, 0, false;
      chains := seq(HASH_INITIAL_NUM_BUCKETS, _ => []);
      var bs := EmptyBuckets(HASH_INITIAL_NUM_BUCKETS, chains);
      buckets := bs;
      Pow2Of5();
    }

    static method EmptyBuckets(n: nat, ghost chs: seq<seq<Handle>>) returns (bs: array<Bucket>)
      requires n > 0 && chs == seq(n, _ => [])
      ensures fresh(bs) && bs.Length == n && Linked(bs, chs, {}) && TotalLen(chs) == 0
      ensures forall b {:trigger bs[b]} | 0 <= b < n :: bs[b].expandMult == 0
    {
      bs := new Bucket[n](_ => Bucket(null, 0, 0));
      TotalLenEmpty(n);
    }

    /** Push h on the chain of bucket b, whose expand_mult becomes mult. */
    static method PushHandle(bs: array<Bucket>, b: nat, h: Handle, mult: nat, ghost chs: seq<seq<Handle>>, ghost items: set<Handle>)
      requires Linked(bs, chs, items) && h !in items && b == HashToBkt(h.hashv, |chs|)
      modifies bs, items`hhPrev, h`hhPrev, h`hhNext
      ensures Linked(bs, chs[b := [h] + chs[b]], items + {h})
      ensures forall c {:trigger bs[c]} | 0 <= c < bs.Length :: bs[c].expandMult == if c == b then mult else old(bs[c].expandMult)
    {
      hide HashToBkt;
      var first := bs[b].hhHead;
      h.hhNext := first;
      h.hhPrev := null;
      if first != null {
        first.hhPrev := h;
      }
      bs[b] := bs[b].(hhHead := h, count := bs[b].count + 1, expandMult := mult);
      PushedChain(bs, chs, items, b, h);
      hide Linked;
    }

    /** The items of the old chains that HASH_EXPAND_BUCKETS has not reached are still chained and not yet re-chained. */
    static ghost predicate Waiting(chs: seq<seq<Handle>>, i: nat, j: nat, items: set<Handle>, done: set<Handle>)
      reads items`hhNext
    {
      forall c, t {:trigger chs[c][t]} | i <= c < |chs| && (if c == i then j else 0) <= t < |chs[c]| ::
        chs[c][t] in items && chs[c][t] !in done && chs[c][t].hhNext == At(chs[c], t + 1)
    }

    /** The new buckets hold what has been moved so far. */
    static ghost predicate MovedSoFar(bs: array<Bucket>, nc: seq<seq<Handle>>, chs: seq<seq<Handle>>, i: nat, j: nat, done: set<Handle>, ideal: nat, nonideal: nat)
      requires i < |chs| ==> j <= |chs[i]|
      reads bs, done`hhNext, done`hhPrev
    {
      && |nc| == 2 * |chs|
      && Linked(bs, nc, done)
      && (forall b {:trigger nc[b]} | 0 <= b < |nc| :: nc[b] == Moved(chs, i, j, b))
      && (forall b {:trigger bs[b]} | 0 <= b < |nc| :: bs[b].expandMult == ExpandMult(|nc[b]|, ideal))
      && nonideal == TotalExcess(nc, ideal)
    }

    /** One round of the inner loop of HASH_EXPAND_BUCKETS. */
    static method MoveItem(bs: array<Bucket>, h: Handle, i: nat, ghost j: nat, ideal: nat, nonideal: nat, ghost k: nat,
                           ghost nc: seq<seq<Handle>>, ghost chs: seq<seq<Handle>>, ghost done: set<Handle>)
      returns (nonideal': nat, ghost nc': seq<seq<Handle>>)
      requires i < |chs| && j < |chs[i]| && h == chs[i][j] && HashToBkt(h.hashv, |chs|) == i && h !in done
      requires |chs| == Pow2(k)
      requires MovedSoFar(bs, nc, chs, i, j, done, ideal, nonideal)
      modifies bs, done`hhPrev, h`hhPrev, h`hhNext
      ensures MovedSoFar(bs, nc', chs, i, j + 1, done + {h}, ideal, nonideal')
      ensures TotalLen(nc') == TotalLen(nc) + 1
    {
      hide HashToBkt, TotalLen, TotalExcess, Moved;
      MovedPush(nc, chs, k, i, j, ideal);
      var bkt := HashToBkt(h.hashv, bs.Length);
      nc' := nc[bkt := [h] + nc[bkt]];
      nonideal' := nonideal;
      var count, mult := bs[bkt].count + 1, bs[bkt].expandMult;
      if count > ideal {
        nonideal' := nonideal' + 1;
        if count > mult * ideal {
          mult := mult + 1;
        }
      }
      assert mult == ExpandMult(|nc'[bkt]|, ideal);
      PushHandle(bs, bkt, h, mult, nc, done);
      hide Linked, ExpandMult;
    }

    static ghost predicate ChainsApart(chs: seq<seq<Handle>>) {
      && (forall c, t {:trigger chs[c][t]} | 0 <= c < |chs| && 0 <= t < |chs[c]| :: HashToBkt(chs[c][t].hashv, |chs|) == c)
      && (forall c | 0 <= c < |chs| :: Injective(chs[c]))
    }

    /** Take the head of what is left of old bucket i and move it. */
    static method MoveNext(bs: array<Bucket>, h: Handle, i: nat, ghost j: nat, ideal: nat, nonideal: nat, ghost k: nat,
                           ghost nc: seq<seq<Handle>>, ghost chs: seq<seq<Handle>>, ghost items: set<Handle>, ghost done: set<Handle>)
      returns (nxt: Handle?, nonideal': nat, ghost nc': seq<seq<Handle>>)
      requires i < |chs| && j < |chs[i]| && h == chs[i][j] && |chs| == Pow2(k) && ChainsApart(chs)
      requires done <= items && Waiting(chs, i, j, items, done)
      requires MovedSoFar(bs, nc, chs, i, j, done, ideal, nonideal)
      modifies bs, items`hhPrev, items`hhNext
      ensures nxt == At(chs[i], j + 1)
      ensures Waiting(chs, i, j + 1, items, done + {h}) && h in items
      ensures MovedSoFar(bs, nc', chs, i, j + 1, done + {h}, ideal, nonideal')
      ensures TotalLen(nc') == TotalLen(nc) + 1
    {
      nxt := h.hhNext;
      nonideal', nc' := MoveItem(bs, h, i, j, ideal, nonideal, k, nc, chs, done);
      forall c, t | i <= c < |chs| && (if c == i then j + 1 else 0) <= t < |chs[c]|
        ensures chs[c][t] in items && chs[c][t] !in done + {h} && chs[c][t].hhNext == At(chs[c], t + 1)
      {
        assert chs[c][t] != h;
      }
    }

    /** The inner loop of HASH_EXPAND_BUCKETS: move all items of old bucket i. */
    static method MoveChain(bs: array<Bucket>, first: Handle?, i: nat, ideal: nat, nonideal: nat, ghost k: nat,
                            ghost nc: seq<seq<Handle>>, ghost chs: seq<seq<Handle>>, ghost items: set<Handle>, ghost done: set<Handle>)
      returns (nonideal': nat, ghost nc': seq<seq<Handle>>, ghost done': set<Handle>)
      requires i < |chs| && first == At(chs[i], 0) && |chs| == Pow2(k) && ChainsApart(chs)
      requires done <= items && Waiting(chs, i, 0, items, done)
      requires MovedSoFar(bs, nc, chs, i, 0, done, ideal, nonideal)
      modifies bs, items`hhPrev, items`hhNext
      ensures done' <= items && Waiting(chs, i + 1, 0, items, done')
      ensures MovedSoFar(bs, nc', chs, i + 1, 0, done', ideal, nonideal')
      ensures TotalLen(nc') == TotalLen(nc) + |chs[i]|
    {
      hide Waiting, MovedSoFar, ChainsApart;
      nonideal', nc', done' := nonideal, nc, done;
      var thh := first;
      ghost var j: nat := 0;
      while thh != null
        invariant j <= |chs[i]| && thh == At(chs[i], j)
        invariant done' <= items && Waiting(chs, i, j, items, done')
        invariant MovedSoFar(bs, nc', chs, i, j, done', ideal, nonideal')
        invariant TotalLen(nc') == TotalLen(nc) + j
        decreases |chs[i]| - j
      {
        ghost var h: Handle := thh;
        thh, nonideal', nc' := MoveNext(bs, thh, i, j, ideal, nonideal', k, nc', chs, items, done');
        done', j := done' + {h}, j + 1;
      }
      ChainMoved(bs, nc', chs, i, items, done', ideal, nonideal');
    }

    static lemma ChainMoved(bs: array<Bucket>, nc: seq<seq<Handle>>, chs: seq<seq<Handle>>, i: nat,
                            items: set<Handle>, done: set<Handle>, ideal: nat, nonideal: nat)
      requires i < |chs| && Waiting(chs, i, |chs[i]|, items, done)
      requires MovedSoFar(bs, nc, chs, i, |chs[i]|, done, ideal, nonideal)
      ensures Waiting(chs, i + 1, 0, items, done)
      ensures MovedSoFar(bs, nc, chs, i + 1, 0, done, ideal, nonideal)
    {
      hide Linked;
      forall b | 0 <= b < |nc| ensures nc[b] == Moved(chs, i + 1, 0, b) {
        MovedWholeChain(chs, i, b);
      }
    }

    static method NewBuckets(ghost chs: seq<seq<Handle>>, n: nat, ghost ideal: nat)
      returns (bs: array<Bucket>, ghost nc: seq<seq<Handle>>)
      requires n == |chs| > 0
      ensures fresh(bs) && MovedSoFar(bs, nc, chs, 0, 0, {}, ideal, 0) && TotalLen(nc) == 0
    {
      nc := seq(2 * n, _ => []);
      bs := EmptyBuckets(2 * n, nc);
      TotalExcessEmpty(2 * n, ideal);
    }

    static lemma AllWaiting(bs: array<Bucket>, chs: seq<seq<Handle>>, items: set<Handle>)
      requires Linked(bs, chs, items)
      ensures ChainsApart(chs) && Waiting(chs, 0, 0, items, {})
    {
    }

    static lemma HeadsOf(bs: array<Bucket>, chs: seq<seq<Handle>>, items: set<Handle>)
      requires Linked(bs, chs, items)
      ensures bs.Length == |chs| > 0 && forall b {:trigger bs[b]} | 0 <= b < bs.Length :: bs[b].hhHead == At(chs[b], 0)
    {
    }

    static lemma Finished(bs: array<Bucket>, nc: seq<seq<Handle>>, chs: seq<seq<Handle>>,
                          items: set<Handle>, done: set<Handle>, ideal: nat, nonideal: nat)
      requires done <= items && MovedSoFar(bs, nc, chs, |chs|, 0, done, ideal, nonideal)
      ensures Linked(bs, nc, items) && IsSplit(nc, chs) && nonideal == TotalExcess(nc, ideal)
      ensures forall b {:trigger bs[b]} | 0 <= b < bs.Length :: bs[b].expandMult == ExpandMult(|nc[b]|, ideal)
    {
      AllMoved(nc, chs);
    }

    /** The loop over the old buckets in HASH_EXPAND_BUCKETS. */
    static method SpreadItems(olds: array<Bucket>, ghost chs: seq<seq<Handle>>, ghost items: set<Handle>, ideal: nat, ghost k: nat)
      returns (bs: array<Bucket>, nonideal: nat, ghost nc: seq<seq<Handle>>)
      requires Linked(olds, chs, items) && |chs| == Pow2(k)
      modifies items`hhPrev, items`hhNext
      ensures fresh(bs) && Linked(bs, nc, items) && IsSplit(nc, chs) && |nc| == 2 * |chs|
      ensures nonideal == TotalExcess(nc, ideal) && TotalLen(nc) == TotalLen(chs)
      ensures forall b {:trigger bs[b]} | 0 <= b < bs.Length :: bs[b].expandMult == ExpandMult(|nc[b]|, ideal)
    {
      hide Waiting, MovedSoFar, ChainsApart;
      nonideal := 0;
      bs, nc := NewBuckets(chs, olds.Length, ideal);
      ghost var done: set<Handle> := {};
      AllWaiting(olds, chs, items);
      HeadsOf(olds, chs, items);
      hide Linked;
      var i := 0;
      while i < olds.Length
        invariant i <= olds.Length && forall b {:trigger olds[b]} | 0 <= b < olds.Length :: olds[b].hhHead == At(chs[b], 0)
        invariant done <= items && Waiting(chs, i, 0, items, done)
        invariant MovedSoFar(bs, nc, chs, i, 0, done, ideal, nonideal)
        invariant TotalLen(nc) == TotalLen(chs[..i])
      {
        nonideal, nc, done := MoveChain(bs, olds[i].hhHead, i, ideal, nonideal, k, nc, chs, items, done);
        TotalLenPrefix(chs, i);
        i := i + 1;
      }
      assert chs[..i] == chs;
      Finished(bs, nc, chs, items, done, ideal, nonideal);
    }

    static method IdealChainMaxlen(items: nat, n: nat, log2: nat) returns (ideal: nat)
      requires n == Pow2(log2)
      ensures ideal == Ceil(items, n)
    {
      CeilByMask(items, log2);
      ideal := Shr(items, log2) + (if BitAnd(items, n - 1) != 0 then 1 else 0);
    }

    /** HASH_EXPAND_BUCKETS: double the bucket array and spread the items over it. */
    method ExpandBuckets(ghost items: set<Handle>)
      requires TableOk(items)
      modifies this`buckets, this`numBuckets, this`log2NumBuckets, this`idealChainMaxlen, this`nonidealItems,
               this`ineffExpands, this`noexpand, this`chains, items`hhPrev, items`hhNext
      ensures TableOk(items) && fresh(buckets)
      ensures IsSplit(chains, old(chains)) && numBuckets == 2 * old(numBuckets)
      ensures idealChainMaxlen == Ceil(numItems, numBuckets)
      ensures nonidealItems == TotalExcess(chains, idealChainMaxlen)
      ensures ineffExpands == if 2 * nonidealItems > numItems then old(ineffExpands) + 1 else 0
      ensures noexpand == (old(noexpand) || ineffExpands > 1)
      ensures forall b {:trigger buckets[b]} | 0 <= b < buckets.Length :: buckets[b].expandMult == ExpandMult(|chains[b]|, idealChainMaxlen)
    {
      hide IsSplit, Linked, Placed, HashToBkt, TotalExcess, TotalLen, ExpandMult;
      var ideal := IdealChainMaxlen(numItems, 2 * numBuckets, log2NumBuckets + 1);
      var bs;
      var nonideal;
      ghost var nc;
      bs, nonideal, nc := SpreadItems(buckets, chains, items, ideal, log2NumBuckets);
      SplitPlaced(nc, chains, log2NumBuckets, items);
      InstallBuckets(bs, nc, ideal, nonideal);
    }

    /** The bookkeeping at the end of HASH_EXPAND_BUCKETS. */
    method InstallBuckets(bs: array<Bucket>, ghost nc: seq<seq<Handle>>, ideal: nat, nonideal: nat)
      modifies this`buckets, this`numBuckets, this`log2NumBuckets, this`idealChainMaxlen, this`nonidealItems,
               this`ineffExpands, this`noexpand, this`chains
      ensures buckets == bs && chains == nc && idealChainMaxlen == ideal && nonidealItems == nonideal
      ensures numBuckets == 2 * old(numBuckets) && log2NumBuckets == old(log2NumBuckets) + 1
      ensures ineffExpands == if 2 * nonidealItems > numItems then old(ineffExpands) + 1 else 0
      ensures noexpand == (old(noexpand) || ineffExpands > 1)
    {
      idealChainMaxlen, nonidealItems := ideal, nonideal;
      numBuckets, log2NumBuckets := 2 * numBuckets, log2NumBuckets + 1;
      buckets, chains := bs, nc;
      ineffExpands := if nonidealItems > numItems / 2 then ineffExpands + 1 else 0;
      if ineffExpands > 1 {
        noexpand := true;
      }
    }

    /** expand_mult of every bucket */
    ghost function Mults(): seq<nat>
      reads this`buckets, buckets
    {
      MultsOf(buckets[..])
    }

    /** The table after add went into its bucket: pushed on its chain, and expanded when the chain got too long. The other arguments
        are what the table held before. */
    ghost predicate GrownBy(add: Handle, chs: seq<seq<Handle>>, mults: seq<nat>, frozen: bool, ineff: nat, ideal: nat, nonideal: nat)
      requires |chs| == |mults| > 0
      reads this`buckets, this`numBuckets, this`chains, this`idealChainMaxlen, this`nonidealItems, this`numItems, this`ineffExpands,
            this`noexpand, buckets
    {
      var b := HashToBkt(add.hashv, |chs|);
      var pushed := chs[b := [add] + chs[b]];
      if |pushed[b]| >= (mults[b] + 1) * HASH_BKT_CAPACITY_THRESH && !frozen then
        && IsSplit(chains, pushed) && buckets.Length == |chains| && numBuckets == 2 * |chs|
        && idealChainMaxlen == Ceil(numItems, 2 * |chs|)
        && nonidealItems == TotalExcess(chains, idealChainMaxlen)
        && ineffExpands == (if 2 * nonidealItems > numItems then ineff + 1 else 0)
        && noexpand == (ineffExpands > 1)
        && (forall c {:trigger buckets[c]} | 0 <= c < buckets.Length :: buckets[c].expandMult == ExpandMult(|chains[c]|, idealChainMaxlen))
      else
        && chains == pushed && Mults() == mults && numBuckets == |chs|
        && idealChainMaxlen == ideal && nonidealItems == nonideal && ineffExpands == ineff && noexpand == frozen
    }

    /** HASH_ADD_TO_TABLE with HASH_ADD_TO_BKT. */
    method AddToTable(add: Handle, ghost items: set<Handle>)
      requires TableOk(items) && add !in items
      modifies this`buckets, this`numBuckets, this`log2NumBuckets, this`idealChainMaxlen, this`nonidealItems, this`numItems,
               this`ineffExpands, this`noexpand, this`chains, buckets, items`hhPrev, items`hhNext, add`hhPrev, add`hhNext
      ensures TableOk(items + {add}) && numItems == old(numItems) + 1
      ensures GrownBy(add, old(chains), old(Mults()), old(noexpand), old(ineffExpands), old(idealChainMaxlen), old(nonidealItems))
      ensures if old(|chains[HashToBkt(add.hashv, numBuckets)]| + 1 >= (buckets[HashToBkt(add.hashv, numBuckets)].expandMult + 1) * 10 && !noexpand)
              then fresh(buckets) && numBuckets == 2 * old(numBuckets) else buckets == old(buckets) && numBuckets == old(numBuckets)
    {
      hide HashToBkt, TotalLen, Placed, Linked, Pow2, TableOk, IsSplit, TotalExcess, ExpandMult, Ceil, MultsOf;
      BucketsOfTable(items);
      var bkt := HashToBkt(add.hashv, numBuckets);
      var was := buckets[bkt];
      PushItem(add, items);
      BucketsOfTable(items + {add});
      assert Mults() == old(Mults());
      if was.count + 1 >= (was.expandMult + 1) * HASH_BKT_CAPACITY_THRESH && !noexpand {
        ExpandBuckets(items + {add});
        BucketsOfTable(items + {add});
      }
    }

    method PushItem(add: Handle, ghost items: set<Handle>)
      requires TableOk(items) && add !in items
      modifies this`numItems, this`chains, buckets, items`hhPrev, add`hhPrev, add`hhNext
      ensures TableOk(items + {add}) && numItems == old(numItems) + 1
      ensures var b := HashToBkt(add.hashv, numBuckets); chains == old(chains)[b := [add] + old(chains)[b]]
      ensures forall c {:trigger buckets[c]} | 0 <= c < buckets.Length :: buckets[c].expandMult == old(buckets[c].expandMult)
    {
      var bkt := HashToBkt(add.hashv, numBuckets);
      assert buckets.Length == |chains|;
      hide HashToBkt, TotalLen, Placed, Linked, Pow2;
      numItems := numItems + 1;
      PlacedPush(chains, items, add);
      TotalLenUpdate(chains, bkt, [add] + chains[bkt]);
      PushHandle(buckets, bkt, add, buckets[bkt].expandMult, chains, items);
      chains := chains[bkt := [add] + chains[bkt]];
    }

    /** HASH_APPEND_LIST */
    method AppendList(add: Handle)
      requires AppOk() && app != [] && add !in app
      modifies this`tail, this`app, app`next, add`next, add`prev
      ensures AppOk() && app == old(app) + [add]
    {
      add.next := null;
      add.prev := tail;
      tail.next := add;
      tail, app := add, app + [add];
    }

    /** The else branch of the INORDER form: link add in front of iter, the k-th item. */
    method InsertBefore(add: Handle, iter: Handle, ghost k: nat)
      requires AppOk() && add !in app && k < |app| && iter == app[k]
      modifies this`head, this`app, app`next, app`prev, add`next, add`prev
      ensures AppOk() && app == old(app)[..k] + [add] + old(app)[k..]
    {
      add.next := iter;
      add.prev := iter.prev;
      if add.prev != null {
        add.prev.next := add;
      } else {
        head := add;
      }
      iter.prev := add;
      InsertedLinks(app, k, add);
      InjectiveInsert(app, k, add);
      InsertEnds(app, k, add);
      hide Injective, At, AppLinks;
      app := app[..k] + [add] + app[k..];
    }

    /** The list part of HASH_DELETE_HH, for an item that is not alone. */
    method UnlinkApp(del: Handle, ghost k: nat)
      requires AppOk() && k < |app| && del == app[k] && |app| > 1
      modifies this`head, this`tail, this`app, app`next, app`prev
      ensures AppOk() && app == old(app)[..k] + old(app)[k + 1..]
    {
      if del == tail {
        tail := del.prev;
      }
      if del.prev != null {
        del.prev.next := del.next;
      } else {
        head := del.next;
      }
      if del.next != null {
        del.next.prev := del.prev;
      }
      BypassedLinks(app, k);
      InjectiveRemove(app, k);
      RemoveEnds(app, k);
      assert tail == if k == |app| - 1 then app[|app| - 2] else app[|app| - 1];
      assert head == if k == 0 then At(app, 1) else At(app, 0);
      hide Injective, At, AppLinks;
      app := app[..k] + app[k + 1..];
    }

    /** HASH_DEL_IN_BKT */
    static method DelInBkt(bs: array<Bucket>, b: nat, del: Handle, ghost k: nat, ghost chs: seq<seq<Handle>>, ghost items: set<Handle>)
      requires Linked(bs, chs, items) && b < |chs| && k < |chs[b]| && del == chs[b][k]
      modifies bs, items`hhPrev, items`hhNext
      ensures Linked(bs, chs[b := Remove(chs[b], k)], items - {del})
      ensures forall c {:trigger bs[c]} | 0 <= c < bs.Length :: bs[c].expandMult == old(bs[c].expandMult)
    {
      hide HashToBkt;
      bs[b] := bs[b].(count := bs[b].count - 1);
      if bs[b].hhHead == del {
        bs[b] := bs[b].(hhHead := del.hhNext);
      }
      if del.hhPrev != null {
        del.hhPrev.hhNext := del.hhNext;
      }
      if del.hhNext != null {
        del.hhNext.hhPrev := del.hhPrev;
      }
      BypassedChain(bs, chs, items, b, k);
      hide Linked;
    }

    /** The bucket part of HASH_DELETE_HH. */
    method DeleteFromTable(del: Handle, ghost items: set<Handle>) returns (ghost j: nat)
      requires TableOk(items) && del in items
      modifies this`numItems, this`chains, buckets, items`hhPrev, items`hhNext
      ensures TableOk(items - {del}) && numItems == old(numItems) - 1
      ensures var b := HashToBkt(del.hashv, numBuckets);
        j < |old(chains[b])| && old(chains[b])[j] == del && chains == old(chains)[b := Remove(old(chains[b]), j)]
      ensures forall c {:trigger buckets[c]} | 0 <= c < buckets.Length :: buckets[c].expandMult == old(buckets[c].expandMult)
    {
      var bkt := HashToBkt(del.hashv, numBuckets);
      j :| 0 <= j < |chains[bkt]| && chains[bkt][j] == del;
      assert buckets.Length == |chains| && Injective(chains[bkt]);
      hide HashToBkt, TotalLen, Placed, Linked, Pow2, Injective;
      PlacedRemove(chains, items, del, j);
      TotalLenUpdate(chains, bkt, Remove(chains[bkt], j));
      DelInBkt(buckets, bkt, del, j, chains, items);
      chains, numItems := chains[bkt := Remove(chains[bkt], j)], numItems - 1;
    }

    // ----- The operations of the header -----

    /** A table with one item: 32 buckets, and nothing counted yet. */
    ghost predicate NewTable(add: Handle)
      reads this`buckets, this`numBuckets, this`chains, this`idealChainMaxlen, this`nonidealItems, this`ineffExpands, this`noexpand, buckets
    {
      && numBuckets == |chains| == buckets.Length == 32
      && chains[HashToBkt(add.hashv, 32)] == [add]
      && (forall b | 0 <= b < 32 && b != HashToBkt(add.hashv, 32) :: chains[b] == [])
      && (forall b {:trigger buckets[b]} | 0 <= b < 32 :: buckets[b].expandMult == 0)
      && idealChainMaxlen == nonidealItems == ineffExpands == 0 && !noexpand
    }

    lemma NewTableFrom(add: Handle, chs: seq<seq<Handle>>, mults: seq<nat>)
      requires |chs| == |mults| == 32 && forall b | 0 <= b < 32 :: chs[b] == [] && mults[b] == 0
      requires GrownBy(add, chs, mults, false, 0, 0, 0) && buckets.Length == |chains|
      ensures NewTable(add)
    {
      hide HashToBkt, IsSplit, TotalExcess, ExpandMult, Ceil;
    }

    lemma BucketsOfTable(items: set<Handle>)
      requires TableOk(items)
      ensures buckets.Length == |chains| == numBuckets > 0
      ensures forall b | 0 <= b < buckets.Length :: buckets[b].count == |chains[b]|
    {
    }

    /** HASH_ADD to an empty table: the item is the whole list, and the table is new. */
    method FirstItem(add: Handle)
      requires AppOk() && app == []
      modifies this, add
      ensures Valid() && app == [add] && fresh(buckets) && head == add && NewTable(add)
    {
      hide HashToBkt, TotalLen, Placed, Linked, Pow2, TableOk, GrownBy, NewTable, MultsOf;
      add.next, add.prev := null, null;
      MakeTable();
      BucketsOfTable({});
      ghost var chs, mults := chains, Mults();
      head, tail, app := add, add, [add];
      AddToTable(add, {});
      BucketsOfTable({} + {add});
      NewTableFrom(add, chs, mults);
      assert Items() == {} + {add};
    }

    /** HASH_ADD_KEYPTR_BYHASHVALUE */
    method Add(add: Handle)
      requires Valid() && add !in app
      modifies this, buckets, app, add
      ensures Valid() && app == old(app) + [add]
      ensures head == old(if head == null then add else head)
      ensures old(head) == null ==> NewTable(add)
      ensures old(head) != null ==> GrownBy(add, old(chains), old(Mults()), old(noexpand), old(ineffExpands), old(idealChainMaxlen), old(nonidealItems))
      ensures old(head) != null ==>
        numBuckets == (if old(|chains[HashToBkt(add.hashv, numBuckets)]| + 1 >= (buckets[HashToBkt(add.hashv, numBuckets)].expandMult + 1) * 10 && !noexpand) then 2 * old(numBuckets) else old(numBuckets))
    {
      hide HashToBkt, TotalLen, Placed, Linked, Pow2, Injective, AppLinks, GrownBy, TableOk;
      ghost var items := Items();
      if head == null {
        FirstItem(add);
      } else {
        AppendList(add);
        AddToTable(add, items);
        assert Items() == items + {add};
      }
    }

    /** HASH_ADD_KEYPTR_BYHASHVALUE_INORDER: add stands in front of the first item that compares greater. */
    method AddInorder(add: Handle, cmp: (Handle, Handle) -> int)
      requires Valid() && add !in app
      modifies this, buckets, app, add
      ensures Valid() && app == Insert(old(app), add, cmp)
      ensures old(head) == null ==> NewTable(add)
      ensures old(head) != null ==> GrownBy(add, old(chains), old(Mults()), old(noexpand), old(ineffExpands), old(idealChainMaxlen), old(nonidealItems))
      ensures old(head) != null ==>
        numBuckets == (if old(|chains[HashToBkt(add.hashv, numBuckets)]| + 1 >= (buckets[HashToBkt(add.hashv, numBuckets)].expandMult + 1) * 10 && !noexpand) then 2 * old(numBuckets) else old(numBuckets))
    {
      hide HashToBkt, TotalLen, Placed, Linked, Pow2, Injective, GrownBy, TableOk, AppLinks, Insert;
      ghost var items := Items();
      InsertElements(app, add, cmp);
      if head == null {
        InsertIsSplice(app, 0, add, cmp);
        FirstItem(add);
      } else {
        LinkInorder(add, cmp);
        AddToTable(add, items);
        assert Items() == items + {add};
      }
    }

    /** The list part of the INORDER form. */
    method LinkInorder(add: Handle, cmp: (Handle, Handle) -> int)
      requires AppOk() && app != [] && add !in app
      modifies this`head, this`tail, this`app, app`next, app`prev, add`next, add`prev
      ensures AppOk() && app == Insert(old(app), add, cmp)
      ensures forall h | h in app :: h in old(app) || h == add
      ensures add in app && forall h | h in old(app) :: h in app
    {
      var iter;
      ghost var k;
      iter, k := InnerLoop(add, cmp);
      InsertIsSplice(app, k, add, cmp);
      InjectiveInsert(app, k, add);
      hide AppLinks, Injective, Insert;
      ghost var s := app;
      if iter != null {
        InsertBefore(add, iter, k);
      } else {
        AppendList(add);
      }
      assert forall h | h in s :: h in (set g | g in s);
    }

    /** HASH_AKBI_INNER_LOOP */
    method InnerLoop(add: Handle, cmp: (Handle, Handle) -> int) returns (iter: Handle?, ghost k: nat)
      requires AppOk() && app != []
      ensures k <= |app| && iter == At(app, k)
      ensures forall i | 0 <= i < k :: cmp(app[i], add) <= 0
      ensures k < |app| ==> cmp(app[k], add) > 0
      ensures if iter == null then forall h | h in app :: cmp(h, add) <= 0 else iter in app && cmp(iter, add) > 0
    {
      iter, k := head, 0;
      while iter != null
        invariant k <= |app| && iter == At(app, k)
        invariant forall i | 0 <= i < k :: cmp(app[i], add) <= 0
        decreases |app| - k
      {
        if cmp(iter, add) > 0 {
          break;
        }
        iter, k := iter.next, k + 1;
      }
    }

    /** HASH_FIND_BYHASHVALUE */
    method Find(key: string, hashv: nat) returns (out: Handle?)
      requires Valid()
      ensures out != null ==> out in app && out.key == key && out.hashv == hashv
      ensures out == null ==> forall h | h in app :: !(h.key == key && h.hashv == hashv)
      ensures UniqueKeys(app) ==> out == Lookup(app, key, hashv)
    {
      out := null;
      if head != null {
        hide TotalLen, Pow2;
        var bkt := HashToBkt(hashv, numBuckets);
        forall h | h in app ensures h in chains[HashToBkt(h.hashv, numBuckets)] {
          assert h in Items();
        }
        out := FindInBkt(bkt, key, hashv);
      }
    }

    /** HASH_FIND_IN_BKT */
    method FindInBkt(bkt: nat, key: string, hashv: nat) returns (out: Handle?)
      requires TableOk(Items()) && bkt < numBuckets
      ensures out != null ==> out in chains[bkt] && Matches(out, key, |key|, hashv)
      ensures out == null ==> forall h | h in chains[bkt] :: !Matches(h, key, |key|, hashv)
    {
      hide TotalLen, Pow2, HashToBkt, Placed;
      ghost var c, k := chains[bkt], 0;
      out := buckets[bkt].hhHead;
      while out != null
        invariant 0 <= k <= |c| && out == At(c, k)
        invariant forall i | 0 <= i < k :: !Matches(c[i], key, |key|, hashv)
        decreases |c| - k
      {
        if Matches(out, key, |key|, hashv) {
          break;
        }
        out, k := out.hhNext, k + 1;
      }
    }

    /** HASH_DELETE: only del leaves, from the list and from its chain; deleting the last item frees the table. */
    method Delete(del: Handle) returns (ghost k: nat, ghost j: nat)
      requires Valid() && del in app
      modifies this, buckets, app
      ensures Valid() && buckets == old(buckets) && Mults() == old(Mults())
      ensures unchanged(this`numBuckets, this`log2NumBuckets, this`idealChainMaxlen, this`nonidealItems, this`ineffExpands, this`noexpand)
      ensures k < |old(app)| && old(app)[k] == del && app == Remove(old(app), k)
      ensures head != null ==>
        var b := HashToBkt(del.hashv, old(numBuckets));
        j < |old(chains[b])| && old(chains[b])[j] == del && chains == old(chains)[b := Remove(old(chains[b]), j)]
    {
      hide HashToBkt, TotalLen, Placed, Linked, Pow2, TableOk, Injective, AppLinks, Remove;
      ghost var items := Items();
      k :| 0 <= k < |app| && app[k] == del;
      AloneIsOnly(app, k);
      ItemsAfterRemove(app, k);
      if del.prev == null && del.next == null {
        j := 0;
        assert app[..k] + app[k + 1..] == [];
        NoLinks();
        head, app := null, [];
      } else {
        UnlinkApp(del, k);
        j := DeleteFromTable(del, items);
        assert Items() == items - {del};
      }
    }

    static lemma ItemsAfterRemove(s: seq<Handle>, k: nat)
      requires Injective(s) && k < |s|
      ensures Remove(s, k) == s[..k] + s[k + 1..] && (set h | h in Remove(s, k)) == (set h | h in s) - {s[k]}
    {
      InjectiveRemove(s, k);
    }

    /** The items on the chains. */
    static ghost function Chained(chs: seq<seq<Handle>>): set<Handle> {
      set b, i | 0 <= b < |chs| && 0 <= i < |chs[b]| :: chs[b][i]
    }

    /** The forward links, which HASH_FSCK follows, lead along the chains and along the list. */
    ghost predicate Walkable()
      reads this`head, this`app, this`buckets, this`numBuckets, this`chains, buckets, app`next, Chained(chains)`hhNext
    {
      && head == At(app, 0)
      && (forall i {:trigger app[i].next} | 0 <= i < |app| :: app[i].next == At(app, i + 1))
      && (head != null ==> buckets.Length == numBuckets == |chains| && Forward(buckets, chains, Chained(chains)))
    }

    static ghost predicate Forward(bs: array<Bucket>, chs: seq<seq<Handle>>, items: set<Handle>)
      requires bs.Length == |chs|
      reads bs, items`hhNext
    {
      && (forall b {:trigger bs[b]} | 0 <= b < |chs| :: bs[b].hhHead == At(chs[b], 0))
      && forall b, i {:trigger chs[b][i]} | 0 <= b < |chs| && 0 <= i < |chs[b]| :: chs[b][i] in items && chs[b][i].hhNext == At(chs[b], i + 1)
    }

    /** The backward links of a chain, or of the list, are the inverse of the forward ones. */
    static ghost predicate ChainBack(c: seq<Handle>)
      reads c`hhPrev
    {
      forall i {:trigger c[i].hhPrev} | 0 <= i < |c| :: c[i].hhPrev == At(c, i - 1)
    }

    static ghost predicate ListBack(s: seq<Handle>)
      reads s`prev
    {
      forall i {:trigger s[i].prev} | 0 <= i < |s| :: s[i].prev == At(s, i - 1)
    }

    /** What HASH_FSCK checks in the first n buckets: backward links and counts. */
    static ghost predicate BucketsIntact(bs: array<Bucket>, chs: seq<seq<Handle>>, n: nat)
      requires n <= |chs| == bs.Length
      reads bs, set b, i | 0 <= b < n && 0 <= i < |chs[b]| :: chs[b][i]
    {
      n == 0 || (BucketsIntact(bs, chs, n - 1) && ChainBack(chs[n - 1]) && bs[n - 1].count == |chs[n - 1]|)
    }

    /** HASH_FSCK: it passes exactly if backward links, counts, and the number of items in both structures are right. */
    method Fsck() returns (ok: bool)
      requires Walkable()
      ensures ok <==>
        (head == null || (BucketsIntact(buckets, chains, |chains|) && TotalLen(chains) == numItems && ListBack(app) && |app| == numItems))
    {
      ok := true;
      if head != null {
        hide TotalLen, ChainBack, ListBack, Forward, Chained;
        var count, i := 0, 0;
        while i < numBuckets
          invariant i <= numBuckets && (ok <==> BucketsIntact(buckets, chains, i))
          invariant count == TotalLen(chains[..i])
        {
          AlongChain(i);
          var bktCount, good := FsckBucket(buckets[i].hhHead, chains[i]);
          ok := ok && good && buckets[i].count == bktCount;
          TotalLenPrefix(chains, i);
          count := count + bktCount;
          i := i + 1;
        }
        assert chains[..i] == chains;
        ok := ok && count == numItems;
        var appCount, good := FsckApp();
        ok := ok && good && appCount == numItems;
      }
    }

    /** Every valid table passes. */
    lemma ValidPasses()
      requires Valid()
      ensures Walkable()
      ensures head == null || (buckets.Length == |chains|
        && BucketsIntact(buckets, chains, |chains|) && TotalLen(chains) == numItems && ListBack(app) && |app| == numItems)
    {
      hide TotalLen, Placed, Pow2, HashToBkt, Linked, Forward, BucketsIntact, Chained;
      if head != null {
        LinkedForward(buckets, chains, Items());
        LinkedIntact(buckets, chains, Items(), |chains|);
      }
    }

    static lemma LinkedForward(bs: array<Bucket>, chs: seq<seq<Handle>>, items: set<Handle>)
      requires Linked(bs, chs, items)
      ensures bs.Length == |chs| && Forward(bs, chs, Chained(chs))
    {
      hide HashToBkt;
    }

    static lemma {:induction false} LinkedIntact(bs: array<Bucket>, chs: seq<seq<Handle>>, items: set<Handle>, n: nat)
      requires Linked(bs, chs, items) && n <= |chs|
      ensures BucketsIntact(bs, chs, n)
    {
      hide HashToBkt;
      if n > 0 {
        LinkedIntact(bs, chs, items, n - 1);
      }
    }

    lemma AlongChain(i: nat)
      requires Walkable() && head != null && i < numBuckets
      ensures i < buckets.Length == |chains| && buckets[i].hhHead == At(chains[i], 0)
      ensures forall k {:trigger chains[i][k].hhNext} | 0 <= k < |chains[i]| :: chains[i][k].hhNext == At(chains[i], k + 1)
    {
    }

    /** Walk the chain of one bucket and compare each hh_prev with the item walked before. */
    static method FsckBucket(first: Handle?, ghost c: seq<Handle>) returns (count: nat, good: bool)
      requires first == At(c, 0) && forall k {:trigger c[k].hhNext} | 0 <= k < |c| :: c[k].hhNext == At(c, k + 1)
      ensures count == |c| && (good <==> ChainBack(c))
    {
      count, good := 0, true;
      var thh, prev: Handle? := first, null;
      while thh != null
        invariant count <= |c|
        invariant good <==> forall k | 0 <= k < count :: c[k].hhPrev == At(c, k - 1)
        invariant thh == At(c, count) && prev == At(c, count - 1)
        decreases |c| - count
      {
        good := good && prev == thh.hhPrev;
        count, prev, thh := count + 1, thh, thh.hhNext;
      }
    }

    /** Walk the application-order list and compare each prev with the item walked before. */
    method FsckApp() returns (count: nat, good: bool)
      requires Walkable()
      ensures count == |app| && (good <==> ListBack(app))
    {
      count, good := 0, true;
      var thh, prev: Handle? := head, null;
      while thh != null
        invariant count <= |app|
        invariant good <==> forall k | 0 <= k < count :: app[k].prev == At(app, k - 1)
        invariant thh == At(app, count) && prev == At(app, count - 1)
        decreases |app| - count
      {
        good := good && prev == thh.prev;
        count, prev, thh := count + 1, thh, thh.next;
      }
    }

    /** HASH_SRT: for a total preorder the items end up in their unique stable sorted order; buckets and chains are untouched. */
    method Sort(cmp: (Handle, Handle) -> int)
      requires Valid()
      modifies this`head, this`tail, this`app, app`next, app`prev
      ensures Valid() && Items() == old(Items())
      ensures multiset(app) == multiset(old(app))
      ensures app == MergeSort(old(app), 1, cmp)
      ensures TotalPreorder(cmp, Items()) ==> StablySorts(app, old(app), cmp) && app == InsertAll(old(app), cmp)
    {
      hide TotalLen, Placed, Linked, Pow2, HashToBkt, AppLinks, Injective, TableOk, MergeSort, StablySorts, InsertAll, TotalPreorder;
      if head != null {
        ghost var s := app;
        SortApp(cmp);
        MergeSortElements(s, 1, cmp);
        SameItems(s, app);
        if TotalPreorder(cmp, Items()) {
          assert Within(s, Items()) by { assert forall h | h in s :: h in Items(); }
          MergeSortIsInsertAll(s, cmp, Items());
        }
      } else {
        NothingToSort(app, cmp);
      }
    }

    static lemma NothingToSort(s: seq<Handle>, cmp: (Handle, Handle) -> int)
      requires s == []
      ensures StablySorts(s, s, cmp) && InsertAll(s, cmp) == s && MergeSort(s, 1, cmp) == s
    {
    }

    /** Before a pass: the singly linked list s still sorts to the same list as s0 did. */
    static ghost predicate Unsorted(s: seq<Handle>, list: Handle, insize: nat, s0: seq<Handle>, cmp: (Handle, Handle) -> int)
      requires insize > 0
      reads s`next
    {
      && UtHashSort.RestLinks(s) && Injective(s) && s != [] && list == s[0]
      && MergeSort(s, insize, cmp) == MergeSort(s0, 1, cmp)
    }

    /** The passes of HASH_SRT over the application-order list. */
    method SortApp(cmp: (Handle, Handle) -> int)
      requires AppOk() && app != []
      modifies this`head, this`tail, this`app, app`next, app`prev
      ensures AppOk() && app == MergeSort(old(app), 1, cmp)
    {
      hide AppLinks, Injective, Within, MergeSort, Unsorted;
      SortStarts(cmp);
      ghost var all, s := Items(), app;
      var list: Handle, insize, looping := head, 1, true;
      while looping
        invariant insize > 0 && Within(s, all)
        invariant looping ==> Unsorted(s, list, insize, old(app), cmp)
        invariant !looping ==> AppLinks(s) && Injective(s) && s == MergeSort(old(app), 1, cmp)
        invariant !looping ==> s != [] && head == s[0] && tail == s[|s| - 1]
        decreases looping, |s| - insize
      {
        var tl, nmerges;
        list, tl, nmerges, s := SortPass(list, insize, cmp, s, old(app), all);
        if nmerges <= 1 {
          looping := false;
          tail := tl;
          head := list;
        }
        insize := insize * 2;
      }
      app := s;
    }

    static method SortPass(list: Handle, insize: nat, cmp: (Handle, Handle) -> int, ghost s: seq<Handle>, ghost s0: seq<Handle>, ghost all: set<Handle>)
      returns (list': Handle, tail: Handle, nmerges: nat, ghost out: seq<Handle>)
      requires insize > 0 && Unsorted(s, list, insize, s0, cmp) && Within(s, all)
      modifies all`next, all`prev
      ensures Within(out, all) && |out| == |s| > 0
      ensures nmerges <= 1 ==> AppLinks(out) && Injective(out) && out == MergeSort(s0, 1, cmp) && list' == out[0] && tail == out[|out| - 1]
      ensures nmerges > 1 ==> Unsorted(out, list', 2 * insize, s0, cmp) && |s| > 2 * insize
    {
      var l, t;
      l, t, nmerges, out := UtHashSort.Pass(list, insize, cmp, s, all);
      MergePassLength(s, insize, cmp);
      list', tail := l, t;
    }

    lemma SortStarts(cmp: (Handle, Handle) -> int)
      requires AppOk() && app != []
      ensures head != null && Unsorted(app, head, 1, app, cmp) && Within(app, Items())
    {
    }

    static lemma SameItems(s: seq<Handle>, t: seq<Handle>)
      requires multiset(s) == multiset(t)
      ensures (set h | h in s) == (set h | h in t) && |s| == |t|
    {
      assert forall h :: h in s <==> h in multiset(s);
      assert forall h :: h in t <==> h in multiset(t);
      assert |multiset(s)| == |s| && |multiset(t)| == |t|;
    }
  }
}