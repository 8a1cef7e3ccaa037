// The uthash table as a map: what a lookup finds, as a function of the items in application order.
module UtHashMap {
  import opened Common
  import opened StableSort
  import opened UtHashChains

  predicate Matches(h: Handle, key: string, keylen: nat, hashv: nat) {
    h.hashv == hashv && |h.key| == keylen && h.key == key
  }

  /** No two items have the same key and hash value. */
  ghost predicate UniqueKeys(s: seq<Handle>) {
    forall i, j {:trigger s[i], s[j]} | 0 <= i < j < |s| :: !Matches(s[j], s[i].key, |s[i].key|, s[i].hashv)
  }

  /** The first item with this key and hash value. */
  ghost function Lookup(s: seq<Handle>, key: string, hashv: nat): (h: Handle?)
    ensures h == null ==> forall x | x in s :: !Matches(x, key, |key|, hashv)
    ensures h != null ==> h in s && Matches(h, key, |key|, hashv)
  {
    if s == [] then null else if Matches(s[0], key, |key|, hashv) then s[0] else Lookup(s[1..], key, hashv)
  }

  lemma UniquePosition(s: seq<Handle>, i: nat, j: nat)
    requires UniqueKeys(s) && i < |s| && j < |s| && s[i].key == s[j].key && s[i].hashv == s[j].hashv
    ensures i == j
  {
  }

  /** With unique keys the item that matches is the one that is found. */
  lemma LookupIs(s: seq<Handle>, key: string, hashv: nat, h: Handle)
    requires UniqueKeys(s) && h in s && Matches(h, key, |key|, hashv)
    ensures Lookup(s, key, hashv) == h
  {
    hide Lookup;
    var x := Lookup(s, key, hashv);
    assert x != null;
    var i :| 0 <= i < |s| && s[i] == x;
    var j :| 0 <= j < |s| && s[j] == h;
    UniquePosition(s, i, j);
  }

  /** Appending an item with a fresh key adds that key and changes no other lookup. */
  lemma LookupAfterAdd(s: seq<Handle>, add: Handle, key: string, hashv: nat)
    requires UniqueKeys(s) && Lookup(s, add.key, add.hashv) == null
    ensures UniqueKeys(s + [add])
    ensures Lookup(s + [add], key, hashv) == if Matches(add, key, |key|, hashv) then add else Lookup(s, key, hashv)
  {
    hide Lookup;
    var t := s + [add];
    forall i, j | 0 <= i < j < |t| ensures !Matches(t[j], t[i].key, |t[i].key|, t[i].hashv) {
      if j == |s| {
        assert s[i] in s;
      }
    }
    SameLookups(s, t, add, key, hashv);
  }

  lemma SameLookups(s: seq<Handle>, t: seq<Handle>, add: Handle, key: string, hashv: nat)
    requires UniqueKeys(s) && UniqueKeys(t) && forall h :: h in t <==> h in s || h == add
    requires Lookup(s, add.key, add.hashv) == null
    ensures Lookup(t, key, hashv) == if Matches(add, key, |key|, hashv) then add else Lookup(s, key, hashv)
  {
    hide Lookup, UniqueKeys;
    if Matches(add, key, |key|, hashv) {
      LookupIs(t, key, hashv, add);
    } else {
      var h := Lookup(s, key, hashv);
      if h != null {
        LookupIs(t, key, hashv, h);
      }
    }
  }

  /** Lookups depend on the items alone, not on their order: sorting and expanding change none. */
  lemma LookupIgnoresOrder(s: seq<Handle>, t: seq<Handle>, key: string, hashv: nat)
    requires UniqueKeys(s) && Injective(t) && forall h :: h in s <==> h in t
    ensures UniqueKeys(t) && Lookup(t, key, hashv) == Lookup(s, key, hashv)
  {
    hide Lookup;
    forall i, j | 0 <= i < j < |t| ensures !Matches(t[j], t[i].key, |t[i].key|, t[i].hashv) {
      assert t[i] in s && t[j] in s && t[i] != t[j];
      if Matches(t[j], t[i].key, |t[i].key|, t[i].hashv) {
        LookupIs(s, t[i].key, t[i].hashv, t[i]);
        LookupIs(s, t[i].key, t[i].hashv, t[j]);
      }
    }
    var h := Lookup(s, key, hashv);
    if h != null {
      LookupIs(t, key, hashv, h);
    }
  }

  /** An in-order add changes the lookups as one at the end does. */
  lemma LookupAfterInsert(s: seq<Handle>, add: Handle, cmp: (Handle, Handle) -> int, key: string, hashv: nat)
    requires UniqueKeys(s) && Lookup(s, add.key, add.hashv) == null && Injective(Insert(s, add, cmp))
    ensures UniqueKeys(Insert(s, add, cmp))
    ensures Lookup(Insert(s, add, cmp), key, hashv) == if Matches(add, key, |key|, hashv) then add else Lookup(s, key, hashv)
  {
    hide Lookup, UniqueKeys, Insert;
    var t := Insert(s, add, cmp);
    InsertElements(s, add, cmp);
    assert forall h :: h in s + [add] <==> h in multiset(s + [add]);
    assert multiset(s + [add]) == multiset(s) + multiset{add};
    assert forall h :: h in t <==> h in multiset(t);
    LookupAfterAdd(s, add, key, hashv);
    LookupIgnoresOrder(s + [add], t, key, hashv);
  }

  /** Deleting an item removes its key and changes no other lookup. */
  lemma LookupAfterDelete(s: seq<Handle>, k: nat, key: string, hashv: nat)
    requires UniqueKeys(s) && Injective(s) && k < |s|
    ensures UniqueKeys(Remove(s, k))
    ensures Lookup(Remove(s, k), key, hashv) == if Matches(s[k], key, |key|, hashv) then null else Lookup(s, key, hashv)
  {
    hide Lookup;
    var t := Remove(s, k);
    InjectiveRemove(s, k);
    assert forall i | 0 <= i < |t| :: t[i] == s[if i < k then i else i + 1];
    var h, x := Lookup(s, key, hashv), Lookup(t, key, hashv);
    if Matches(s[k], key, |key|, hashv) {
      LookupIs(s, key, hashv, s[k]);
      if x != null {
        LookupIs(s, key, hashv, x);
      }
    } else if h != null {
      LookupIs(t, key, hashv, h);
    }
  }
}
