// HASH_SRT: bottom-up merge sort that relinks the application-order list in place.
module UtHashSort {
  import opened Common
  import opened StableSort
  import opened UtHashChains

  /** The next fields lead along s; nothing is said of the last one. */
  ghost predicate NextLinks(s: seq<Handle>)
    reads s`next
  {
    forall i {:trigger s[i].next} | 0 <= i < |s| - 1 :: s[i].next == s[i + 1]
  }

  /** The next fields lead along s and end there. */
  ghost predicate RestLinks(s: seq<Handle>)
    reads s`next
  {
    forall i {:trigger s[i].next} | 0 <= i < |s| :: s[i].next == At(s, i + 1)
  }

  ghost predicate PrevLinks(s: seq<Handle>)
    reads s`prev
  {
    forall i {:trigger s[i].prev} | 0 <= i < |s| :: s[i].prev == At(s, i - 1)
  }

  /** The list built so far: its head, its tail, and the links between. */
  ghost predicate Built(out: seq<Handle>, list: Handle?, tail: Handle?)
    reads out`next, out`prev
  {
    && NextLinks(out) && PrevLinks(out)
    && list == At(out, 0) && tail == At(out, |out| - 1)
  }

  ghost predicate Apart(a: seq<Handle>, b: seq<Handle>) {
    forall x | x in a :: x !in b
  }

  /** The three stretches of the list during a merge: built, left run, everything from the right run on. */
  ghost predicate Distinct(out: seq<Handle>, p: seq<Handle>, q: seq<Handle>) {
    && Injective(out) && Injective(p) && Injective(q)
    && Apart(out, p) && Apart(out, q) && Apart(p, q)
  }

  lemma DistinctLeft(out: seq<Handle>, p: seq<Handle>, q: seq<Handle>)
    requires Distinct(out, p, q) && p != []
    ensures Distinct(out + [p[0]], p[1..], q)
  {
    assert p[0] in p;
    assert forall x | x in p[1..] :: x in p;
  }

  lemma DistinctRight(out: seq<Handle>, p: seq<Handle>, q: seq<Handle>)
    requires Distinct(out, p, q) && q != []
    ensures Distinct(out + [q[0]], p, q[1..])
  {
    assert q[0] in q;
    assert forall x | x in q[1..] :: x in q;
  }

  lemma OutsideOut(out: seq<Handle>, p: seq<Handle>, q: seq<Handle>)
    requires Distinct(out, p, q)
    ensures forall i {:trigger p[i]} | 0 <= i < |p| :: p[i] !in out
    ensures forall i {:trigger q[i]} | 0 <= i < |q| :: q[i] !in out
    ensures p != [] ==> p[0] !in q
  {
    assert forall i | 0 <= i < |p| :: p[i] in p;
    assert forall i | 0 <= i < |q| :: q[i] in q;
  }

  lemma NextLinksTail(s: seq<Handle>)
    requires NextLinks(s) && s != []
    ensures NextLinks(s[1..])
  {
    assert forall i | 0 <= i < |s| - 1 :: s[1..][i] == s[i + 1];
  }

  lemma RestLinksTail(s: seq<Handle>)
    requires RestLinks(s) && s != []
    ensures RestLinks(s[1..])
  {
    assert forall i | 0 <= i < |s| - 1 :: s[1..][i] == s[i + 1];
  }

  /** The registers of the merge loop agree with the three stretches. */
  ghost predicate Merging(list: Handle?, tail: Handle?, p: Handle?, q: Handle?, out: seq<Handle>, ps: seq<Handle>, qs: seq<Handle>)
    reads out`next, out`prev, ps`next, qs`next
  {
    && Built(out, list, tail) && NextLinks(ps) && RestLinks(qs)
    && (ps != [] ==> p == ps[0]) && q == At(qs, 0)
    && Distinct(out, ps, qs)
  }

  /** Append e to the list under construction. */
  method Emit(e: Handle, list: Handle?, tail: Handle?, ghost out: seq<Handle>) returns (list': Handle)
    requires Built(out, list, tail) && Injective(out) && e !in out
    modifies out`next, e`prev
    ensures Built(out + [e], list', e)
  {
    list' := if tail != null then list else e;
    if tail != null {
      tail.next := e;
    }
    e.prev := tail;
  }

  method TakeLeft(list: Handle?, tail: Handle?, p: Handle, q: Handle?, ghost out: seq<Handle>, ghost ps: seq<Handle>, ghost qs: seq<Handle>)
    returns (list': Handle?, tail': Handle?, p': Handle?)
    requires Merging(list, tail, p, q, out, ps, qs) && ps != []
    modifies out`next, ps`prev
    ensures Merging(list', tail', p', q, out + [ps[0]], ps[1..], qs)
  {
    DistinctLeft(out, ps, qs);
    OutsideOut(out, ps, qs);
    p' := p.next;
    list' := Emit(p, list, tail, out);
    tail' := p;
    NextLinksTail(ps);
  }

  method TakeRight(list: Handle?, tail: Handle?, p: Handle?, q: Handle, ghost out: seq<Handle>, ghost ps: seq<Handle>, ghost qs: seq<Handle>)
    returns (list': Handle?, tail': Handle?, q': Handle?)
    requires Merging(list, tail, p, q, out, ps, qs) && qs != []
    modifies out`next, qs`prev
    ensures Merging(list', tail', p, q', out + [qs[0]], ps, qs[1..])
  {
    DistinctRight(out, ps, qs);
    OutsideOut(out, ps, qs);
    q' := q.next;
    list' := Emit(q, list, tail, out);
    tail' := q;
    RestLinksTail(qs);
  }

  lemma MergeLeftHead(ps: seq<Handle>, r: seq<Handle>, cmp: (Handle, Handle) -> int)
    requires ps != [] && (r != [] ==> cmp(ps[0], r[0]) <= 0)
    ensures Merge(ps, r, cmp) == [ps[0]] + Merge(ps[1..], r, cmp)
  {
    if r == [] {
      assert Merge(ps[1..], r, cmp) == ps[1..];
    }
  }

  lemma MergeRightHead(ps: seq<Handle>, r: seq<Handle>, cmp: (Handle, Handle) -> int)
    requires r != [] && (ps != [] ==> cmp(ps[0], r[0]) > 0)
    ensures Merge(ps, r, cmp) == [r[0]] + Merge(ps, r[1..], cmp)
  {
  }

  /** The for loop that measures the left run and finds the start of the right one. */
  method Measure(p: Handle, insize: nat, ghost s: seq<Handle>) returns (psize: nat, q: Handle?)
    requires RestLinks(s) && s != [] && p == s[0] && insize > 0
    ensures psize == Min(insize, |s|) && q == At(s, psize)
  {
    q, psize := p, 0;
    for i := 0 to insize
      invariant psize == i <= |s| && q == At(s, i) && (i < insize ==> i < |s|)
    {
      psize := psize + 1;
      q := q.next;
      if q == null {
        break;
      }
    }
  }

  /** The first m elements of qs, the right run, and what follows them. */
  ghost function Run(qs: seq<Handle>, m: nat): seq<Handle> { qs[..Min(m, |qs|)] }

  ghost function After(qs: seq<Handle>, m: nat): seq<Handle> { qs[Min(m, |qs|)..] }

  lemma RunTail(qs: seq<Handle>, m: nat)
    requires qs != [] && m > 0
    ensures Run(qs, m) != [] && Run(qs, m)[0] == qs[0]
    ensures Run(qs, m)[1..] == Run(qs[1..], m - 1) && After(qs, m) == After(qs[1..], m - 1)
  {
  }

  lemma WithinParts(s: seq<Handle>, t: seq<Handle>, S: set<Handle>)
    requires Within(s, S) && Within(t, S) && t != []
    ensures Within(s + [t[0]], S) && Within(t[1..], S)
  {
    assert t[0] in t;
    assert forall x | x in t[1..] :: x in t;
  }

  /** The merge loop of HASH_SRT. */
  method MergeRuns(p0: Handle?, q0: Handle?, psize0: nat, insize: nat, list0: Handle?, tail0: Handle?, cmp: (Handle, Handle) -> int,
                   ghost out0: seq<Handle>, ghost ps0: seq<Handle>, ghost qs0: seq<Handle>, ghost all: set<Handle>)
    returns (list: Handle?, tail: Handle?, q: Handle?, ghost out: seq<Handle>, ghost qs: seq<Handle>)
    requires Merging(list0, tail0, p0, q0, out0, ps0, qs0) && psize0 == |ps0|
    requires Within(out0, all) && Within(ps0, all) && Within(qs0, all)
    modifies all`next, all`prev
    ensures out == out0 + Merge(ps0, Run(qs0, insize), cmp) && qs == After(qs0, insize)
    ensures Merging(list, tail, null, q, out, [], qs) && Within(out, all) && Within(qs, all)
  {
    hide Merge, Merging, Run, After;
    list, tail, q, out, qs := list0, tail0, q0, out0, qs0;
    var p, psize, qsize := p0, psize0, insize;
    ghost var ps := ps0;
    Registers(list, tail, p, q, out, ps, qs);
    while psize != 0 || (qsize != 0 && q != null)
      invariant psize == |ps| && Merging(list, tail, p, q, out, ps, qs)
      invariant (ps != [] ==> p == ps[0]) && q == At(qs, 0)
      invariant Within(out, all) && Within(ps, all) && Within(qs, all)
      invariant out + Merge(ps, Run(qs, qsize), cmp) == out0 + Merge(ps0, Run(qs0, insize), cmp)
      invariant After(qs, qsize) == After(qs0, insize)
      decreases psize + qsize
    {
      var left := if psize == 0 then false else if qsize == 0 || q == null then true else cmp(p, q) <= 0;
      RunHead(qs, qsize);
      if left {
        WithinParts(out, ps, all);
        MergeLeftHead(ps, Run(qs, qsize), cmp);
        TakenLeft(out, ps, Run(qs, qsize), cmp);
        list, tail, p := TakeLeft(list, tail, p, q, out, ps, qs);
        out, ps, psize := out + [ps[0]], ps[1..], psize - 1;
      } else {
        WithinParts(out, qs, all);
        RunTail(qs, qsize);
        MergeRightHead(ps, Run(qs, qsize), cmp);
        list, tail, q := TakeRight(list, tail, p, q, out, ps, qs);
        assert out + ([qs[0]] + Merge(ps, Run(qs[1..], qsize - 1), cmp)) == (out + [qs[0]]) + Merge(ps, Run(qs[1..], qsize - 1), cmp);
        out, qs, qsize := out + [qs[0]], qs[1..], qsize - 1;
      }
      Registers(list, tail, p, q, out, ps, qs);
    }
    MergeDone(list, tail, p, q, out, qs, qsize, cmp);
  }

  lemma Registers(list: Handle?, tail: Handle?, p: Handle?, q: Handle?, out: seq<Handle>, ps: seq<Handle>, qs: seq<Handle>)
    requires Merging(list, tail, p, q, out, ps, qs)
    ensures (ps != [] ==> p == ps[0]) && q == At(qs, 0)
    ensures (q == null <==> qs == []) && (q != null ==> q == qs[0])
    ensures RestLinks(qs) && Built(out, list, tail) && Injective(out)
  {
  }

  lemma RunHead(qs: seq<Handle>, m: nat)
    ensures Run(qs, m) == [] <==> m == 0 || qs == []
    ensures m > 0 && qs != [] ==> Run(qs, m)[0] == qs[0]
  {
  }

  lemma TakenLeft(out: seq<Handle>, ps: seq<Handle>, r: seq<Handle>, cmp: (Handle, Handle) -> int)
    requires ps != [] && Merge(ps, r, cmp) == [ps[0]] + Merge(ps[1..], r, cmp)
    ensures out + Merge(ps, r, cmp) == (out + [ps[0]]) + Merge(ps[1..], r, cmp)
  {
    hide Merge;
    assert out + ([ps[0]] + Merge(ps[1..], r, cmp)) == (out + [ps[0]]) + Merge(ps[1..], r, cmp);
  }

  lemma MergeDone(list: Handle?, tail: Handle?, p: Handle?, q: Handle?, out: seq<Handle>, qs: seq<Handle>, qsize: nat, cmp: (Handle, Handle) -> int)
    requires Merging(list, tail, p, q, out, [], qs) && (qsize == 0 || q == null)
    ensures Merging(list, tail, null, q, out, [], qs)
    ensures Run(qs, qsize) == [] && After(qs, qsize) == qs && Merge([], Run(qs, qsize), cmp) == []
    ensures out + Merge([], Run(qs, qsize), cmp) == out
  {
  }

  /** Cut the rest of the list after the left run. */
  lemma CutRun(list: Handle?, tail: Handle?, p: Handle?, out: seq<Handle>, rest: seq<Handle>, n: nat, all: set<Handle>)
    requires Merging(list, tail, null, p, out, [], rest) && 0 < n <= |rest| && Within(rest, all)
    ensures Merging(list, tail, p, At(rest, n), out, rest[..n], rest[n..])
    ensures Within(rest[..n], all) && Within(rest[n..], all)
  {
    var a, b := rest[..n], rest[n..];
    assert forall i | 0 <= i < |a| :: a[i] == rest[i];
    assert forall i | 0 <= i < |b| :: b[i] == rest[n + i];
    assert forall x | x in a :: x in rest;
    assert forall x | x in b :: x in rest;
  }

  lemma RunSlices(rest: seq<Handle>, k: nat, n: nat, m: nat)
    requires k > 0 && n == Min(k, |rest|) && m == Min(2 * k, |rest|)
    ensures Run(rest[n..], k) == rest[n..m] && After(rest[n..], k) == rest[m..]
  {
    var q := rest[n..];
    assert Min(k, |q|) == m - n;
    assert q[..m - n] == rest[n..m];
    assert q[m - n..] == rest[m..];
  }

  lemma Assoc<T>(x: seq<T>, y: seq<T>, z: seq<T>)
    ensures x + (y + z) == (x + y) + z
  {
  }

  lemma MergePassStep(rest: seq<Handle>, k: nat, out: seq<Handle>, cmp: (Handle, Handle) -> int)
    requires k > 0 && rest != []
    ensures var n := Min(k, |rest|);
      && |After(rest[n..], k)| == (if |rest| <= 2 * k then 0 else |rest| - 2 * k)
      && out + MergePass(rest, k, cmp)
         == (out + Merge(rest[..n], Run(rest[n..], k), cmp)) + MergePass(After(rest[n..], k), k, cmp)
  {
    hide Merge, After, Run;
    var n, m := Min(k, |rest|), Min(2 * k, |rest|);
    RunSlices(rest, k, n, m);
    Assoc(out, Merge(rest[..n], rest[n..m], cmp), MergePass(rest[m..], k, cmp));
  }

  /** During a pass: what is built and what is left; nmerges tells whether one pair of runs covers s. */
  ghost predicate Passing(list: Handle?, tail: Handle?, p: Handle?, nmerges: nat, insize: nat, out: seq<Handle>, rest: seq<Handle>,
                          s: seq<Handle>, cmp: (Handle, Handle) -> int, all: set<Handle>)
    requires insize > 0
    reads out`next, out`prev, rest`next
  {
    && Merging(list, tail, null, p, out, [], rest) && Within(out, all) && Within(rest, all)
    && out + MergePass(rest, insize, cmp) == MergePass(s, insize, cmp)
    && (nmerges == 0 ==> rest == s)
    && (nmerges == 1 ==> |rest| == if |s| <= 2 * insize then 0 else |s| - 2 * insize)
    && (nmerges > 1 ==> |s| > 2 * insize)
  }

  /** Merge the next pair of runs. */
  method PassRound(list0: Handle?, tail0: Handle?, p0: Handle, nmerges: nat, insize: nat, cmp: (Handle, Handle) -> int,
                   ghost out0: seq<Handle>, ghost rest0: seq<Handle>, ghost s: seq<Handle>, ghost all: set<Handle>)
    returns (list: Handle?, tail: Handle?, p: Handle?, ghost out: seq<Handle>, ghost rest: seq<Handle>)
    requires insize > 0 && rest0 != [] && Passing(list0, tail0, p0, nmerges, insize, out0, rest0, s, cmp, all)
    modifies all`next, all`prev
    ensures Passing(list, tail, p, nmerges + 1, insize, out, rest, s, cmp, all) && |rest| < |rest0|
    ensures (p == null <==> rest == []) && (p != null ==> p == rest[0])
  {
    hide Merge, Merging, MergePass, After, Run, RestLinks, Built, Injective;
    Registers(list0, tail0, null, p0, out0, [], rest0);
    var psize, q := Measure(p0, insize, rest0);
    CutRun(list0, tail0, p0, out0, rest0, psize, all);
    MergePassStep(rest0, insize, out0, cmp);
    list, tail, p, out, rest := MergeRuns(p0, q, psize, insize, list0, tail0, cmp, out0, rest0[..psize], rest0[psize..], all);
    Registers(list, tail, null, p, out, [], rest);
  }

  /** One round of the outer while of HASH_SRT: all pairs of runs of length insize are merged. */
  method Pass(first: Handle, insize: nat, cmp: (Handle, Handle) -> int, ghost s: seq<Handle>, ghost all: set<Handle>)
    returns (list: Handle?, tail: Handle?, nmerges: nat, ghost out: seq<Handle>)
    requires RestLinks(s) && Injective(s) && s != [] && first == s[0] && insize > 0 && Within(s, all)
    modifies all`next, all`prev
    ensures out == MergePass(s, insize, cmp) && Within(out, all) && Injective(out)
    ensures RestLinks(out) && PrevLinks(out) && list == At(out, 0) && tail == At(out, |out| - 1)
    ensures nmerges <= 1 <==> |s| <= 2 * insize
  {
    list, tail, nmerges, out := null, null, 0, [];
    var p: Handle? := first;
    ghost var rest := s;
    PassStarts(first, insize, s, cmp, all);
    hide *;
    while p != null
      invariant Passing(list, tail, p, nmerges, insize, out, rest, s, cmp, all)
      invariant (p == null <==> rest == []) && (p != null ==> p == rest[0])
      invariant nmerges == 0 ==> rest == s
      decreases |rest|
    {
      list, tail, p, out, rest := PassRound(list, tail, p, nmerges, insize, cmp, out, rest, s, all);
      nmerges := nmerges + 1;
    }
    PassEnds(list, tail, nmerges, insize, out, s, cmp, all);
    Close(list, tail, out);
  }

  lemma PassStarts(first: Handle, insize: nat, s: seq<Handle>, cmp: (Handle, Handle) -> int, all: set<Handle>)
    requires insize > 0 && Within(s, all)
    requires RestLinks(s) && Injective(s) && s != [] && first == s[0]
    ensures Passing(null, null, first, 0, insize, [], s, s, cmp, all)
  {
    assert [] + MergePass(s, insize, cmp) == MergePass(s, insize, cmp);
  }

  lemma PassEnds(list: Handle?, tail: Handle?, nmerges: nat, insize: nat, out: seq<Handle>, s: seq<Handle>, cmp: (Handle, Handle) -> int, all: set<Handle>)
    requires insize > 0 && nmerges > 0 && Passing(list, tail, null, nmerges, insize, out, [], s, cmp, all)
    ensures out == MergePass(s, insize, cmp) && Built(out, list, tail) && Injective(out) && Within(out, all)
    ensures forall x | x in out :: x in all
    ensures nmerges <= 1 <==> |s| <= 2 * insize
  {
    assert out + MergePass([], insize, cmp) == out;
  }

  /** Terminate the list that was built. */
  method Close(list: Handle?, tail: Handle?, ghost out: seq<Handle>)
    requires Built(out, list, tail) && Injective(out)
    modifies out`next
    ensures RestLinks(out) && PrevLinks(out) && list == At(out, 0) && tail == At(out, |out| - 1)
  {
    if tail != null {
      tail.next := null;
    }
  }
}