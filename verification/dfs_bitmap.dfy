// The block bitmap of a DFS partition as a value, together with what the scan cache holds of its first byte.
module DfsBitmap {
  import opened Common

  /** The static pair last_byte_off, byte_val. Only a cached copy of the first bitmap byte can ever be reused. */
  datatype Cache = NoCache | FirstByte(bits: seq<bool>)

  datatype Disk = Disk(used: seq<bool>, cache: Cache)

  ghost predicate WellFormed(d: Disk) { d.cache.FirstByte? ==> |d.cache.bits| == Min(8, |d.used|) }

  /** What the scan sees: the cached first byte if there is one, the disk for the rest. */
  ghost function Effective(d: Disk): (e: seq<bool>)
    requires WellFormed(d)
    ensures |e| == |d.used|
  {
    match d.cache
    case NoCache => d.used
    case FirstByte(b) => b + d.used[|b|..]
  }

  /** The scan sees what is on disk. */
  ghost predicate Coherent(d: Disk)
    requires WellFormed(d)
  {
    Effective(d) == d.used
  }

  /** No block in use reads as free. */
  ghost predicate Trusted(d: Disk)
    requires WellFormed(d)
  {
    forall i {:trigger d.used[i]} | 0 <= i < |d.used| && d.used[i] :: Effective(d)[i]
  }

  ghost predicate Clear(used: seq<bool>, s: int, n: nat) {
    0 <= s && s + n <= |used| && forall i | s <= i < s + n :: !used[i]
  }

  ghost predicate Full(used: seq<bool>, s: int, n: nat) {
    0 <= s && s + n <= |used| && forall i | s <= i < s + n :: used[i]
  }

  /** The lowest start at or after t of n clear bits in a row, or -1. */
  ghost function FirstRun(used: seq<bool>, n: nat, t: nat): (s: int)
    ensures s == -1 || (t <= s && Clear(used, s, n))
    ensures forall i {:trigger Clear(used, i, n)} | t <= i && Clear(used, i, n) :: s != -1 && s <= i
    decreases |used| - t
  {
    if t + n > |used| then -1 else if Clear(used, t, n) then t else FirstRun(used, n, t + 1)
  }

  /** Bits s to s+n-1 set to v. */
  ghost function Fill(used: seq<bool>, s: nat, n: nat, v: bool): (r: seq<bool>)
    requires s + n <= |used|
    ensures |r| == |used| && forall i {:trigger r[i]} | 0 <= i < |r| :: r[i] == if s <= i < s + n then v else used[i]
  {
    used[..s] + seq(n, _ => v) + used[s + n..]
  }

  /** The cache after the scan has looked at m blocks. */
  ghost function AfterScan(d: Disk, m: nat): Cache
    requires WellFormed(d)
  {
    if m <= 8 then FirstByte(Effective(d)[..Min(8, |d.used|)]) else NoCache
  }

  /** dfs_alloc_file_blocks with no I/O failure: the new disk, and the first block or -1. */
  ghost function Alloc(d: Disk, n: nat): (r: (Disk, int))
    requires WellFormed(d)
    ensures WellFormed(r.0) && |r.0.used| == |d.used| && r.1 >= -1
  {
    if n == 0 || n > |d.used| then (d, -1)
    else
      var s := FirstRun(Effective(d), n, 0);
      if s == -1 then (Disk(d.used, AfterScan(d, |d.used|)), -1)
      else (Disk(Fill(d.used, s, n, true), AfterScan(d, s + n)), s)
  }

  /** dfs_free_file_blocks with no I/O failure; it stops at the last block and leaves the cache alone. */
  ghost function Free(d: Disk, s: nat, n: nat): (r: Disk)
    requires WellFormed(d)
    ensures WellFormed(r) && |r.used| == |d.used|
  {
    if s >= |d.used| then d else Disk(Fill(d.used, s, Min(n, |d.used| - s), false), d.cache)
  }

  // ----- One call -----

  /** With a coherent cache the lowest run of n clear bits is taken, and a request fails only if there is none. */
  lemma AllocTakesLowest(d: Disk, n: nat)
    requires WellFormed(d) && Coherent(d)
    ensures var (d', s) := Alloc(d, n);
      if s == -1 then d'.used == d.used && (n == 0 || forall i {:trigger Clear(d.used, i, n)} :: !Clear(d.used, i, n))
      else n > 0 && Clear(d.used, s, n) && d'.used == Fill(d.used, s, n, true)
           && forall i {:trigger Clear(d.used, i, n)} | i < s :: !Clear(d.used, i, n)
  {
    hide Clear;
    if n > |d.used| {
      ClearFits(d.used, n);
    } else if n > 0 {
      ClearFits(d.used, n);
    }
  }

  /** With any cache, the lowest run of n bits that read as clear is taken, if n is not 0; those bits are set and no other. */
  lemma AllocTakesLowestSeen(d: Disk, n: nat)
    requires WellFormed(d)
    ensures var e, d', s := Effective(d), Alloc(d, n).0, Alloc(d, n).1;
      && |d'.used| == |d.used|
      && if s == -1 then d'.used == d.used && (n == 0 || forall i {:trigger Clear(e, i, n)} :: !Clear(e, i, n))
         else
           && n > 0 && Clear(e, s, n) && (forall i {:trigger Clear(e, i, n)} | i < s :: !Clear(e, i, n))
           && forall i {:trigger d'.used[i]} | 0 <= i < |d.used| :: d'.used[i] == (d.used[i] || s <= i < s + n)
  {
    hide Clear;
    ClearFits(Effective(d), n);
  }

  /** A free clears the bits of the blocks that exist, and no other, and does not touch the cache. */
  lemma FreeClears(d: Disk, s: nat, n: nat)
    requires WellFormed(d)
    ensures var d' := Free(d, s, n);
      d'.cache == d.cache && |d'.used| == |d.used| && forall i {:trigger d'.used[i]} | 0 <= i < |d.used| :: d'.used[i] == (d.used[i] && !(s <= i < s + n))
  {
  }

  /** The cache after a request: the first byte as the scan saw it if the scan ended there, and nothing otherwise. */
  lemma CacheLeft(d: Disk, n: nat)
    requires WellFormed(d) && 0 < n <= |d.used|
    ensures var e, c, s := Effective(d), Alloc(d, n).0.cache, Alloc(d, n).1;
      if (s == -1 && |d.used| > 8) || s + n > 8 then c == NoCache else c.FirstByte? && c.bits == e[..Min(8, |d.used|)]
  {
  }

  lemma ClearFits(used: seq<bool>, n: nat)
    ensures forall i {:trigger Clear(used, i, n)} | Clear(used, i, n) :: 0 <= i <= |used| - n
  {
  }

  /** Some run of n clear bits ends within the first byte. */
  ghost predicate RunInFirstByte(used: seq<bool>, n: nat) {
    exists i :: Clear(used, i, n) && i + n <= 8
  }

  /** The marking loop does not refresh the cache: it stays coherent exactly if no run of n clear bits lies in the first byte. */
  lemma CoherentAfterAlloc(d: Disk, n: nat)
    requires WellFormed(d) && Coherent(d)
    ensures Coherent(Alloc(d, n).0) <==> n == 0 || !RunInFirstByte(d.used, n)
  {
    var (d', s) := Alloc(d, n);
    AllocTakesLowest(d, n);
    if s != -1 && s + n <= 8 {
      assert Effective(d')[s] == d.used[s];
      assert RunInFirstByte(d.used, n);
    }
  }

  /** Such a run is handed out again to the next request of the same size, and no other run is. */
  lemma RunHandedOutTwice(d: Disk, n: nat)
    requires WellFormed(d) && Coherent(d) && n > 0
    ensures Alloc(d, n).1 != -1 && Alloc(Alloc(d, n).0, n).1 == Alloc(d, n).1 <==> RunInFirstByte(d.used, n)
  {
    var (d', s) := Alloc(d, n);
    AllocTakesLowest(d, n);
    if s != -1 {
      if s + n <= 8 {
        StaleView(d, n);
        assert Effective(d') == d.used;
        assert RunInFirstByte(d.used, n);
      } else {
        CoherentAfterAlloc(d, n);
        AllocTakesLowest(d', n);
        assert !Clear(d'.used, s, n) by { assert d'.used[s]; }
      }
    }
  }

  /** Blocks in use still read as used after an allocation exactly if the scan saw no run of n clear bits in the first byte. */
  lemma TrustedAfterAlloc(d: Disk, n: nat)
    requires WellFormed(d) && Trusted(d)
    ensures Trusted(Alloc(d, n).0) <==> n == 0 || !RunInFirstByte(Effective(d), n)
  {
    hide FirstRun;
    var e := Effective(d);
    var (d', s) := Alloc(d, n);
    ClearFits(e, n);
    if s != -1 {
      if s + n <= 8 {
        assert d'.used[s] && !Effective(d')[s];
      } else {
        assert forall i {:trigger Clear(e, i, n)} | Clear(e, i, n) :: s <= i;
      }
    }
  }

  /** Freeing never makes a block in use read as free. */
  lemma TrustedAfterFree(d: Disk, s: nat, n: nat)
    requires WellFormed(d) && Trusted(d)
    ensures Trusted(Free(d, s, n))
  {
  }

  lemma CoherentIsTrusted(d: Disk)
    requires WellFormed(d) && Coherent(d)
    ensures Trusted(d)
  {
  }

  /** What is handed out under a view that hides no block in use was free. */
  lemma AllocTakesClear(d: Disk, n: nat)
    requires WellFormed(d) && Trusted(d) && Alloc(d, n).1 != -1
    ensures n > 0 && Clear(d.used, Alloc(d, n).1, n) && Alloc(d, n).0.used == Fill(d.used, Alloc(d, n).1, n, true)
  {
    hide Effective, Fill, FirstRun;
    assert Clear(Effective(d), Alloc(d, n).1, n);
  }

  lemma StaleView(d: Disk, n: nat)
    requires WellFormed(d) && Coherent(d) && Alloc(d, n).1 != -1 && Alloc(d, n).1 + n <= 8
    ensures Effective(Alloc(d, n).0) == d.used
  {
    var (d', s) := Alloc(d, n);
    var m := Min(8, |d.used|);
    assert d'.cache.bits == d.used[..m];
    assert d'.used[m..] == d.used[m..];
  }

  /** Freeing what was allocated restores the bitmap. */
  lemma FreeUndoesAlloc(d: Disk, n: nat)
    requires WellFormed(d) && Coherent(d) && Alloc(d, n).1 != -1
    ensures Free(Alloc(d, n).0, Alloc(d, n).1, n).used == d.used
  {
    var (d', s) := Alloc(d, n);
    assert Clear(d.used, s, n);
  }

  /** After freeing a full run the cache is coherent exactly if it holds nothing of the freed bits. */
  lemma CoherentAfterFree(d: Disk, s: nat, n: nat)
    requires WellFormed(d) && Coherent(d) && n > 0 && Full(d.used, s, n)
    ensures Coherent(Free(d, s, n)) <==> d.cache == NoCache || s >= 8
  {
    var d' := Free(d, s, n);
    if d.cache.FirstByte? {
      var b := d.cache.bits;
      assert Effective(d') == b + d'.used[|b|..];
      if s < 8 {
        assert Effective(d')[s] == b[s] == Effective(d)[s];
      } else {
        forall i | 0 <= i < |d.used| ensures Effective(d')[i] == d'.used[i] {
          assert Effective(d)[i] == d.used[i];
        }
      }
    }
  }

  /** Re-syncing a file at s that now has m blocks: as many are freed from s on, and as many are allocated. */
  ghost function Resync(d: Disk, s: nat, m: nat): (Disk, int)
    requires WellFormed(d)
  {
    Alloc(Free(d, s, m), m)
  }

  /** m blocks from r on: they end by s, or the rest of them is freed and its freeing is seen; what lies below s is free. */
  ghost predicate RoomAt(d: Disk, s: nat, m: nat, r: nat) {
    && r <= s && r + m <= |d.used| && (r + m <= s || d.cache == NoCache || s >= 8)
    && forall i | r <= i < s && i < r + m :: !d.used[i]
  }

  /** It succeeds without moving the file to a higher block exactly if there is room at or below s. For a file of m blocks before
      and after, this means that the cache holds nothing of the freed bits, or that there was room lower down. */
  lemma ResyncExactly(d: Disk, s: nat, m: nat)
    requires WellFormed(d) && Coherent(d) && m > 0 && s < |d.used| && d.used[s]
    ensures 0 <= Resync(d, s, m).1 <= s <==> exists r :: RoomAt(d, s, m, r)
    ensures Full(d.used, s, m) ==> (0 <= Resync(d, s, m).1 <= s <==>
      d.cache == NoCache || s >= 8 || exists r :: r < s && Clear(d.used, r, m))
  {
    hide Alloc, Clear;
    var f := Free(d, s, m);
    if d.cache == NoCache || s >= 8 {
      FreshView(d, s, m);
      AllocTakesLowest(f, m);
      ClearFits(f.used, m);
      RoomIfFresh(d, s, m);
      if Full(d.used, s, m) {
        assert RoomAt(d, s, m, s);
      }
    } else {
      ResyncWithStaleView(d, s, m);
    }
  }

  lemma FreshView(d: Disk, s: nat, m: nat)
    requires WellFormed(d) && Coherent(d) && (d.cache == NoCache || s >= 8)
    ensures Coherent(Free(d, s, m))
  {
    var f := Free(d, s, m);
    if d.cache.FirstByte? {
      forall i | 0 <= i < |d.used| ensures Effective(f)[i] == f.used[i] {
        assert Effective(d)[i] == d.used[i];
      }
    }
  }

  lemma RoomIfFresh(d: Disk, s: nat, m: nat)
    requires WellFormed(d) && s < |d.used| && (d.cache == NoCache || s >= 8)
    ensures forall r: nat | r <= s :: Clear(Free(d, s, m).used, r, m) <==> RoomAt(d, s, m, r)
  {
    var f := Free(d, s, m);
    forall r: nat | r <= s ensures Clear(f.used, r, m) <==> RoomAt(d, s, m, r) {
      assert forall i {:trigger f.used[i]} | 0 <= i < |d.used| :: f.used[i] == (d.used[i] && !(s <= i < s + m));
      if Clear(f.used, r, m) {
        forall i | r <= i < s && i < r + m ensures !d.used[i] {
          assert !f.used[i];
        }
      }
    }
  }

  /** With a stale view the bit at s still reads as used, so that only room that was clear before can be found at or below it. */
  lemma ResyncWithStaleView(d: Disk, s: nat, m: nat)
    requires WellFormed(d) && Coherent(d) && m > 0 && s < |d.used| && d.used[s]
    requires d.cache != NoCache && s < 8
    ensures 0 <= Resync(d, s, m).1 <= s <==> exists r :: RoomAt(d, s, m, r)
    ensures 0 <= Resync(d, s, m).1 <= s <==> exists r :: r < s && Clear(d.used, r, m)
  {
    var f := Free(d, s, m);
    var e, r := Effective(f), Resync(d, s, m).1;
    assert forall i {:trigger e[i]} | 0 <= i < s :: e[i] == d.used[i] by {
      assert forall i | 0 <= i < s :: e[i] == d.cache.bits[i] == Effective(d)[i];
    }
    assert e[s] == d.cache.bits[s] == Effective(d)[s];
    if 0 <= r <= s {
      assert Clear(e, r, m);
      assert r + m <= s;
      assert Clear(d.used, r, m);
    }
    if q :| q < s && Clear(d.used, q, m) {
      assert d.used[s];
      assert q + m <= s;
      assert RoomAt(d, s, m, q);
    }
    if q: nat :| RoomAt(d, s, m, q) {
      assert q + m <= s && Clear(d.used, q, m);
      assert Clear(e, q, m);
    }
  }

  /** On a full disk such a re-sync reports that there is no space. */
  lemma ResyncCanFail()
    ensures var d := Disk([true], FirstByte([true]));
      WellFormed(d) && Coherent(d) && Full(d.used, 0, 1) && Resync(d, 0, 1).1 == -1
  {
    var d := Disk([true], FirstByte([true]));
    var f := Free(d, 0, 1);
    assert Effective(d) == [true] && Effective(f) == [true];
    assert Effective(f)[0];
  }

  // ----- Runs -----

  datatype Extent = Extent(s: nat, n: nat)

  /** The disk, and the extents that were handed out and not freed. One that is handed out twice is in the multiset twice. */
  datatype State = State(disk: Disk, live: multiset<Extent>)

  datatype Op = AllocOp(n: nat) | FreeOp(e: Extent)

  ghost function Step(st: State, op: Op): State
    requires WellFormed(st.disk)
  {
    match op
    case AllocOp(n) =>
      var (d, s) := Alloc(st.disk, n);
      State(d, if s == -1 then st.live else st.live + multiset{Extent(s, n)})
    case FreeOp(e) =>
      if e in st.live then State(Free(st.disk, e.s, e.n), st.live - multiset{e}) else st
  }

  ghost predicate Covers(live: multiset<Extent>, e: Extent, i: int) { e in live && e.s <= i < e.s + e.n }

  ghost predicate Owned(live: multiset<Extent>, i: int) { exists e :: Covers(live, e, i) }

  ghost predicate Disjoint(e: Extent, f: Extent) { e.s + e.n <= f.s || f.s + f.n <= e.s }

  /** Live extents are non-empty, on the disk, handed out once and pairwise disjoint, and the bitmap is their union. */
  ghost predicate Inv(st: State) {
    && WellFormed(st.disk)
    && (forall e {:trigger st.live[e]} | e in st.live :: st.live[e] == 1 && 0 < e.n && e.s + e.n <= |st.disk.used|)
    && (forall e, f {:trigger st.live[e], st.live[f]} | e in st.live && f in st.live && e != f :: Disjoint(e, f))
    && (forall i {:trigger st.disk.used[i]} | 0 <= i < |st.disk.used| :: st.disk.used[i] <==> Owned(st.live, i))
  }

  lemma FormattedInv(blocks: nat)
    ensures Inv(State(Disk(seq(blocks, _ => false), NoCache), multiset{}))
  {
  }

  lemma FullInv(blocks: nat)
    requires blocks > 0
    ensures Inv(State(Disk(seq(blocks, _ => true), NoCache), multiset{Extent(0, blocks)}))
  {
    var e, live := Extent(0, blocks), multiset{Extent(0, blocks)};
    var st := State(Disk(seq(blocks, _ => true), NoCache), live);
    assert forall f :: live[f] == if f == e then 1 else 0;
    forall i | 0 <= i < blocks ensures st.disk.used[i] <==> Owned(live, i) {
      assert Covers(live, e, i);
    }
  }

  lemma ClearIsFree(st: State, s: nat, n: nat, e: Extent)
    requires Inv(st) && Clear(st.disk.used, s, n) && n > 0 && e in st.live
    ensures Disjoint(Extent(s, n), e) && e != Extent(s, n)
  {
    var i := if e.s <= s then s else e.s;
    assert Disjoint(Extent(s, n), e) || !st.disk.used[i];
    assert Covers(st.live, e, i) ==> Owned(st.live, i);
  }

  /** A new extent is disjoint from all that are live, if no block in use reads as free. */
  lemma AllocInv(st: State, n: nat)
    requires Inv(st) && Trusted(st.disk)
    ensures Inv(Step(st, AllocOp(n)))
    ensures |Step(st, AllocOp(n)).live| == |st.live| + if Alloc(st.disk, n).1 == -1 then 0 else 1
    ensures Alloc(st.disk, n).1 != -1 ==> forall e | e in st.live :: Disjoint(Extent(Alloc(st.disk, n).1, n), e)
    ensures Step(st, AllocOp(n)).disk == Alloc(st.disk, n).0
  {
    hide Alloc, Effective, AfterScan, Fill, Disjoint, Trusted;
    var (d, s) := Alloc(st.disk, n);
    if s == -1 {
      NoneTaken(st.disk, n);
    } else {
      AllocTakesClear(st.disk, n);
      var x := Extent(s, n);
      forall e | e in st.live ensures e != x && Disjoint(x, e) && Disjoint(e, x) {
        ClearIsFree(st, s, n, e);
        DisjointBothWays(x, e);
      }
      var live := st.live + multiset{x};
      assert forall e, i :: Covers(live, e, i) <==> (e == x && s <= i < s + n) || Covers(st.live, e, i);
      forall i | 0 <= i < |d.used| ensures d.used[i] <==> Owned(live, i) {
        assert d.used[i] == (s <= i < s + n || st.disk.used[i]);
        assert s <= i < s + n ==> Covers(live, x, i);
      }
    }
  }

  lemma NoneTaken(d: Disk, n: nat)
    requires WellFormed(d) && Alloc(d, n).1 == -1
    ensures Alloc(d, n).0.used == d.used
  {
  }

  lemma DisjointBothWays(e: Extent, f: Extent)
    ensures Disjoint(e, f) == Disjoint(f, e)
  {
  }

  lemma FreeOwned(st: State, e: Extent, i: nat)
    requires Inv(st) && e in st.live && i < |st.disk.used|
    ensures Owned(st.live - multiset{e}, i) <==> st.disk.used[i] && !(e.s <= i < e.s + e.n)
  {
    var live := st.live - multiset{e};
    if Owned(live, i) {
      var f :| Covers(live, f, i);
      assert f in st.live && f != e;
      assert Covers(st.live, f, i) && Disjoint(e, f);
    } else if Owned(st.live, i) {
      var f :| Covers(st.live, f, i);
      assert f != e ==> Covers(live, f, i);
    }
  }

  lemma FreeInv(st: State, e: Extent)
    requires Inv(st)
    ensures Inv(Step(st, FreeOp(e)))
    ensures Step(st, FreeOp(e)) == if e in st.live then State(Free(st.disk, e.s, e.n), st.live - multiset{e}) else st
  {
    hide Fill, Owned, Disjoint;
    if e in st.live {
      var d, live := Free(st.disk, e.s, e.n), st.live - multiset{e};
      assert forall f :: live[f] == if f == e then 0 else st.live[f];
      forall i | 0 <= i < |d.used| ensures d.used[i] <==> Owned(live, i) {
        FreeOwned(st, e, i);
      }
    }
  }

  /** Two requests of the same size keep the extents disjoint exactly if no such run lies in the first byte. */
  lemma TwoAllocsInv(st: State, n: nat)
    requires Inv(st) && Coherent(st.disk) && n > 0
    ensures Inv(Step(Step(st, AllocOp(n)), AllocOp(n))) <==> !RunInFirstByte(st.disk.used, n)
  {
    hide Alloc, Coherent, Effective;
    CoherentAfterAlloc(st.disk, n);
    CoherentIsTrusted(st.disk);
    AllocInv(st, n);
    var st' := Step(st, AllocOp(n));
    if RunInFirstByte(st.disk.used, n) {
      RunHandedOutTwice(st.disk, n);
      var x := Extent(Alloc(st.disk, n).1, n);
      assert Step(st', AllocOp(n)).live == st.live + multiset{x} + multiset{x};
      assert Step(st', AllocOp(n)).live[x] >= 2;
    } else {
      CoherentIsTrusted(st'.disk);
      AllocInv(st', n);
    }
  }

  // ----- Files that grow or shrink -----

  /** Re-syncing the file that has extent e, when it has m blocks. If that fails it has none. */
  ghost function ResyncState(st: State, e: Extent, m: nat): State
    requires WellFormed(st.disk)
  {
    Step(State(Free(st.disk, e.s, m), st.live - multiset{e}), AllocOp(m))
  }

  /** The freed length is the new one: everything stays in order exactly if the file did not shrink and the blocks that it grew
      over, as far as they exist, were free. */
  lemma ResyncKeepsInv(st: State, e: Extent, m: nat)
    requires Inv(st) && Trusted(st.disk) && e in st.live && m > 0
    ensures Inv(ResyncState(st, e, m)) <==> e.n <= m && forall i | e.s + e.n <= i < e.s + m && i < |st.disk.used| :: !st.disk.used[i]
  {
    hide Inv, Trusted, Alloc, Fill, Step;
    FreedBits(st, e, m);
    var f := State(Free(st.disk, e.s, m), st.live - multiset{e});
    TrustedAfterFree(st.disk, e.s, m);
    if e.n <= m && forall i | e.s + e.n <= i < e.s + m && i < |st.disk.used| :: !st.disk.used[i] {
      SameFree(st, e, m);
      FreeInv(st, e);
      AllocInv(f, m);
    } else if m < e.n {
      var i := e.s + m;
      FreeOwned(st, e, i);
      OwnedIsUsed(st, i);
      assert Covers(st.live, e, i) && Owned(st.live, i);
      StaysLost(f, i, m);
    } else {
      var i :| e.s + e.n <= i < e.s + m && i < |st.disk.used| && st.disk.used[i];
      FreeOwned(st, e, i);
      StaysTorn(f, i, m);
    }
  }

  lemma TwoNeighbours()
    ensures Inv(State(Disk([true, true], NoCache), multiset{Extent(0, 1), Extent(1, 1)}))
  {
    var e, g := Extent(0, 1), Extent(1, 1);
    var live := multiset{e, g};
    assert forall f :: live[f] == if f == e || f == g then 1 else 0;
    assert Covers(live, e, 0) && Covers(live, g, 1);
  }

  /** A file of one block that has grown to two takes the block of its neighbour. */
  lemma GrownOverNeighbour()
    ensures var st := State(Disk([true, true], NoCache), multiset{Extent(0, 1), Extent(1, 1)});
      Inv(st) && !Inv(ResyncState(st, Extent(0, 1), 2))
  {
    hide Inv, Alloc, Free, Step;
    var st := State(Disk([true, true], NoCache), multiset{Extent(0, 1), Extent(1, 1)});
    TwoNeighbours();
    CoherentIsTrusted(st.disk);
    ResyncKeepsInv(st, Extent(0, 1), 2);
    assert st.disk.used[1];
  }

  lemma OwnedIsUsed(st: State, i: nat)
    requires Inv(st) && i < |st.disk.used|
    ensures st.disk.used[i] <==> Owned(st.live, i)
  {
  }

  lemma FreedBits(st: State, e: Extent, m: nat)
    requires Inv(st) && e in st.live
    ensures WellFormed(st.disk) && e.s < |st.disk.used| && e.n > 0 && e.s + e.n <= |st.disk.used|
    ensures var f := Free(st.disk, e.s, m);
      |f.used| == |st.disk.used| && forall i {:trigger f.used[i]} | 0 <= i < |f.used| :: f.used[i] == (st.disk.used[i] && !(e.s <= i < e.s + m))
  {
  }

  lemma SameFree(st: State, e: Extent, m: nat)
    requires Inv(st) && e in st.live && e.n <= m
    requires forall i | e.s + e.n <= i < e.s + m && i < |st.disk.used| :: !st.disk.used[i]
    ensures State(Free(st.disk, e.s, m), st.live - multiset{e}) == Step(st, FreeOp(e))
  {
    hide Fill, Inv;
    FreedBits(st, e, m);
    FreedBits(st, e, e.n);
    assert Free(st.disk, e.s, m).used == Free(st.disk, e.s, e.n).used;
  }

  /** A block in use that no file has stays so. */
  lemma StaysLost(f: State, i: nat, m: nat)
    requires WellFormed(f.disk) && Trusted(f.disk) && i < |f.disk.used| && f.disk.used[i] && !Owned(f.live, i)
    ensures !Inv(Step(f, AllocOp(m)))
  {
    hide Alloc, Effective, Fill, Trusted;
    var (d, s) := Alloc(f.disk, m);
    if s == -1 {
      NoneTaken(f.disk, m);
    } else {
      AllocTakesClear(f.disk, m);
      var live := f.live + multiset{Extent(s, m)};
      assert d.used[i];
      forall g ensures !Covers(live, g, i) {
        assert !Covers(f.live, g, i);
      }
    }
  }

  /** A free block that some file has stays free, or a second file gets it. */
  lemma StaysTorn(f: State, i: nat, m: nat)
    requires WellFormed(f.disk) && Trusted(f.disk) && i < |f.disk.used| && !f.disk.used[i] && Owned(f.live, i)
    ensures !Inv(Step(f, AllocOp(m)))
  {
    hide Alloc, Effective, Fill, Trusted;
    var g :| Covers(f.live, g, i);
    var (d, s) := Alloc(f.disk, m);
    if s == -1 {
      NoneTaken(f.disk, m);
    } else {
      AllocTakesClear(f.disk, m);
      var x, live := Extent(s, m), f.live + multiset{Extent(s, m)};
      assert Covers(live, g, i);
      if s <= i < s + m {
        assert x == g ==> live[x] >= 2;
        assert x in live && g in live && !Disjoint(x, g);
      } else {
        assert !d.used[i];
      }
    }
  }
}
