// All mounted DFS partitions: each has its bitmap, but they share the one scan cache, and their bitmaps start at the same offset.
module DfsMounts {
  import opened DfsBitmap

  datatype Mount = Mount(used: seq<bool>, live: multiset<Extent>)

  datatype System = System(mounts: seq<Mount>, cache: Cache)

  /** The cached byte holds as many blocks for every partition: any number for a single one, eight if there are more. */
  ghost predicate SystemOk(sys: System) {
    && (|sys.mounts| > 1 ==> forall k {:trigger sys.mounts[k]} | 0 <= k < |sys.mounts| :: |sys.mounts[k].used| >= 8)
    && (forall k {:trigger sys.mounts[k]} | 0 <= k < |sys.mounts| :: WellFormed(Disk(sys.mounts[k].used, sys.cache)))
  }

  /** Partition k as its own operations see it. */
  ghost function View(sys: System, k: nat): (st: State)
    requires SystemOk(sys) && k < |sys.mounts|
    ensures WellFormed(st.disk)
  {
    State(Disk(sys.mounts[k].used, sys.cache), sys.mounts[k].live)
  }

  datatype Action = Action(mount: nat, op: Op)

  ghost function Act(sys: System, a: Action): (r: System)
    requires SystemOk(sys)
    ensures SystemOk(r) && |r.mounts| == |sys.mounts|
  {
    if a.mount >= |sys.mounts| then sys
    else
      StepSizes(View(sys, a.mount), a.op);
      var st := Step(View(sys, a.mount), a.op);
      System(sys.mounts[a.mount := Mount(st.disk.used, st.live)], st.disk.cache)
  }

  lemma StepSizes(st: State, op: Op)
    requires WellFormed(st.disk)
    ensures WellFormed(Step(st, op).disk) && |Step(st, op).disk.used| == |st.disk.used|
  {
    hide AfterScan, Fill, Effective, FirstRun;
    if op.AllocOp? {
      var r := Alloc(st.disk, op.n);
      assert |r.0.used| == |st.disk.used|;
    }
  }

  /** Every partition is in order. */
  ghost predicate AllInv(sys: System)
    requires SystemOk(sys)
  {
    forall k {:trigger sys.mounts[k]} | 0 <= k < |sys.mounts| :: Inv(View(sys, k))
  }

  /** The invariant of a partition does not depend on the cache. */
  lemma InvOfCache(st: State, cache: Cache)
    requires Inv(st) && WellFormed(Disk(st.disk.used, cache))
    ensures Inv(State(Disk(st.disk.used, cache), st.live))
  {
  }

  lemma ActInv(sys: System, a: Action)
    requires SystemOk(sys) && AllInv(sys)
    requires a.mount < |sys.mounts| && a.op.AllocOp? ==> Trusted(View(sys, a.mount).disk)
    ensures AllInv(Act(sys, a))
    ensures a.mount < |sys.mounts| ==> View(Act(sys, a), a.mount) == Step(View(sys, a.mount), a.op)
    ensures forall k {:trigger Act(sys, a).mounts[k]} | 0 <= k < |sys.mounts| && k != a.mount :: Act(sys, a).mounts[k] == sys.mounts[k]
  {
    hide Inv, Trusted, Alloc, Free;
    var r := Act(sys, a);
    if a.mount < |sys.mounts| {
      var st := View(sys, a.mount);
      assert Inv(st) by { assert sys.mounts[a.mount] == sys.mounts[a.mount]; }
      match a.op {
        case AllocOp(n) => AllocInv(st, n);
        case FreeOp(e) => FreeInv(st, e);
      }
      forall k | 0 <= k < |r.mounts| ensures Inv(View(r, k)) {
        if k != a.mount {
          assert r.mounts[k] == sys.mounts[k];
          InvOfCache(View(sys, k), r.cache);
        }
      }
    }
  }

  ghost function Run(sys: System, actions: seq<Action>): (r: System)
    requires SystemOk(sys)
    ensures SystemOk(r) && |r.mounts| == |sys.mounts|
    decreases |actions|
  {
    if actions == [] then sys else Run(Act(sys, actions[0]), actions[1..])
  }

  /** In every allocation of the run, no block in use on its partition reads as free. */
  ghost predicate TrustedRun(sys: System, actions: seq<Action>)
    requires SystemOk(sys)
    decreases |actions|
  {
    actions == [] ||
    (var a := actions[0];
     (a.mount < |sys.mounts| && a.op.AllocOp? ==> Trusted(View(sys, a.mount).disk)) && TrustedRun(Act(sys, a), actions[1..]))
  }

  /** Over any such run the live extents of every partition stay disjoint and its bitmap stays exactly their union. */
  lemma {:induction false} RunKeepsInv(sys: System, actions: seq<Action>)
    requires SystemOk(sys) && AllInv(sys) && TrustedRun(sys, actions)
    ensures AllInv(Run(sys, actions))
    decreases |actions|
  {
    if actions != [] {
      hide AllInv, Trusted, Act;
      ActInv(sys, actions[0]);
      RunKeepsInv(Act(sys, actions[0]), actions[1..]);
    }
  }

  /** A free, on whichever partition, never makes a block in use read as free, nor does an allocation that fails or that saw no
      such run in the first byte of its own partition. */
  lemma ActKeepsTrust(sys: System, a: Action, k: nat)
    requires SystemOk(sys) && k < |sys.mounts| && Trusted(View(sys, k).disk)
    requires a.mount < |sys.mounts| && |sys.mounts[a.mount].used| > 8
    requires a.op.AllocOp? && a.op.n > 0 ==> !RunInFirstByte(Effective(View(sys, a.mount).disk), a.op.n)
    ensures Trusted(View(Act(sys, a), k).disk)
  {
    hide FirstRun, Fill;
    var d := View(sys, a.mount).disk;
    match a.op
    case AllocOp(n) =>
      if k == a.mount {
        TrustedAfterAlloc(d, n);
      } else if n > 0 && n <= |d.used| {
        CacheAfterLaterRun(d, n);
      }
    case FreeOp(e) =>
      if k == a.mount {
        TrustedAfterFree(d, e.s, e.n);
      }
  }

  lemma CacheAfterLaterRun(d: Disk, n: nat)
    requires WellFormed(d) && |d.used| > 8 && 0 < n <= |d.used| && !RunInFirstByte(Effective(d), n)
    ensures Alloc(d, n).0.cache == NoCache
  {
    hide FirstRun, Fill;
  }

  /** What an allocation on partition j leaves in the cache agrees with another partition k exactly if the scan left the first
      byte behind, or the two partitions agreed in their first byte. */
  lemma OtherMountCoherent(sys: System, j: nat, k: nat, n: nat)
    requires SystemOk(sys) && j < |sys.mounts| && k < |sys.mounts| && j != k && n > 0
    requires |sys.mounts[j].used| > 8 && Coherent(View(sys, j).disk) && Coherent(View(sys, k).disk)
    ensures Coherent(View(Act(sys, Action(j, AllocOp(n))), k).disk)
      <==> !RunInFirstByte(sys.mounts[j].used, n) || sys.mounts[j].used[..8] == sys.mounts[k].used[..8]
  {
    hide Coherent, FirstRun, Fill;
    var d, other := View(sys, j).disk, sys.mounts[k].used;
    var cache := Alloc(d, n).0.cache;
    if n <= |d.used| {
      CacheAfterAlloc(d, n);
    } else {
      ClearFits(d.used, n);
      assert cache == sys.cache;
    }
    assert View(Act(sys, Action(j, AllocOp(n))), k).disk == Disk(other, cache);
    CoherentWith(other, cache);
  }

  lemma CoherentWith(used: seq<bool>, cache: Cache)
    requires |used| >= 8 && (cache.FirstByte? ==> |cache.bits| == 8)
    ensures Coherent(Disk(used, cache)) <==> cache == NoCache || cache.bits == used[..8]
  {
    if cache.FirstByte? {
      var e := Effective(Disk(used, cache));
      assert e[..8] == cache.bits;
      if cache.bits == used[..8] {
        assert e == used;
      }
    }
  }

  lemma CacheAfterAlloc(d: Disk, n: nat)
    requires WellFormed(d) && Coherent(d) && |d.used| > 8 && 0 < n <= |d.used|
    ensures Alloc(d, n).0.cache == if RunInFirstByte(d.used, n) then FirstByte(d.used[..8]) else NoCache
  {
    hide FirstRun, Fill;
    AllocTakesLowest(d, n);
    var s := Alloc(d, n).1;
    if s != -1 && s + n <= 8 {
      assert RunInFirstByte(d.used, n);
    }
  }

  // ----- When the cache cannot matter -----

  /** On every partition the first eight blocks are in use, and read as used. */
  ghost predicate Settled(sys: System)
    requires SystemOk(sys)
  {
    forall k {:trigger sys.mounts[k]} | 0 <= k < |sys.mounts| :: SettledDisk(View(sys, k).disk)
  }

  ghost predicate SettledDisk(d: Disk)
    requires WellFormed(d)
  {
    Full(d.used, 0, 8) && Full(Effective(d), 0, 8)
  }

  ghost predicate FreesAboveEight(actions: seq<Action>) {
    forall i {:trigger actions[i]} | 0 <= i < |actions| && actions[i].op.FreeOp? :: actions[i].op.e.s >= 8
  }

  ghost predicate OverEight(sys: System) { forall k {:trigger sys.mounts[k]} | 0 <= k < |sys.mounts| :: |sys.mounts[k].used| > 8 }

  /** Every run that leaves the extents in the first eight blocks alone keeps every partition in order, exactly if the first eight
      blocks of all of them are in use and read as used. */
  lemma SettledExactly(sys: System)
    requires SystemOk(sys) && AllInv(sys) && OverEight(sys)
    ensures (forall actions | FreesAboveEight(actions) :: AllInv(Run(sys, actions))) <==> Settled(sys)
  {
    hide AllInv, Run;
    if Settled(sys) {
      forall actions | FreesAboveEight(actions) ensures AllInv(Run(sys, actions)) {
        SettledRun(sys, actions);
      }
    } else {
      var k :| 0 <= k < |sys.mounts| && !SettledDisk(View(sys, k).disk);
      BreakingRun(sys, k);
      assert FreesAboveEight(Ones(k, 2)) && FreesAboveEight(Ones(k, 3));
    }
  }

  /** For a cache that agrees with every partition, this is a condition on the bitmaps alone. */
  lemma SettledIfCoherent(sys: System)
    requires SystemOk(sys) && forall k {:trigger sys.mounts[k]} | 0 <= k < |sys.mounts| :: Coherent(View(sys, k).disk)
    ensures Settled(sys) <==> forall k {:trigger sys.mounts[k]} | 0 <= k < |sys.mounts| :: Full(sys.mounts[k].used, 0, 8)
  {
    hide Coherent, Full;
    forall k | 0 <= k < |sys.mounts| ensures SettledDisk(View(sys, k).disk) <==> Full(sys.mounts[k].used, 0, 8) {
      assert sys.mounts[k] == sys.mounts[k];
      assert Effective(View(sys, k).disk) == sys.mounts[k].used by { CoherentView(View(sys, k).disk); }
    }
  }

  lemma CoherentView(d: Disk)
    requires WellFormed(d) && Coherent(d)
    ensures Effective(d) == d.used
  {
  }

  lemma {:induction false} SettledRun(sys: System, actions: seq<Action>)
    requires SystemOk(sys) && AllInv(sys) && OverEight(sys) && Settled(sys) && FreesAboveEight(actions)
    ensures AllInv(Run(sys, actions))
    decreases |actions|
  {
    if actions != [] {
      hide AllInv, Trusted, Settled, Act, OverEight;
      SettledAct(sys, actions[0]);
      ActInv(sys, actions[0]);
      SettledRun(Act(sys, actions[0]), actions[1..]);
    }
  }

  lemma SettledAct(sys: System, a: Action)
    requires SystemOk(sys) && AllInv(sys) && OverEight(sys) && Settled(sys) && (a.op.FreeOp? ==> a.op.e.s >= 8)
    ensures a.mount < |sys.mounts| ==> Trusted(View(sys, a.mount).disk)
    ensures Settled(Act(sys, a)) && OverEight(Act(sys, a))
  {
    hide Inv, Step, SettledDisk, Trusted;
    if a.mount < |sys.mounts| {
      var st, r := View(sys, a.mount), Act(sys, a);
      assert Inv(st) && SettledDisk(st.disk) by { assert sys.mounts[a.mount] == sys.mounts[a.mount]; }
      SettledStep(st, a.op);
      StepSizes(st, a.op);
      forall k | 0 <= k < |r.mounts| ensures SettledDisk(View(r, k).disk) {
        if k != a.mount {
          assert r.mounts[k] == sys.mounts[k];
          SettledWith(sys.mounts[k].used, sys.cache, r.cache);
        }
      }
    }
  }

  lemma SettledWith(used: seq<bool>, cache: Cache, cache': Cache)
    requires WellFormed(Disk(used, cache)) && SettledDisk(Disk(used, cache)) && (cache' == cache || cache' == NoCache)
    ensures SettledDisk(Disk(used, cache'))
  {
  }

  /** The scan never stops in the first byte. */
  lemma SettledStep(st: State, op: Op)
    requires WellFormed(st.disk) && SettledDisk(st.disk) && |st.disk.used| > 8 && (op.FreeOp? ==> op.e.s >= 8)
    ensures Trusted(st.disk)
    ensures var d := Step(st, op).disk; WellFormed(d) && SettledDisk(d) && (d.cache == st.disk.cache || d.cache == NoCache)
  {
    hide SettledDisk, Alloc, Free;
    assert Trusted(st.disk) by { SettledIsTrusted(st.disk); }
    match op
    case AllocOp(n) => SettledAlloc(st.disk, n);
    case FreeOp(e) => SettledFree(st.disk, e.s, e.n);
  }

  lemma SettledIsTrusted(d: Disk)
    requires WellFormed(d) && SettledDisk(d)
    ensures Trusted(d)
  {
  }

  lemma SettledAlloc(d: Disk, n: nat)
    requires WellFormed(d) && SettledDisk(d) && |d.used| > 8
    ensures var r := Alloc(d, n).0; SettledDisk(r) && (r.cache == d.cache || r.cache == NoCache)
  {
    hide FirstRun, Fill;
    var s := Alloc(d, n).1;
    assert s != -1 ==> Clear(Effective(d), s, n) && !Effective(d)[s];
    var r := Alloc(d, n).0;
    assert forall i | 0 <= i < 8 :: r.used[i];
  }

  lemma SettledFree(d: Disk, s: nat, n: nat)
    requires WellFormed(d) && SettledDisk(d) && |d.used| > 8 && s >= 8
    ensures SettledDisk(Free(d, s, n)) && Free(d, s, n).cache == d.cache
  {
    hide Fill;
    var r := Free(d, s, n);
    assert forall i | 0 <= i < 8 :: r.used[i] && Effective(r)[i] == Effective(d)[i];
  }

  ghost function Ones(k: nat, n: nat): seq<Action> { seq(n, _ => Action(k, AllocOp(1))) }

  /** Otherwise two or three requests for one block of the partition break it. */
  lemma BreakingRun(sys: System, k: nat)
    requires SystemOk(sys) && k < |sys.mounts| && |sys.mounts[k].used| > 8 && !SettledDisk(View(sys, k).disk)
    ensures !AllInv(Run(sys, Ones(k, 2))) || !AllInv(Run(sys, Ones(k, 3)))
  {
    hide Inv, Step, SettledDisk, AllInv;
    var a := Action(k, AllocOp(1));
    var one := Act(sys, a);
    var two := Act(one, a);
    var three := Act(two, a);
    RunOfOnes(sys, k);
    ActView(sys, k);
    ActView(one, k);
    ActView(two, k);
    OnesBreak(View(sys, k));
    AllInvAt(two, k);
    AllInvAt(three, k);
  }

  lemma AllInvAt(sys: System, k: nat)
    requires SystemOk(sys) && k < |sys.mounts|
    ensures AllInv(sys) ==> Inv(View(sys, k))
  {
    assert sys.mounts[k] == sys.mounts[k];
  }

  lemma ActView(sys: System, k: nat)
    requires SystemOk(sys) && k < |sys.mounts|
    ensures View(Act(sys, Action(k, AllocOp(1))), k) == Step(View(sys, k), AllocOp(1))
  {
    hide Step;
    StepSizes(View(sys, k), AllocOp(1));
  }

  lemma RunOfOnes(sys: System, k: nat)
    requires SystemOk(sys)
    ensures var a := Action(k, AllocOp(1));
      Run(sys, Ones(k, 2)) == Act(Act(sys, a), a) && Run(sys, Ones(k, 3)) == Act(Act(Act(sys, a), a), a)
  {
    hide *;
    var a := Action(k, AllocOp(1));
    RunStep(sys, k, 1);
    RunStep(sys, k, 2);
    RunStep(Act(sys, a), k, 0);
    RunStep(Act(sys, a), k, 1);
    RunStep(Act(Act(sys, a), a), k, 0);
    RunNothing(Act(Act(sys, a), a), k);
    RunNothing(Act(Act(Act(sys, a), a), a), k);
  }

  lemma RunStep(sys: System, k: nat, n: nat)
    requires SystemOk(sys)
    ensures Run(sys, Ones(k, n + 1)) == Run(Act(sys, Action(k, AllocOp(1))), Ones(k, n))
  {
    assert Ones(k, n + 1)[1..] == Ones(k, n);
  }

  lemma RunNothing(sys: System, k: nat)
    requires SystemOk(sys)
    ensures Run(sys, Ones(k, 0)) == sys
  {
  }

  ghost function One(st: State): State
    requires WellFormed(st.disk)
  {
    Step(st, AllocOp(1))
  }

  lemma OnesBreak(st: State)
    requires WellFormed(st.disk) && |st.disk.used| > 8 && !SettledDisk(st.disk)
    ensures WellFormed(One(st).disk) && WellFormed(One(One(st)).disk) && (!Inv(One(One(st))) || !Inv(One(One(One(st)))))
  {
    hide Inv, Step;
    StepSizes(st, AllocOp(1));
    StepSizes(One(st), AllocOp(1));
    if Full(Effective(st.disk), 0, 8) {
      FreshByte(st);
      SeenTwice(One(st));
    } else {
      SeenTwice(st);
    }
  }

  /** A block of the first byte that reads as free is handed out to both of two requests. */
  lemma SeenTwice(st: State)
    requires WellFormed(st.disk) && |st.disk.used| > 8 && !Full(Effective(st.disk), 0, 8)
    ensures WellFormed(One(st).disk) && !Inv(One(One(st)))
  {
    hide Fill;
    var e := Effective(st.disk);
    var i :| 0 <= i < 8 && !e[i];
    assert Clear(e, i, 1);
    var s := Alloc(st.disk, 1).1;
    var d := One(st).disk;
    assert d.cache == FirstByte(e[..8]);
    assert Effective(d)[..8] == e[..8];
    assert Clear(Effective(d), s, 1) by { assert Effective(d)[s] == e[s]; }
    assert forall j {:trigger Clear(Effective(d), j, 1)} | 0 <= j < s :: !Clear(Effective(d), j, 1) by {
      forall j | 0 <= j < s ensures !Clear(Effective(d), j, 1) {
        assert !Clear(e, j, 1);
        assert Effective(d)[j] == e[j];
      }
    }
    assert Alloc(d, 1).1 == s;
    var x := Extent(s, 1);
    assert One(One(st)).live == st.live + multiset{x} + multiset{x};
    assert One(One(st)).live[x] >= 2;
  }

  /** Where the whole first byte reads as used, a request leaves nothing cached and the byte as it is. */
  lemma FreshByte(st: State)
    requires WellFormed(st.disk) && |st.disk.used| > 8 && Full(Effective(st.disk), 0, 8) && !Full(st.disk.used, 0, 8)
    ensures var d := One(st).disk; WellFormed(d) && |d.used| > 8 && !Full(Effective(d), 0, 8)
  {
    hide Fill, FirstRun;
    var i :| 0 <= i < 8 && !st.disk.used[i];
    var s := Alloc(st.disk, 1).1;
    assert s != -1 ==> Clear(Effective(st.disk), s, 1) && !Effective(st.disk)[s];
    assert One(st).disk.cache == NoCache;
    assert !One(st).disk.used[i];
  }

  /** The bitmaps alone do not settle it: on a fresh partition of nine blocks a request for eight fills the first byte, and a
      second one gets the same eight, because they still read as free. */
  lemma FilledButNotSettled()
    ensures var st := State(Disk(seq(9, _ => false), NoCache), multiset{});
      && Inv(st) && Full(Step(st, AllocOp(8)).disk.used, 0, 8) && !Inv(Step(Step(st, AllocOp(8)), AllocOp(8)))
  {
    hide Inv, FirstRun, Fill;
    var d := Disk(seq(9, _ => false), NoCache);
    var st := State(d, multiset{});
    FormattedInv(9);
    NotCached(d);
    assert Clear(d.used, 0, 8) && RunInFirstByte(d.used, 8);
    TwoAllocsInv(st, 8);
  }

  /** One settled partition is not enough: a scan that stops in the first byte of another one makes it hand out block 0 again. */
  lemma ForeignByte()
    ensures var full := seq(9, _ => true);
      var sys := System([Mount(full, multiset{Extent(0, 9)}), Mount(seq(9, _ => false), multiset{})], NoCache);
      && SystemOk(sys) && AllInv(sys) && Full(full, 0, 8)
      && Alloc(View(Act(sys, Action(1, AllocOp(1))), 0).disk, 1).1 == 0
  {
    hide Inv, Coherent, FirstRun, Fill;
    var full, empty := seq(9, _ => true), seq(9, _ => false);
    var live := multiset{Extent(0, 9)};
    var sys := System([Mount(full, live), Mount(empty, multiset{})], NoCache);
    FullInv(9);
    FormattedInv(9);
    assert Inv(View(sys, 0)) && Inv(View(sys, 1));
    var d := View(sys, 1).disk;
    assert Coherent(d) by { NotCached(d); }
    assert Clear(d.used, 0, 1) && RunInFirstByte(d.used, 1);
    CacheAfterAlloc(d, 1);
    var r := Act(sys, Action(1, AllocOp(1)));
    FirstIsClear(View(r, 0).disk);
  }

  lemma NotCached(d: Disk)
    requires d.cache == NoCache
    ensures Coherent(d)
  {
  }

  lemma FirstIsClear(d: Disk)
    requires WellFormed(d) && |d.used| > 8 && d.cache.FirstByte? && !d.cache.bits[0]
    ensures Alloc(d, 1).1 == 0
  {
    assert Clear(Effective(d), 0, 1);
  }
}
