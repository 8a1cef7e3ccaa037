// dfs.c: allocating, freeing and re-syncing the data blocks of a file through the bitmap on disk.
module DfsBlocks {
  import opened Common
  import opened DfsBitmap

  const BLOCK: nat := 1024            // DFS_BLOCK_SIZE
  const SUPERBLOCK_SIZE: nat := 536   // seven words and 508 reserved bytes
  const DIRTY: int := 2               // RAMFS_TYPE_DIRTY
  const CLEAN: int := 1               // RAMFS_FOLDER_TYPE_DISK_CLEAN, and also RAMFS_TYPE_NEW

  // ----- Bits -----

  /** 1 << k */
  function Mask(k: nat): byte
    requires k < 8
  {
    match k
    case 0 => 1 case 1 => 2 case 2 => 4 case 3 => 8
    case 4 => 16 case 5 => 32 case 6 => 64 case 7 => 128
  }

  predicate Bit(b: byte, k: nat)
    requires k < 8
  {
    b & Mask(k) != 0
  }

  /** Bits are counted from the low end. */
  lemma BitIs(b: byte, k: nat)
    requires k < 8
    ensures Bit(b, k) <==> (b >> k) & 1 == 1
  {
  }

  lemma SetBit(b: byte, k: nat, j: nat)
    requires k < 8 && j < 8
    ensures Bit(b | Mask(k), j) == (j == k || Bit(b, j))
  {
  }

  lemma ClearBit(b: byte, k: nat, j: nat)
    requires k < 8 && j < 8
    ensures Bit(b & !Mask(k), j) == (j != k && Bit(b, j))
  {
  }

  /** b |= 1 << m, or b &= ~(1 << m) */
  function Put(b: byte, m: nat, v: bool): byte
    requires m < 8
  {
    if v then b | Mask(m) else b & !Mask(m)
  }

  lemma PutBit(b: byte, m: nat, v: bool, j: nat)
    requires m < 8 && j < 8
    ensures Bit(Put(b, m, v), j) == if j == m then v else Bit(b, j)
  {
    if v { SetBit(b, m, j); } else { ClearBit(b, m, j); }
  }

  /** Bits s to s+k-1, counted from byte base, set or cleared one after the other. */
  ghost function PutBits(bytes: seq<byte>, base: nat, s: nat, k: nat, v: bool): (r: seq<byte>)
    requires k > 0 ==> base + (s + k - 1) / 8 < |bytes|
    ensures |r| == |bytes|
  {
    if k == 0 then bytes
    else
      var i, r := s + k - 1, PutBits(bytes, base, s, k - 1, v);
      r[base + i / 8 := Put(r[base + i / 8], i % 8, v)]
  }

  /** Exactly the bits of the run are changed, in every byte of the partition. */
  lemma {:induction false} PutBitsBits(bytes: seq<byte>, base: nat, s: nat, k: nat, v: bool, o: nat, j: nat)
    requires k > 0 ==> base + (s + k - 1) / 8 < |bytes|
    requires o < |bytes| && j < 8
    ensures Bit(PutBits(bytes, base, s, k, v)[o], j) == if s <= 8 * (o - base) + j < s + k then v else Bit(bytes[o], j)
  {
    hide Bit, Put;
    if k > 0 {
      PutBitsBits(bytes, base, s, k - 1, v, o, j);
      PutStep(PutBits(bytes, base, s, k - 1, v), base, s + k - 1, v, o, j);
    }
  }

  lemma PutStep(r: seq<byte>, base: nat, i: nat, v: bool, o: nat, j: nat)
    requires base + i / 8 < |r| && o < |r| && j < 8
    ensures Bit(r[base + i / 8 := Put(r[base + i / 8], i % 8, v)][o], j) == if 8 * (o - base) + j == i then v else Bit(r[o], j)
  {
    hide Bit, Put;
    if o == base + i / 8 {
      PutBit(r[o], i % 8, v, j);
      SameBit(i, o - base, j);
    } else {
      OtherByte(i, o - base, j);
    }
  }

  lemma SameBit(i: nat, q: int, j: nat)
    requires q == i / 8 && j < 8
    ensures 8 * q + j == i <==> j == i % 8
  {
  }

  lemma OtherByte(i: nat, q: int, j: nat)
    requires q != i / 8 && j < 8
    ensures 8 * q + j != i
  {
  }

  lemma {:induction false} PutBitsElsewhere(bytes: seq<byte>, base: nat, s: nat, k: nat, v: bool, o: nat)
    requires k > 0 ==> base + (s + k - 1) / 8 < |bytes|
    requires o < |bytes| && (k == 0 || o < base + s / 8 || base + (s + k - 1) / 8 < o)
    ensures PutBits(bytes, base, s, k, v)[o] == bytes[o]
  {
    hide Mask;
    if k > 0 {
      PutBitsElsewhere(bytes, base, s, k - 1, v, o);
    }
  }

  // ----- Superblock -----

  datatype Superblock = Superblock(bitmapStart: nat, dataStart: nat, blockCount: nat)

  /** The number that bits k to 7 of a byte denote. */
  function Value(b: byte, k: nat): nat
    requires k <= 8
    decreases 8 - k
  {
    if k == 8 then 0 else (if Bit(b, k) then 1 else 0) + 2 * Value(b, k + 1)
  }

  lemma ValueOf(b: byte)
    ensures Value(b, 0) == (if Bit(b, 0) then 1 else 0) + (if Bit(b, 1) then 2 else 0) + (if Bit(b, 2) then 4 else 0) + (if Bit(b, 3) then 8 else 0)
      + (if Bit(b, 4) then 16 else 0) + (if Bit(b, 5) then 32 else 0) + (if Bit(b, 6) then 64 else 0) + (if Bit(b, 7) then 128 else 0)
  {
    hide Bit;
    assert Value(b, 7) == if Bit(b, 7) then 1 else 0;
    assert Value(b, 6) == (if Bit(b, 6) then 1 else 0) + 2 * Value(b, 7);
    assert Value(b, 5) == (if Bit(b, 5) then 1 else 0) + 2 * Value(b, 6);
    assert Value(b, 4) == (if Bit(b, 4) then 1 else 0) + 2 * Value(b, 5);
    assert Value(b, 3) == (if Bit(b, 3) then 1 else 0) + 2 * Value(b, 4);
    assert Value(b, 2) == (if Bit(b, 2) then 1 else 0) + 2 * Value(b, 3);
    assert Value(b, 1) == (if Bit(b, 1) then 1 else 0) + 2 * Value(b, 2);
  }

  /** Four bytes as a little-endian word. */
  function Word(b: seq<byte>, o: nat): (w: nat)
    requires o + 4 <= |b|
  {
    Value(b[o], 0) + 0x100 * Value(b[o + 1], 0) + 0x1_0000 * Value(b[o + 2], 0) + 0x100_0000 * Value(b[o + 3], 0)
  }

  function Decode(b: seq<byte>): Superblock
    requires SUPERBLOCK_SIZE <= |b|
  {
    Superblock(Word(b, 16), Word(b, 20), Word(b, 24))
  }

  /** What formatting a partition below 4 GiB establishes: superblock, bitmap and data area in this order. */
  predicate Geometry(sb: Superblock, size: nat) {
    && SUPERBLOCK_SIZE <= sb.bitmapStart
    && sb.bitmapStart + (sb.blockCount + 7) / 8 <= sb.dataStart <= size < TWO_32
    && sb.dataStart + BLOCK * sb.blockCount <= size + 512
  }

  // ----- The partition -----

  /** partition_read and partition_write: call number t fails if faulty(t) says so, or if it leaves the partition. */
  class Partition {
    var bytes: seq<byte>
    var calls: nat
    const faulty: nat -> bool
    const torn: nat -> nat        // how far a failing write got

    constructor (bytes: seq<byte>, faulty: nat -> bool, torn: nat -> nat)
      ensures this.bytes == bytes && this.faulty == faulty && this.torn == torn && calls == 0
    {
      this.bytes, this.faulty, this.torn, calls := bytes, faulty, torn, 0;
    }

    method Read(off: nat, len: nat) returns (ok: bool, buf: seq<byte>)
      modifies this`calls
      ensures calls == old(calls) + 1
      ensures ok == (!faulty(old(calls)) && off + len <= |bytes|)
      ensures ok ==> buf == bytes[off..off + len]
    {
      ok := !faulty(calls) && off + len <= |bytes|;
      calls := calls + 1;
      buf := if ok then bytes[off..off + len] else [];
    }

    /** A failing write can have stored a proper prefix. */
    method Write(off: nat, data: seq<byte>) returns (ok: bool)
      requires data != []
      modifies this
      ensures calls == old(calls) + 1
      ensures ok == (!faulty(old(calls)) && off + |data| <= |bytes|)
      ensures |bytes| == |old(bytes)|
      ensures forall o {:trigger bytes[o]} | 0 <= o < |bytes| && !(off <= o < off + |data|) :: bytes[o] == old(bytes)[o]
      ensures ok ==> bytes[off..off + |data|] == data
      ensures !ok && |data| == 1 ==> bytes == old(bytes)
    {
      ok := !faulty(calls) && off + |data| <= |bytes|;
      var n := if ok then |data| else if torn(calls) < |data| then torn(calls) else 0;
      calls := calls + 1;
      if off + n <= |bytes| {
        bytes := bytes[..off] + data[..n] + bytes[off + n..];
      }
    }
  }

  // ----- The bitmap as a value -----

  ghost function Used(bytes: seq<byte>, sb: Superblock): (u: seq<bool>)
    requires Geometry(sb, |bytes|)
    ensures |u| == sb.blockCount
  {
    seq(sb.blockCount, i requires 0 <= i < sb.blockCount => Bit(bytes[sb.bitmapStart + i / 8], i % 8))
  }

  ghost function CacheOf(off: int, val: byte, sb: Superblock): Cache {
    if off == sb.bitmapStart then FirstByte(seq(Min(8, sb.blockCount), i requires 0 <= i < 8 => Bit(val, i))) else NoCache
  }

  ghost function DiskOf(bytes: seq<byte>, sb: Superblock, off: int, val: byte): (d: Disk)
    requires Geometry(sb, |bytes|)
    ensures WellFormed(d)
  {
    Disk(Used(bytes, sb), CacheOf(off, val, sb))
  }

  /** The byte in which the scan looks for blocks 8q to 8q+7. */
  ghost function SeenByte(bytes: seq<byte>, sb: Superblock, off: int, val: byte, q: nat): byte
    requires sb.bitmapStart + q < |bytes|
  {
    if q == 0 && off == sb.bitmapStart then val else bytes[sb.bitmapStart + q]
  }

  lemma SeenIsEffective(bytes: seq<byte>, sb: Superblock, off: int, val: byte, i: nat)
    requires Geometry(sb, |bytes|) && i < sb.blockCount
    ensures Effective(DiskOf(bytes, sb, off, val))[i] == Bit(SeenByte(bytes, sb, off, val, i / 8), i % 8)
  {
    hide Bit, Mask;
    var d := DiskOf(bytes, sb, off, val);
    assert d.used[i] == Bit(bytes[sb.bitmapStart + i / 8], i % 8);
    if off == sb.bitmapStart {
      var c := d.cache.bits;
      EffectiveAt(d, i);
      if i < 8 {
        assert c[i] == Bit(val, i) && i / 8 == 0 && i % 8 == i;
      } else {
        assert i / 8 != 0;
      }
    }
  }

  lemma EffectiveAt(d: Disk, i: nat)
    requires WellFormed(d) && d.cache.FirstByte? && i < |d.used|
    ensures Effective(d)[i] == if i < 8 then d.cache.bits[i] else d.used[i]
  {
  }

  lemma FirstRunIs(used: seq<bool>, n: nat, s: int)
    requires s == -1 || Clear(used, s, n)
    requires forall t {:trigger Clear(used, t, n)} | Clear(used, t, n) :: s != -1 && s <= t
    ensures FirstRun(used, n, 0) == s
  {
    hide Clear;
    var r := FirstRun(used, n, 0);
    assert s == -1 || Clear(used, s, n);
    ClearFits(used, n);
  }

  lemma UsedAfterPut(bytes: seq<byte>, sb: Superblock, s: nat, k: nat, v: bool)
    requires Geometry(sb, |bytes|) && s + k <= sb.blockCount
    ensures Used(PutBits(bytes, sb.bitmapStart, s, k, v), sb) == Fill(Used(bytes, sb), s, k, v)
  {
    hide Bit, PutBits, Fill;
    var u, w := Used(PutBits(bytes, sb.bitmapStart, s, k, v), sb), Fill(Used(bytes, sb), s, k, v);
    forall i | 0 <= i < sb.blockCount ensures u[i] == w[i] {
      PutBitsBits(bytes, sb.bitmapStart, s, k, v, sb.bitmapStart + i / 8, i % 8);
    }
  }

  lemma PutKeepsRest(bytes: seq<byte>, sb: Superblock, s: nat, k: nat, v: bool)
    requires Geometry(sb, |bytes|) && s + k <= sb.blockCount
    ensures var r := PutBits(bytes, sb.bitmapStart, s, k, v);
      Decode(r) == Decode(bytes) && Kept(bytes, r, sb, 0, 0)
  {
    hide Bit, PutBits, Decode;
    var r := PutBits(bytes, sb.bitmapStart, s, k, v);
    forall o | 0 <= o < |bytes| && !(sb.bitmapStart <= o < sb.dataStart) ensures r[o] == bytes[o] {
      PutBitsElsewhere(bytes, sb.bitmapStart, s, k, v, o);
    }
    SameSuperblock(bytes, r);
  }

  /** (size + 1023) / 1024 in 64-bit arithmetic. */
  function BlocksNeeded(size: nat): nat { (size + BLOCK - 1) % TWO_64 / BLOCK }

  /** It is the smallest number of blocks that hold the size, unless the addition wraps. */
  lemma BlocksNeededIsLeast(size: nat, n: nat)
    requires size < TWO_64
    ensures BLOCK * n >= size ==> BlocksNeeded(size) <= n
    ensures BLOCK * BlocksNeeded(size) >= size <==> size <= TWO_64 - BLOCK
    ensures size > TWO_64 - BLOCK ==> BlocksNeeded(size) == 0
  {
  }

  // ----- Scanning -----

  /** After i bits: the last run of them are clear, the one before is set, and no run of n ends among them. */
  ghost predicate Scanned(e: seq<bool>, n: nat, i: nat, run: nat) {
    && run <= i <= |e| && run < n
    && (forall t | i - run <= t < i :: !e[t])
    && (run < i ==> e[i - run - 1])
    && (forall t {:trigger Clear(e, t, n)} | Clear(e, t, n) :: t + n > i)
  }

  lemma ScanUsed(e: seq<bool>, n: nat, i: nat, run: nat)
    requires Scanned(e, n, i, run) && i < |e| && e[i]
    ensures Scanned(e, n, i + 1, 0)
  {
  }

  lemma ScanFree(e: seq<bool>, n: nat, i: nat, run: nat)
    requires Scanned(e, n, i, run) && i < |e| && !e[i] && run + 1 < n
    ensures Scanned(e, n, i + 1, run + 1)
  {
  }

  lemma ScanFound(e: seq<bool>, n: nat, i: nat, run: nat)
    requires Scanned(e, n, i, run) && i < |e| && !e[i] && run + 1 == n
    ensures FirstRun(e, n, 0) == i + 1 - n
  {
    assert Clear(e, i + 1 - n, n);
    FirstRunIs(e, n, i + 1 - n);
  }

  lemma ScanEnded(e: seq<bool>, n: nat, run: nat)
    requires Scanned(e, n, |e|, run)
    ensures FirstRun(e, n, 0) == -1
  {
    ClearFits(e, n);
    FirstRunIs(e, n, -1);
  }

  /** What the cache holds once block i has been looked at. */
  lemma CacheAfterScan(bytes: seq<byte>, sb: Superblock, off: int, val: byte, i: nat)
    requires Geometry(sb, |bytes|) && i < sb.blockCount
    ensures CacheOf(sb.bitmapStart + i / 8, SeenByte(bytes, sb, off, val, i / 8), sb) == AfterScan(DiskOf(bytes, sb, off, val), i + 1)
  {
    hide Bit, SeenByte, DiskOf, Effective;
    var d := DiskOf(bytes, sb, off, val);
    assert |d.used| == sb.blockCount by { SizeOf(bytes, sb, off, val); }
    if i < 8 {
      var b := seq(Min(8, sb.blockCount), j requires 0 <= j < 8 => Bit(SeenByte(bytes, sb, off, val, 0), j));
      forall j | 0 <= j < Min(8, sb.blockCount) ensures b[j] == Effective(d)[j] {
        SeenIsEffective(bytes, sb, off, val, j);
      }
      assert b == Effective(d)[..Min(8, sb.blockCount)];
    }
  }

  lemma SizeOf(bytes: seq<byte>, sb: Superblock, off: int, val: byte)
    requires Geometry(sb, |bytes|)
    ensures |DiskOf(bytes, sb, off, val).used| == sb.blockCount
  {
  }

  // ----- The three operations -----

  /** finfo: type, length, address on disk, and the bytes that ptr points to. */
  class FileInfo {
    var typ: int
    var driveAddr: nat
    var data: seq<byte>
  }

  class BlockAllocator {
    var lastOff: int        // last_byte_off
    var byteVal: byte       // byte_val

    constructor ()
      ensures lastOff == 0 && byteVal == 0
    {
      lastOff, byteVal := 0, 0;
    }

    ghost function View(p: Partition): Disk
      reads this, p
      requires SUPERBLOCK_SIZE <= |p.bytes| && Geometry(Decode(p.bytes), |p.bytes|)
    {
      DiskOf(p.bytes, Decode(p.bytes), lastOff, byteVal)
    }

    /** The byte at this offset, from the cache if it is the one looked at last. */
    method Look(p: Partition, byteOff: nat) returns (ok: bool)
      requires byteOff < |p.bytes|
      modifies this, p`calls
      ensures p.calls >= old(p.calls) && (ok <==> NoFault(p.faulty, old(p.calls), p.calls))
      ensures ok ==> lastOff == byteOff && byteVal == if old(lastOff) == byteOff then old(byteVal) else p.bytes[byteOff]
    {
      if byteOff != lastOff {
        var read, b := ReadBitmapByte(p, byteOff);
        if !read {
          assert p.faulty(old(p.calls));
          return false;
        }
        lastOff, byteVal := byteOff, b;
      }
      ok := true;
    }

    /** The scanning loop. */
    method Scan(p: Partition, sb: Superblock, n: nat) returns (ok: bool, start: nat, run: nat)
      requires Geometry(sb, |p.bytes|) && 0 < n <= sb.blockCount
      modifies this, p`calls
      ensures p.calls >= old(p.calls) && (ok <==> NoFault(p.faulty, old(p.calls), p.calls))
      ensures ok ==> var d := old(DiskOf(p.bytes, sb, lastOff, byteVal)); var s := FirstRun(Effective(d), n, 0);
        && (run >= n <==> s != -1) && (run >= n ==> start == s)
        && CacheOf(lastOff, byteVal, sb) == AfterScan(d, if s == -1 then |d.used| else s + n)
    {
      hide DiskOf, Effective, CacheOf, AfterScan, Bit, Mask, Scanned, Clear;
      ghost var off, val := lastOff, byteVal;
      ghost var d := DiskOf(p.bytes, sb, off, val);
      ghost var e := Effective(d);
      SizeOf(p.bytes, sb, off, val);
      var i := 0;
      start, run := 0, 0;
      ScanStart(e, n);
      while i < sb.blockCount
        invariant i <= sb.blockCount && Scanned(e, n, i, run) && (run > 0 ==> start == i - run)
        invariant p.calls >= old(p.calls) && NoFault(p.faulty, old(p.calls), p.calls)
        invariant if i == 0 then lastOff == off && byteVal == val
                  else lastOff == sb.bitmapStart + (i - 1) / 8 && byteVal == SeenByte(p.bytes, sb, off, val, (i - 1) / 8)
      {
        var byteOff := sb.bitmapStart + i / 8;
        var read := Look(p, byteOff);
        if !read {
          return false, start, run;
        }
        assert lastOff == byteOff && byteVal == SeenByte(p.bytes, sb, off, val, i / 8);
        SeenIsEffective(p.bytes, sb, off, val, i);
        CacheAfterScan(p.bytes, sb, off, val, i);
        RunBelow(e, n, i, run);
        if !Bit(byteVal, i % 8) {
          if run == 0 {
            start := i;
          }
          if run + 1 == n {
            ScanFound(e, n, i, run);
            return true, start, n;
          }
          ScanFree(e, n, i, run);
          run := run + 1;
        } else {
          ScanUsed(e, n, i, run);
          run := 0;
        }
        i := i + 1;
      }
      ScanEnded(e, n, run);
      RunBelow(e, n, i, run);
      CacheAfterScan(p.bytes, sb, off, val, i - 1);
      ok := true;
    }

    /** dfs_alloc_file_blocks: the byte address of the run, or 0. */
    method AllocFileBlocks(p: Partition, size: nat) returns (addr: nat, ghost s: int, ghost k: nat)
      requires Formatted(p.bytes) && size < TWO_64
      modifies this, p
      ensures Formatted(p.bytes) && Decode(p.bytes) == old(Decode(p.bytes)) && |p.bytes| == |old(p.bytes)|
      ensures p.calls >= old(p.calls) && (addr != 0 ==> NoFault(p.faulty, old(p.calls), p.calls))
      ensures NoFault(p.faulty, old(p.calls), p.calls) ==>
        && (View(p), s) == Alloc(old(View(p)), BlocksNeeded(size))
        && addr == if s == -1 then 0 else Decode(p.bytes).dataStart + BLOCK * s
      ensures k > 0 ==> 0 <= s && s + k <= Decode(p.bytes).blockCount
      ensures k <= BlocksNeeded(size) && p.bytes == if k == 0 then old(p.bytes) else PutBits(old(p.bytes), Decode(p.bytes).bitmapStart, s, k, true)
      ensures Kept(old(p.bytes), p.bytes, Decode(p.bytes), 0, 0)
    {
      hide DiskOf, Effective, CacheOf, AfterScan, PutBits, Fill, FirstRun, Word, Kept;
      KeptSame(p.bytes, Decode(p.bytes));
      s, k := -1, 0;
      ghost var d, bytes := View(p), p.bytes;
      var read, sb := ReadSuperblock(p);
      if !read {
        return 0, s, k;
      }
      SizeOf(bytes, sb, lastOff, byteVal);
      NewView(bytes, sb, lastOff, byteVal);
      var n := BlocksNeeded(size);
      if n == 0 || n > sb.blockCount {
        return 0, s, k;
      }
      var ok, start, run := Scan(p, sb, n);
      if !ok {
        return 0, s, k;
      }
      ghost var found := FirstRun(Effective(d), n, 0);
      if run < n {
        NewView(bytes, sb, lastOff, byteVal);
        return 0, s, k;
      }
      s := start;
      FoundFits(Effective(d), n);
      ok, k := Mark(p, sb, start, n);
      PutKeepsRest(bytes, sb, start, k, true);
      PutNothing(bytes, sb.bitmapStart, start);
      if !ok {
        return 0, s, k;
      }
      UsedAfterPut(bytes, sb, start, n, true);
      NewView(p.bytes, sb, lastOff, byteVal);
      addr := (sb.dataStart + start * BLOCK) % TWO_32;
    }

    /** dfs_free_file_blocks */
    method FreeFileBlocks(p: Partition, startAddr: nat, size: nat)
      requires Formatted(p.bytes) && size < TWO_64
      modifies p
      ensures Formatted(p.bytes) && Decode(p.bytes) == old(Decode(p.bytes)) && |p.bytes| == |old(p.bytes)|
      ensures p.calls >= old(p.calls)
      ensures Kept(old(p.bytes), p.bytes, Decode(p.bytes), 0, 0)
      ensures startAddr < Decode(p.bytes).dataStart ==> p.bytes == old(p.bytes)
      ensures startAddr >= Decode(p.bytes).dataStart ==> var sb := Decode(p.bytes); var idx := (startAddr - sb.dataStart) / BLOCK;
        ClearsOnly(old(p.bytes), p.bytes, sb.bitmapStart, idx, Part(sb, idx, BlocksNeeded(size)))
      ensures NoFault(p.faulty, old(p.calls), p.calls) ==>
        View(p) == FreeAt(old(View(p)), startAddr, Decode(p.bytes).dataStart, BlocksNeeded(size))
    {
      hide DiskOf, CacheOf, PutBits, Fill, ClearsOnly, Word, Kept;
      KeptSame(p.bytes, Decode(p.bytes));
      ghost var bytes, sb0 := p.bytes, Decode(p.bytes);
      if startAddr >= sb0.dataStart {
        ghost var first := (startAddr - sb0.dataStart) / BLOCK;
        NothingCleared(bytes, sb0.bitmapStart, first, Part(sb0, first, BlocksNeeded(size)));
      }
      var read, sb := ReadSuperblock(p);
      if !read {
        return;
      }
      if startAddr < sb.dataStart {
        return;
      }
      var idx := (startAddr - sb.dataStart) / BLOCK;
      var n := BlocksNeeded(size);
      Unmark(p, sb, idx, n);
      ClearsKeepsRest(bytes, p.bytes, sb, idx, Part(sb, idx, n));
      SizeOf(bytes, sb, lastOff, byteVal);
      NewView(bytes, sb, lastOff, byteVal);
      NewView(p.bytes, sb, lastOff, byteVal);
      if idx < sb.blockCount {
        UsedAfterPut(bytes, sb, idx, Part(sb, idx, n), false);
      } else {
        PutNothing(bytes, sb.bitmapStart, idx);
      }
    }

    /** The first half of dfs_sync_file: free the old run of a DIRTY file and allocate a new one; 0 if that fails. */
    method Place(p: Partition, typ: int, addr: nat, size: nat) returns (newAddr: nat)
      requires Formatted(p.bytes) && size < TWO_64 && (typ == DIRTY || addr == 0)
      modifies this, p
      ensures Formatted(p.bytes) && Decode(p.bytes) == old(Decode(p.bytes)) && |p.bytes| == |old(p.bytes)|
      ensures p.calls >= old(p.calls) && (newAddr != 0 ==> newAddr >= Decode(p.bytes).dataStart > 0)
      ensures Decode(p.bytes).dataStart > 0
      ensures Kept(old(p.bytes), p.bytes, Decode(p.bytes), 0, 0)
      ensures NoFault(p.faulty, old(p.calls), p.calls) ==>
        var (d, s) := SyncBitmap(old(View(p)), typ, addr, Decode(p.bytes).dataStart, BlocksNeeded(size));
        View(p) == d && newAddr == if s == -1 then 0 else Decode(p.bytes).dataStart + BLOCK * s
    {
      hide Alloc, DiskOf, Word, BlocksNeeded, PutBits, Decode, FreeAt;
      newAddr := addr;
      if typ == DIRTY && addr != 0 {
        FreeFileBlocks(p, addr, size);
        newAddr := 0;
      }
      ghost var s, k;
      newAddr, s, k := AllocFileBlocks(p, size);
    }

    /** dfs_sync_file, where the data pointer holds the whole file. A file of type 1, NEW or CLEAN alike, is left alone. */
    method SyncFile(f: FileInfo, p: Partition) returns (err: int)
      requires Formatted(p.bytes) && |f.data| < TWO_64
      modifies this, p, f`typ, f`driveAddr
      ensures p.calls >= old(p.calls) && |p.bytes| == |old(p.bytes)|
      ensures old(f.data == [] || f.typ == CLEAN) ==>
        err == 0 && p.bytes == old(p.bytes) && f.typ == old(f.typ) && f.driveAddr == old(f.driveAddr) && lastOff == old(lastOff) && byteVal == old(byteVal)
      ensures old(f.data != [] && f.typ != CLEAN) && err == 0 ==>
        f.typ == CLEAN && f.driveAddr + |f.data| <= |p.bytes| && p.bytes[f.driveAddr..f.driveAddr + |f.data|] == f.data
      ensures old(f.data != [] && f.typ != CLEAN && (f.typ == DIRTY || f.driveAddr == 0)) ==>
        && Formatted(p.bytes) && Decode(p.bytes) == old(Decode(p.bytes))
        && (err == 0 || err == -2 || err == -3) && f.typ == (if err == 0 then CLEAN else old(f.typ))
        && (if err == -2 then f.driveAddr == old(f.driveAddr) else f.driveAddr >= Decode(p.bytes).dataStart)
        && (err == -3 ==> !NoFault(p.faulty, old(p.calls), p.calls) || f.driveAddr + |f.data| > |p.bytes|)
        && (if err == -2 then Kept(old(p.bytes), p.bytes, Decode(p.bytes), 0, 0)
            else Kept(old(p.bytes), p.bytes, Decode(p.bytes), f.driveAddr, |f.data|))
      ensures old(f.data != [] && f.typ != CLEAN && f.typ != DIRTY && f.driveAddr != 0) ==>
        && f.driveAddr == old(f.driveAddr) && lastOff == old(lastOff) && byteVal == old(byteVal)
        && err == (if NoFault(p.faulty, old(p.calls), p.calls) && f.driveAddr + |f.data| <= |p.bytes| then 0 else -3)
        && f.typ == (if err == 0 then CLEAN else old(f.typ))
        && forall o {:trigger p.bytes[o]} | 0 <= o < |p.bytes| && !(f.driveAddr <= o < f.driveAddr + |f.data|) :: p.bytes[o] == old(p.bytes)[o]
      ensures (NoFault(p.faulty, old(p.calls), p.calls) && old(f.data != [] && f.typ != CLEAN && (f.typ == DIRTY || f.driveAddr == 0))) ==>
        Synced(old(View(p)), View(p), old(p.bytes), p.bytes, Decode(p.bytes).dataStart, f.data, old(f.typ), f.typ, old(f.driveAddr), f.driveAddr, err)
    {
      hide Alloc, DiskOf, Word, BlocksNeeded, PutBits, FreeAt, SyncBitmap, Decode, Geometry;
      if f.data == [] || f.typ == CLEAN {
        return 0;
      }
      var newAddr := f.driveAddr;
      if f.typ == DIRTY || f.driveAddr == 0 {
        newAddr := Place(p, f.typ, f.driveAddr, |f.data|);
        if newAddr == 0 {
          return -2;
        }
        f.driveAddr := newAddr;
      }
      ghost var bytes := p.bytes;
      var ok := p.Write(newAddr, f.data);
      if old(f.typ == DIRTY || f.driveAddr == 0) {
        KeptAfterWrite(old(p.bytes), bytes, p.bytes, Decode(bytes), newAddr, |f.data|);
      }
      if newAddr >= Decode(bytes).dataStart {
        WriteKeepsBitmap(bytes, p.bytes, newAddr, lastOff, byteVal);
      }
      if !ok {
        return -3;
      }
      f.typ := CLEAN;
      err := 0;
    }
  }

  /** Nothing has changed outside the bitmap and the len bytes from addr on. */
  ghost predicate Kept(before: seq<byte>, after: seq<byte>, sb: Superblock, addr: nat, len: nat)
    requires |after| == |before|
  {
    forall o {:trigger after[o]} | 0 <= o < |after| && !(sb.bitmapStart <= o < sb.dataStart) && !(addr <= o < addr + len) :: after[o] == before[o]
  }

  lemma KeptSame(bytes: seq<byte>, sb: Superblock)
    ensures Kept(bytes, bytes, sb, 0, 0)
  {
  }

  lemma KeptAfterWrite(before: seq<byte>, mid: seq<byte>, after: seq<byte>, sb: Superblock, addr: nat, len: nat)
    requires |after| == |mid| == |before| && Kept(before, mid, sb, 0, 0)
    requires forall o {:trigger after[o]} | 0 <= o < |after| && !(addr <= o < addr + len) :: after[o] == mid[o]
    ensures Kept(before, after, sb, addr, len)
  {
    forall o | 0 <= o < |after| && !(sb.bitmapStart <= o < sb.dataStart) && !(addr <= o < addr + len) ensures after[o] == before[o] {
      assert after[o] == mid[o];
    }
  }

  /** The effect of a sync that is not skipped: the bitmap, the error code, the fields of the file, and every byte of the data area. */
  ghost predicate Synced(before: Disk, after: Disk, bytes: seq<byte>, bytes': seq<byte>, start: nat, data: seq<byte>,
                         typ: int, typ': int, addr: nat, addr': nat, err: int)
    requires WellFormed(before) && |bytes| == |bytes'|
  {
    var (d, s) := SyncBitmap(before, typ, addr, start, BlocksNeeded(|data|));
    && after == d
    && err == (if s == -1 then -2 else if addr' + |data| > |bytes| then -3 else 0)
    && addr' == (if s == -1 then addr else start + BLOCK * s)
    && typ' == (if err == 0 then CLEAN else typ)
    && (err == 0 ==> addr' + |data| <= |bytes| && bytes'[addr'..addr' + |data|] == data)
    && forall o {:trigger bytes'[o]} | start <= o < |bytes| && (s == -1 || !(addr' <= o < addr' + |data|)) :: bytes'[o] == bytes[o]
  }

  lemma SameSuperblock(bytes: seq<byte>, after: seq<byte>)
    requires SUPERBLOCK_SIZE <= |bytes| && SUPERBLOCK_SIZE <= |after|
    requires forall o {:trigger after[o]} | 0 <= o < SUPERBLOCK_SIZE :: after[o] == bytes[o]
    ensures Decode(after) == Decode(bytes)
  {
    hide Value;
  }

  /** A write to the data area changes neither the superblock nor the bitmap. */
  lemma WriteKeepsBitmap(bytes: seq<byte>, after: seq<byte>, addr: nat, off: int, val: byte)
    requires Formatted(bytes) && |after| == |bytes| && addr >= Decode(bytes).dataStart
    requires forall o {:trigger after[o]} | 0 <= o < addr && o < |bytes| :: after[o] == bytes[o]
    ensures Formatted(after) && Decode(after) == Decode(bytes)
    ensures DiskOf(after, Decode(after), off, val) == DiskOf(bytes, Decode(bytes), off, val)
  {
    hide Bit, Decode;
    SameSuperblock(bytes, after);
    var sb := Decode(bytes);
    var u, w := Used(bytes, sb), Used(after, sb);
    forall i | 0 <= i < sb.blockCount ensures u[i] == w[i] {
      assert after[sb.bitmapStart + i / 8] == bytes[sb.bitmapStart + i / 8];
    }
    assert u == w;
  }

  /** What a sync does to the bitmap: a DIRTY file's blocks are freed first, by its present length, and then it is allocated anew. */
  ghost function SyncBitmap(d: Disk, typ: int, addr: nat, dataStart: nat, n: nat): (r: (Disk, int))
    requires WellFormed(d)
    ensures WellFormed(r.0) && r.1 >= -1
  {
    Alloc(if typ == DIRTY && addr != 0 then FreeAt(d, addr, dataStart, n) else d, n)
  }

  /** The marking loop; it gives up at the first failure. */
  method Mark(p: Partition, sb: Superblock, s: nat, n: nat) returns (ok: bool, ghost k: nat)
    requires Geometry(sb, |p.bytes|) && s + n <= sb.blockCount
    modifies p
    ensures k <= n && (k > 0 ==> sb.bitmapStart + (s + k - 1) / 8 < |old(p.bytes)|)
    ensures p.bytes == PutBits(old(p.bytes), sb.bitmapStart, s, k, true)
    ensures p.calls >= old(p.calls) && (ok <==> NoFault(p.faulty, old(p.calls), p.calls)) && (ok ==> k == n)
  {
    hide Put, PutBits, Geometry;
    PutNothing(p.bytes, sb.bitmapStart, s);
    var i := 0;
    k := 0;
    while i < n
      invariant i == k <= n && (i > 0 ==> sb.bitmapStart + (s + i - 1) / 8 < |old(p.bytes)|)
      invariant p.bytes == PutBits(old(p.bytes), sb.bitmapStart, s, i, true)
      invariant p.calls >= old(p.calls) && NoFault(p.faulty, old(p.calls), p.calls)
    {
      var block := s + i;
      InBitmap(sb, |p.bytes|, block);
      PutOneMore(old(p.bytes), sb.bitmapStart, s, i, true);
      var off := sb.bitmapStart + block / 8;
      var read, b := ReadBitmapByte(p, off);
      if !read {
        return false, k;
      }
      var written := WriteBitmapByte(p, off, Put(b, block % 8, true));
      if !written {
        return false, k;
      }
      i, k := i + 1, k + 1;
    }
    ok := true;
  }

  /** Free with a byte address; an address below the data area frees nothing. */
  ghost function FreeAt(d: Disk, startAddr: nat, dataStart: nat, n: nat): (r: Disk)
    requires WellFormed(d)
    ensures WellFormed(r) && |r.used| == |d.used|
  {
    if startAddr < dataStart then d else Free(d, (startAddr - dataStart) / BLOCK, n)
  }

  predicate Formatted(bytes: seq<byte>) {
    SUPERBLOCK_SIZE <= |bytes| && Geometry(Decode(bytes), |bytes|)
  }

  /** dfs_read_superblock */
  method ReadSuperblock(p: Partition) returns (ok: bool, sb: Superblock)
    requires SUPERBLOCK_SIZE <= |p.bytes|
    modifies p`calls
    ensures p.calls == old(p.calls) + 1 && ok == !p.faulty(old(p.calls))
    ensures ok ==> sb == Decode(p.bytes)
  {
    var buf;
    ok, buf := p.Read(0, SUPERBLOCK_SIZE);
    sb := if ok then Decode(buf) else Superblock(0, 0, 0);
  }

  lemma NewView(bytes: seq<byte>, sb: Superblock, off: int, val: byte)
    requires Geometry(sb, |bytes|)
    ensures DiskOf(bytes, sb, off, val) == Disk(Used(bytes, sb), CacheOf(off, val, sb))
  {
  }

  lemma FoundFits(e: seq<bool>, n: nat)
    ensures FirstRun(e, n, 0) != -1 ==> FirstRun(e, n, 0) + n <= |e|
  {
  }

  lemma SameBits(a: byte, b: byte)
    requires forall j | 0 <= j < 8 :: Bit(a, j) == Bit(b, j)
    ensures a == b
  {
    assert Bit(a, 0) == Bit(b, 0) && Bit(a, 1) == Bit(b, 1) && Bit(a, 2) == Bit(b, 2) && Bit(a, 3) == Bit(b, 3);
    assert Bit(a, 4) == Bit(b, 4) && Bit(a, 5) == Bit(b, 5) && Bit(a, 6) == Bit(b, 6) && Bit(a, 7) == Bit(b, 7);
  }

  lemma ClearsKeepsRest(bytes: seq<byte>, r: seq<byte>, sb: Superblock, s: nat, k: nat)
    requires Geometry(sb, |bytes|) && (k == 0 || s + k <= sb.blockCount) && ClearsOnly(bytes, r, sb.bitmapStart, s, k)
    ensures Decode(r) == Decode(bytes) && Kept(bytes, r, sb, 0, 0)
  {
    hide Bit, Decode;
    forall o | 0 <= o < |bytes| && !(sb.bitmapStart <= o < sb.dataStart) ensures r[o] == bytes[o] {
      forall j | 0 <= j < 8 ensures Bit(r[o], j) == Bit(bytes[o], j) {
      }
      SameBits(r[o], bytes[o]);
    }
    SameSuperblock(bytes, r);
  }

  /** Bits s to s+k-1 may have been cleared; no other bit has changed. */
  ghost predicate ClearsOnly(before: seq<byte>, after: seq<byte>, base: nat, s: nat, k: nat) {
    && |after| == |before|
    && forall o, j {:trigger Bit(after[o], j)} | 0 <= o < |after| && 0 <= j < 8 ::
         Bit(after[o], j) == Bit(before[o], j) || (s <= 8 * (o - base) + j < s + k && !Bit(after[o], j))
  }

  lemma ClearsOneMore(before: seq<byte>, now: seq<byte>, base: nat, s: nat, k: nat)
    requires ClearsOnly(before, now, base, s, k) && base + (s + k) / 8 < |now|
    ensures ClearsOnly(before, now, base, s, k + 1)
    ensures var off := base + (s + k) / 8;
      ClearsOnly(before, now[off := Put(now[off], (s + k) % 8, false)], base, s, k + 1)
  {
    hide Bit, Put;
    var off := base + (s + k) / 8;
    var after := now[off := Put(now[off], (s + k) % 8, false)];
    forall o, j | 0 <= o < |after| && 0 <= j < 8
      ensures Bit(after[o], j) == if 8 * (o - base) + j == s + k then false else Bit(now[o], j)
    {
      PutStep(now, base, s + k, false, o, j);
    }
  }

  lemma NothingCleared(bytes: seq<byte>, base: nat, s: nat, k: nat)
    ensures ClearsOnly(bytes, bytes, base, s, k)
  {
  }

  /** How many of n blocks from s on exist. */
  function Part(sb: Superblock, s: nat, n: nat): nat { if s >= sb.blockCount then 0 else Min(n, sb.blockCount - s) }

  /** The clearing loop of dfs_free_file_blocks; it skips a byte that it cannot read and ignores a failing write. */
  method Unmark(p: Partition, sb: Superblock, s: nat, n: nat)
    requires Geometry(sb, |p.bytes|)
    modifies p
    ensures p.calls >= old(p.calls) && |p.bytes| == |old(p.bytes)|
    ensures ClearsOnly(old(p.bytes), p.bytes, sb.bitmapStart, s, Part(sb, s, n))
    ensures Part(sb, s, n) > 0 ==> sb.bitmapStart + (s + Part(sb, s, n) - 1) / 8 < |old(p.bytes)|
    ensures NoFault(p.faulty, old(p.calls), p.calls) ==>
      p.bytes == PutBits(old(p.bytes), sb.bitmapStart, s, Part(sb, s, n), false)
  {
    hide Put, PutBits, Geometry, ClearsOnly, Min;
    if s < sb.blockCount {
      MinOf(n, sb.blockCount - s);
    }
    NothingCleared(p.bytes, sb.bitmapStart, s, 0);
    PutNothing(p.bytes, sb.bitmapStart, s);
    ghost var m := Part(sb, s, n);
    var i := 0;
    while i < n
      invariant i <= m && p.calls >= old(p.calls) && |p.bytes| == |old(p.bytes)|
      invariant i > 0 ==> sb.bitmapStart + (s + i - 1) / 8 < |p.bytes|
      invariant ClearsOnly(old(p.bytes), p.bytes, sb.bitmapStart, s, i)
      invariant NoFault(p.faulty, old(p.calls), p.calls) ==> p.bytes == PutBits(old(p.bytes), sb.bitmapStart, s, i, false)
    {
      var block := s + i;
      if block >= sb.blockCount {
        break;
      }
      InBitmap(sb, |p.bytes|, block);
      PutOneMore(old(p.bytes), sb.bitmapStart, s, i, false);
      ClearsOneMore(old(p.bytes), p.bytes, sb.bitmapStart, s, i);
      var off := sb.bitmapStart + block / 8;
      i := i + 1;
      ghost var t := p.calls;
      var read, b := ReadBitmapByte(p, off);
      if !read {
        assert p.faulty(t);
        continue;
      }
      var written := WriteBitmapByte(p, off, Put(b, block % 8, false));
      assert !written ==> p.faulty(t + 1);
    }
  }

  lemma MinOf(a: nat, b: nat)
    ensures Min(a, b) <= a && Min(a, b) <= b && (Min(a, b) == a || Min(a, b) == b)
  {
  }

  lemma PutNothing(bytes: seq<byte>, base: nat, s: nat)
    ensures PutBits(bytes, base, s, 0, false) == bytes && PutBits(bytes, base, s, 0, true) == bytes
  {
  }

  /** read_bitmap_byte */
  method ReadBitmapByte(p: Partition, off: nat) returns (ok: bool, b: byte)
    requires off < |p.bytes|
    modifies p`calls
    ensures p.calls == old(p.calls) + 1 && ok == !p.faulty(old(p.calls))
    ensures ok ==> b == p.bytes[off]
  {
    var buf;
    ok, buf := p.Read(off, 1);
    b := if ok then buf[0] else 0;
  }

  /** write_bitmap_byte */
  method WriteBitmapByte(p: Partition, off: nat, b: byte) returns (ok: bool)
    requires off < |p.bytes|
    modifies p
    ensures p.calls == old(p.calls) + 1 && ok == !p.faulty(old(p.calls))
    ensures p.bytes == if ok then old(p.bytes)[off := b] else old(p.bytes)
  {
    ghost var before := p.bytes;
    ok := p.Write(off, [b]);
    if ok {
      OneByte(before, p.bytes, off, b);
    }
  }

  lemma InBitmap(sb: Superblock, size: nat, block: nat)
    requires Geometry(sb, size) && block < sb.blockCount
    ensures sb.bitmapStart + block / 8 < size
  {
  }

  lemma PutOneMore(bytes: seq<byte>, base: nat, s: nat, k: nat, v: bool)
    requires base + (s + k) / 8 < |bytes| && (k > 0 ==> base + (s + k - 1) / 8 < |bytes|)
    ensures var r := PutBits(bytes, base, s, k, v);
      PutBits(bytes, base, s, k + 1, v) == r[base + (s + k) / 8 := Put(r[base + (s + k) / 8], (s + k) % 8, v)]
  {
    hide Put;
  }

  lemma ScanStart(e: seq<bool>, n: nat)
    requires n > 0
    ensures Scanned(e, n, 0, 0)
  {
  }

  lemma RunBelow(e: seq<bool>, n: nat, i: nat, run: nat)
    requires Scanned(e, n, i, run)
    ensures run < n
  {
  }

  lemma OneByte(before: seq<byte>, after: seq<byte>, off: nat, b: byte)
    requires |before| == |after| && off < |after| && after[off..off + 1] == [b]
    requires forall o {:trigger after[o]} | 0 <= o < |after| && !(off <= o < off + 1) :: after[o] == before[o]
    ensures after == before[off := b]
  {
    assert after[off] == after[off..off + 1][0];
  }

  /** Re-syncing a DIRTY file with extent (s0, n) does to the bitmap what the step on extents does. */
  lemma SyncIsResync(before: Disk, after: Disk, live: multiset<Extent>, bytes: seq<byte>, bytes': seq<byte>, start: nat,
                     data: seq<byte>, s0: nat, n: nat, typ': int, addr': nat, err: int)
    requires WellFormed(before) && |bytes| == |bytes'| && start > 0
    requires Synced(before, after, bytes, bytes', start, data, DIRTY, typ', start + BLOCK * s0, addr', err)
    ensures after == ResyncState(State(before, live), Extent(s0, n), BlocksNeeded(|data|)).disk
  {
    hide Alloc, Free, BlocksNeeded;
    assert (BLOCK * s0) / BLOCK == s0;
  }

  /** It leaves the blocks of every other file byte for byte, unless it has grown over blocks that were in use. */
  lemma SyncKeepsOtherFiles(before: Disk, after: Disk, live: multiset<Extent>, bytes: seq<byte>, bytes': seq<byte>, start: nat,
                            data: seq<byte>, s0: nat, n: nat, typ': int, addr': nat, err: int, other: Extent, o: nat)
    requires WellFormed(before) && |bytes| == |bytes'| && start > 0 && |data| <= TWO_64 - BLOCK
    requires Synced(before, after, bytes, bytes', start, data, DIRTY, typ', start + BLOCK * s0, addr', err)
    requires Inv(State(before, live)) && Trusted(before) && Extent(s0, n) in live
    requires forall i | s0 + n <= i < s0 + BlocksNeeded(|data|) && i < |before.used| :: !before.used[i]
    requires other in live && other != Extent(s0, n)
    requires start + BLOCK * other.s <= o < start + BLOCK * (other.s + other.n) && o < |bytes|
    ensures bytes'[o] == bytes[o]
  {
    hide Alloc, Free, Inv, Trusted, BlocksNeeded;
    var st, e, m := State(before, live), Extent(s0, n), BlocksNeeded(|data|);
    BlocksNeededIsLeast(|data|, m);
    LiveIsFull(st, other);
    FreedBits(st, e, m);
    LiveDisjoint(st, e, other);
    var f := Free(before, s0, m);
    TrustedAfterFree(before, s0, m);
    assert (BLOCK * s0) / BLOCK == s0;
    var s := Alloc(f, m).1;
    if s != -1 {
      AllocTakesClear(f, m);
      ClearMisses(f.used, s, m, other);
    }
  }

  lemma LiveDisjoint(st: State, e: Extent, f: Extent)
    requires Inv(st) && e in st.live && f in st.live && e != f
    ensures Disjoint(e, f) && f.s + f.n <= |st.disk.used|
  {
  }

  lemma ClearMisses(used: seq<bool>, s: nat, m: nat, e: Extent)
    requires Clear(used, s, m) && Full(used, e.s, e.n) && m > 0 && e.n > 0
    ensures Disjoint(Extent(s, m), e)
  {
    var i := if e.s <= s then s else e.s;
    var inUse := used[i];
    assert Disjoint(Extent(s, m), e) || inUse;
  }

  lemma LiveIsFull(st: State, e: Extent)
    requires Inv(st) && e in st.live
    ensures e.n > 0 && Full(st.disk.used, e.s, e.n)
  {
    forall i | e.s <= i < e.s + e.n ensures st.disk.used[i] {
      assert Covers(st.live, e, i) && Owned(st.live, i);
    }
  }
}
