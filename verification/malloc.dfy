// malloc.c: a first-fit allocator whose free list is threaded through the memory it manages.
module Malloc {
  import opened Common
  import opened HeapModel

  /** The 32-bit word at each byte address that has been written. */
  type Memory = map<int, int>

  /** The next field of a block header, four bytes after the size field. */
  function NextField(mem: Memory, b: Block): int {
    if b.addr + 4 in mem then mem[b.addr + 4] else 0
  }

  ghost function AddrAt(s: seq<Block>, i: nat): nat {
    if i < |s| then s[i].addr else 0
  }

  ghost predicate Sized(mem: Memory, tiles: seq<Block>) {
    forall b | b in tiles :: b.addr in mem && mem[b.addr] == b.size
  }

  ghost predicate FreeLinked(mem: Memory, first: int, free: seq<Block>) {
    && first == AddrAt(free, 0)
    && forall i {:trigger NextField(mem, free[i])} | 0 <= i < |free| ::
         free[i].addr + 4 in mem && NextField(mem, free[i]) == AddrAt(free, i + 1)
  }

  /** The words of every live payload are the same in both memories. */
  ghost predicate SamePayloads(mem: Memory, mem': Memory, live: set<Block>) {
    forall b, a | b in live && b.addr + HEADER <= a < b.End() :: (a in mem <==> a in mem') && (a in mem ==> mem[a] == mem'[a])
  }

  /** Byte a of memory: byte a % 4 of the little-endian word that holds it. */
  function ByteAt(mem: Memory, a: nat): Option<int> {
    var w := a - a % 4;
    if w !in mem then None
    else Some((if a == w then mem[w] else if a == w + 1 then mem[w] / 0x100 else if a == w + 2 then mem[w] / 0x1_0000 else mem[w] / 0x100_0000) % 0x100)
  }

  /** The bytes of every live payload are the same in both memories. */
  ghost predicate SameBytes(mem: Memory, mem': Memory, live: set<Block>) {
    forall b, a: nat {:trigger b in live, ByteAt(mem', a)} | b in live && b.addr + HEADER <= a < b.End() :: ByteAt(mem', a) == ByteAt(mem, a)
  }

  /** Payloads begin and end at word boundaries, so that equal words are equal bytes. */
  lemma WordsAreBytes(h: Heap, mem: Memory, mem': Memory, live: set<Block>)
    requires Inv(h) && live <= Live(h) && SamePayloads(mem, mem', live)
    ensures SameBytes(mem, mem', live)
  {
    forall b, a: nat | b in live && b.addr + HEADER <= a < b.End() ensures ByteAt(mem', a) == ByteAt(mem, a) {
      Aligned(h, b);
      WordInside(b, a);
    }
  }

  lemma WordInside(b: Block, a: nat)
    requires b.addr % 8 == 0 && b.size % 8 == 0 && b.addr + HEADER <= a < b.End()
    ensures b.addr + HEADER <= a - a % 4 && a - a % 4 + 4 <= b.End()
  {
  }

  /** The two words of a block header are aligned, and their eight bytes lie outside every live payload. */
  lemma HeaderOutside(h: Heap, x: Block, b: Block, a: nat)
    requires Inv(h) && x in h.tiles && b in Live(h) && x.addr <= a < x.addr + HEADER
    ensures x.addr % 4 == 0 && (x.addr + 4) % 4 == 0 && !(b.addr + HEADER <= a < b.End())
  {
    hide Inv;
    Aligned(h, x);
    if x != b {
      HeadersApart(h, x, b);
    }
  }

  /** The writes of the split branch of malloc, on a block at curr with the given header fields. */
  function SplitWrites(mem: Memory, prev: int, curr: int, size: int, next: int, req: nat): Memory
    requires size >= req + 2 * HEADER
  {
    var nf := curr + HEADER + req;
    var m := mem[nf := size - req - HEADER][nf + 4 := next][curr := req];
    if prev == 0 then m else m[prev + 4 := nf]
  }

  /** Headers of different blocks do not touch. */
  lemma HeadersApart(h: Heap, b: Block, c: Block)
    requires Inv(h) && b in h.tiles && c in h.tiles && b != c
    ensures Apart(b, c) && (b.addr + 16 <= c.addr || c.addr + 16 <= b.addr)
  {
    TilesApart(h.tiles, h.base, h.brk);
    Aligned(h, b);
    Aligned(h, c);
  }

  lemma Aligned(h: Heap, b: Block)
    requires Inv(h) && b in h.tiles
    ensures b.addr % 8 == 0 && b.addr >= h.base > 0 && b.size % 8 == 0 && b.size >= 8
  {
    assert GoodBlock(b, h.base);
  }

  lemma SplitWritesElsewhere(mem: Memory, prev: int, curr: int, size: int, next: int, req: nat, a: nat)
    requires size >= req + 2 * HEADER
    requires a != curr && a != curr + HEADER + req && a != curr + HEADER + req + 4 && (prev != 0 ==> a != prev + 4)
    ensures var m := SplitWrites(mem, prev, curr, size, next, req); (a in m <==> a in mem) && (a in mem ==> m[a] == mem[a])
  {
  }

  lemma SplitWritesHere(mem: Memory, prev: int, curr: int, size: int, next: int, req: nat)
    requires size >= req + 2 * HEADER && curr % 8 == 0 && req % 8 == 0 && prev % 8 == 0
    ensures var m := SplitWrites(mem, prev, curr, size, next, req); var nf := curr + HEADER + req;
      && curr in m && nf in m && nf + 4 in m && m[curr] == req && m[nf] == size - req - HEADER
      && (prev != nf ==> m[nf + 4] == next)
      && (prev != 0 ==> prev + 4 in m && m[prev + 4] == nf)
  {
  }

  /** The address of the free block before the i-th, as the search loop keeps it. */
  ghost function PrevAddr(free: seq<Block>, i: nat): nat
    requires i <= |free|
  {
    if i == 0 then 0 else free[i - 1].addr
  }

  /** What the search loop knows about the block it is going to take. */
  ghost predicate Ready(mem: Memory, h: Heap, i: nat, req: nat) {
    && Inv(h) && Sized(mem, h.tiles) && FreeLinked(mem, AddrAt(h.free, 0), h.free)
    && i < |h.free| && h.free[i].size >= req && req % 8 == 0 && req >= 8
  }

  ghost function AfterSplit(mem: Memory, h: Heap, i: nat, req: nat): Memory
    requires i < |h.free| && Splits(h.free[i], req)
  {
    SplitWrites(mem, PrevAddr(h.free, i), h.free[i].addr, h.free[i].size, AddrAt(h.free, i + 1), req)
  }

  lemma ReadyFacts(mem: Memory, h: Heap, i: nat, req: nat)
    requires Ready(mem, h, i, req)
    ensures var b := h.free[i]; b in h.tiles && b in h.free && b.addr in mem && b.addr + 4 in mem && mem[b.addr] == b.size && b.addr % 8 == 0 && b.addr > 0
    ensures mem[h.free[i].addr + 4] == AddrAt(h.free, i + 1)
    ensures PrevAddr(h.free, i) % 8 == 0
    ensures i > 0 ==> h.free[i - 1] in h.tiles && h.free[i - 1] in h.free && h.free[i - 1] != h.free[i] && PrevAddr(h.free, i) > 0
  {
    var b := h.free[i];
    assert b in h.free;
    Aligned(h, b);
    assert NextField(mem, b) == AddrAt(h.free, i + 1);
    if i > 0 {
      assert h.free[i - 1] in h.free;
      Aligned(h, h.free[i - 1]);
    }
  }

  /** A word of another block is not written, unless it is the link that led to the block being split. */
  lemma SplitSpares(mem: Memory, h: Heap, i: nat, req: nat, c: Block, a: nat)
    requires Ready(mem, h, i, req) && Splits(h.free[i], req) && c in h.tiles && c != h.free[i]
    requires c.addr <= a < c.End() && (i > 0 ==> a != h.free[i - 1].addr + 4)
    ensures var m := AfterSplit(mem, h, i, req); (a in m <==> a in mem) && (a in mem ==> m[a] == mem[a])
  {
    hide SplitWrites, Sized, FreeLinked;
    var b := h.free[i];
    ReadyFacts(mem, h, i, req);
    HeadersApart(h, c, b);
    SplitWritesElsewhere(mem, PrevAddr(h.free, i), b.addr, b.size, AddrAt(h.free, i + 1), req, a);
  }

  lemma SplitSizedAt(mem: Memory, h: Heap, i: nat, req: nat, x: Block)
    requires Ready(mem, h, i, req) && Splits(h.free[i], req)
    requires x == Front(h.free[i], req) || x == Rest(h.free[i], req) || (x in h.tiles && x != h.free[i])
    ensures var m := AfterSplit(mem, h, i, req); x.addr in m && m[x.addr] == x.size
  {
    hide SplitWrites;
    var b := h.free[i];
    ReadyFacts(mem, h, i, req);
    SplitWritesHere(mem, PrevAddr(h.free, i), b.addr, b.size, AddrAt(h.free, i + 1), req);
    if x != Front(b, req) && x != Rest(b, req) {
      Aligned(h, x);
      SplitSpares(mem, h, i, req, x, x.addr);
    }
  }

  /** The link of the j-th free block after the split: the lists differ only at the block that was cut. */
  lemma SplitLink(mem: Memory, h: Heap, i: nat, req: nat, j: nat)
    requires Ready(mem, h, i, req) && Splits(h.free[i], req) && j < |h.free|
    ensures var m := AfterSplit(mem, h, i, req); var f := h.free[i := Rest(h.free[i], req)];
      f[j].addr + 4 in m && NextField(m, f[j]) == AddrAt(f, j + 1)
  {
    hide SplitWrites;
    var b := h.free[i];
    ReadyFacts(mem, h, i, req);
    SplitWritesHere(mem, PrevAddr(h.free, i), b.addr, b.size, AddrAt(h.free, i + 1), req);
    if j == i {
      if i > 0 { HeadersApart(h, h.free[i - 1], b); }
    } else if j + 1 != i {
      ReadyLink(mem, h, i, req, j);
      if i > 0 {
        HeadersApart(h, h.free[j], h.free[i - 1]);
      }
      SplitSpares(mem, h, i, req, h.free[j], h.free[j].addr + 4);
    }
  }

  lemma ReadyLink(mem: Memory, h: Heap, i: nat, req: nat, j: nat)
    requires Ready(mem, h, i, req) && j < |h.free|
    ensures h.free[j] in h.tiles && h.free[j].size >= 8
    ensures h.free[j].addr + 4 in mem && NextField(mem, h.free[j]) == AddrAt(h.free, j + 1)
    ensures j != i ==> h.free[j] != h.free[i]
    ensures i > 0 && j != i - 1 ==> h.free[j] != h.free[i - 1]
  {
    assert h.free[j] in h.free && NextField(mem, h.free[j]) == AddrAt(h.free, j + 1);
    Aligned(h, h.free[j]);
  }

  /** Memory represents the heap: size fields, and the free list from first on. */
  ghost predicate Represents(mem: Memory, first: int, h: Heap) {
    Sized(mem, h.tiles) && FreeLinked(mem, first, h.free)
  }

  lemma SplitSized(mem: Memory, h: Heap, i: nat, req: nat)
    requires Ready(mem, h, i, req) && Splits(h.free[i], req)
    ensures Sized(AfterSplit(mem, h, i, req), Carve(h, i, req).tiles)
  {
    hide AfterSplit, Cut, Tiling, Front, Rest, FreeLinked;
    var b, m := h.free[i], AfterSplit(mem, h, i, req);
    ReadyFacts(mem, h, i, req);
    CutTiling(h.tiles, h.base, h.brk, b, req);
    forall x | x in Cut(h.tiles, b, req) ensures x.addr in m && m[x.addr] == x.size {
      SplitSizedAt(mem, h, i, req, x);
    }
  }

  lemma SplitLinked(mem: Memory, h: Heap, i: nat, req: nat)
    requires Ready(mem, h, i, req) && Splits(h.free[i], req)
    ensures var f := Carve(h, i, req).free; FreeLinked(AfterSplit(mem, h, i, req), AddrAt(f, 0), f)
  {
    hide AfterSplit, NextField, AddrAt, Rest, Inv, Sized;
    var m, f := AfterSplit(mem, h, i, req), h.free[i := Rest(h.free[i], req)];
    forall j | 0 <= j < |f| ensures f[j].addr + 4 in m && NextField(m, f[j]) == AddrAt(f, j + 1) {
      SplitLink(mem, h, i, req, j);
    }
  }

  lemma SplitPayloads(mem: Memory, h: Heap, i: nat, req: nat)
    requires Ready(mem, h, i, req) && Splits(h.free[i], req)
    ensures SamePayloads(mem, AfterSplit(mem, h, i, req), Live(h))
  {
    hide AfterSplit, Inv, Sized, FreeLinked;
    var m := AfterSplit(mem, h, i, req);
    ReadyFacts(mem, h, i, req);
    forall c, a | c in Live(h) && c.addr + HEADER <= a < c.End() ensures (a in mem <==> a in m) && (a in mem ==> mem[a] == m[a]) {
      if i > 0 {
        HeadersApart(h, c, h.free[i - 1]);
      }
      SplitSpares(mem, h, i, req, c, a);
    }
  }

  lemma SplitRepresents(mem: Memory, h: Heap, i: nat, req: nat)
    requires Ready(mem, h, i, req) && Splits(h.free[i], req)
    ensures var h' := Carve(h, i, req); var m := AfterSplit(mem, h, i, req);
      Represents(m, AddrAt(h'.free, 0), h') && SamePayloads(mem, m, Live(h))
  {
    hide Ready, Sized, FreeLinked, SamePayloads, AfterSplit, Carve;
    SplitSized(mem, h, i, req);
    SplitLinked(mem, h, i, req);
    SplitPayloads(mem, h, i, req);
  }

  // ----- The other branch: the whole block leaves the list -----

  ghost function AfterUnlink(mem: Memory, h: Heap, i: nat): Memory
    requires i < |h.free|
  {
    if i == 0 then mem else mem[h.free[i - 1].addr + 4 := AddrAt(h.free, i + 1)]
  }

  lemma UnlinkRepresents(mem: Memory, h: Heap, i: nat, req: nat)
    requires Ready(mem, h, i, req) && !Splits(h.free[i], req)
    ensures var h' := Carve(h, i, req); Represents(AfterUnlink(mem, h, i), AddrAt(h'.free, 0), h')
  {
    hide Inv, AfterUnlink, NextField, AddrAt, Sized, Without;
    var m, f := AfterUnlink(mem, h, i), Without(h.free, i);
    UnlinkSized(mem, h, i, req);
    UnlinkFirst(mem, h, i, req);
    forall j | 0 <= j < |f| ensures f[j].addr + 4 in m && NextField(m, f[j]) == AddrAt(f, j + 1) {
      UnlinkLink(mem, h, i, req, j);
    }
  }

  lemma UnlinkFirst(mem: Memory, h: Heap, i: nat, req: nat)
    requires Ready(mem, h, i, req)
    ensures AddrAt(Without(h.free, i), 0) == if i == 0 then AddrAt(h.free, 1) else AddrAt(h.free, 0)
  {
  }

  lemma UnlinkSized(mem: Memory, h: Heap, i: nat, req: nat)
    requires Ready(mem, h, i, req)
    ensures Sized(AfterUnlink(mem, h, i), h.tiles)
  {
    ReadyFacts(mem, h, i, req);
    var m := AfterUnlink(mem, h, i);
    forall x | x in h.tiles ensures x.addr in m && m[x.addr] == x.size {
      Aligned(h, x);
    }
  }

  lemma UnlinkPayloads(mem: Memory, h: Heap, i: nat, req: nat)
    requires Ready(mem, h, i, req)
    ensures SamePayloads(mem, AfterUnlink(mem, h, i), Live(h))
  {
    hide Inv, Sized, FreeLinked;
    var m := AfterUnlink(mem, h, i);
    ReadyFacts(mem, h, i, req);
    forall c, a | c in Live(h) && c.addr + HEADER <= a < c.End() ensures (a in mem <==> a in m) && (a in mem ==> mem[a] == m[a]) {
      if i > 0 {
        HeadersApart(h, c, h.free[i - 1]);
      }
    }
  }

  lemma WithoutNeighbours(s: seq<Block>, i: nat, j: nat)
    requires i < |s| && j < |s| - 1
    ensures Without(s, i)[j] == s[if j < i then j else j + 1]
    ensures AddrAt(Without(s, i), j + 1) == AddrAt(s, if j + 1 < i then j + 1 else j + 2)
  {
  }

  lemma UnlinkLink(mem: Memory, h: Heap, i: nat, req: nat, j: nat)
    requires Ready(mem, h, i, req) && j < |h.free| - 1
    ensures var m := AfterUnlink(mem, h, i); var f := Without(h.free, i);
      f[j].addr + 4 in m && NextField(m, f[j]) == AddrAt(f, j + 1)
  {
    hide Inv, Sized, FreeLinked, AddrAt, Without;
    var k := if j < i then j else j + 1;
    WithoutNeighbours(h.free, i, j);
    ReadyFacts(mem, h, i, req);
    ReadyLink(mem, h, i, req, k);
    if i > 0 && k != i - 1 {
      HeadersApart(h, h.free[k], h.free[i - 1]);
    }
  }

  // ----- Growing and freeing -----

  /** A new pool is written in front of the list. */
  lemma ExpandRepresents(mem: Memory, first: int, h: Heap)
    requires Inv(h) && Represents(mem, first, h)
    ensures var m := mem[h.brk := POOL_SIZE - HEADER][h.brk + 4 := first];
      Represents(m, h.brk, Expand(h)) && SamePayloads(mem, m, Live(h))
  {
    var m := mem[h.brk := POOL_SIZE - HEADER][h.brk + 4 := first];
    var b := Block(h.brk, POOL_SIZE - HEADER);
    TilesInside(h.tiles, h.base, h.brk);
    forall x | x in h.tiles ensures x.addr + 16 <= h.brk && x.addr in m && m[x.addr] == x.size {
      Aligned(h, x);
    }
    PushLinks(mem, m, first, h, b);
  }

  lemma PushLinks(mem: Memory, m: Memory, first: int, h: Heap, b: Block)
    requires Inv(h) && FreeLinked(mem, first, h.free)
    requires b.addr + 4 in m && m[b.addr + 4] == first
    requires forall x | x in h.free && x.addr + 4 in mem :: x.addr + 4 in m && m[x.addr + 4] == mem[x.addr + 4]
    ensures FreeLinked(m, b.addr, [b] + h.free)
  {
    var f := [b] + h.free;
    forall j | 0 <= j < |f| ensures f[j].addr + 4 in m && NextField(m, f[j]) == AddrAt(f, j + 1) {
      if j > 0 {
        assert f[j] == h.free[j - 1] && f[j] in h.free;
        assert NextField(mem, h.free[j - 1]) == AddrAt(h.free, j);
      }
    }
  }

  /** free writes only the next field of the block it is given. */
  lemma FreeRepresents(mem: Memory, first: int, h: Heap, b: Block)
    requires Inv(h) && Represents(mem, first, h) && b in Live(h)
    ensures var m := mem[b.addr + 4 := first];
      Represents(m, b.addr, Free(h, b)) && SamePayloads(mem, m, Live(h) - {b})
  {
    var m := mem[b.addr + 4 := first];
    Aligned(h, b);
    forall x | x in h.tiles ensures x.addr in m && m[x.addr] == x.size {
      Aligned(h, x);
    }
    forall x | x in h.tiles && x != b ensures Apart(x, b) && x.addr != b.addr {
      HeadersApart(h, x, b);
    }
    PushLinks(mem, m, first, h, b);
  }

  function Max(a: nat, b: nat): nat { if a >= b then a else b }

  lemma SamePayloadsIs(m: Memory, live: set<Block>)
    ensures SamePayloads(m, m, live)
  {
  }

  lemma SamePayloadsTrans(m: Memory, m': Memory, m'': Memory, live: set<Block>)
    requires SamePayloads(m, m', live) && SamePayloads(m', m'', live)
    ensures SamePayloads(m, m'', live)
  {
  }

  lemma ExpandLive(h: Heap)
    requires Inv(h)
    ensures h.brk + POOL_SIZE <= h.top ==> Live(Expand(h)) == Live(h) && Expand(h).top == h.top && Expand(h).brk > h.brk
  {
    if h.brk + POOL_SIZE <= h.top {
      ExpandInv(h);
    }
  }

  lemma HeapStart(h: Heap)
    requires Inv(h)
    ensures h.brk > 0 && AlignUp(POOL_SIZE) == POOL_SIZE
  {
  }

  class Allocator {
    var mem: Memory
    var freeList: int    // 0 is the null pointer
    var heapBrk: nat
    var heapMax: nat
    ghost var heap: Heap

    ghost predicate Valid()
      reads this
    {
      && Inv(heap) && heapBrk == heap.brk && heapMax == heap.top
      && Represents(mem, freeList, heap)
    }

    /** The globals at boot; end is the address of the linker symbol _end. */
    constructor (end: nat)
      requires end % 8 == 0 && end > 0
      ensures Valid() && heap == Heap(end, 0, end, [], [])
    {
      mem, freeList, heapBrk, heapMax := map[], 0, end, 0;
      heap := Heap(end, 0, end, [], []);
    }

    /** request_memory: move heap_brk, or fail with 0. */
    method RequestMemory(size: nat) returns (p: nat)
      requires size < TWO_32 && heapBrk > 0
      modifies this`heapBrk
      ensures var s := AlignUp(size);
        if old(heapBrk) + s > heapMax then p == 0 && heapBrk == old(heapBrk) else p == old(heapBrk) && heapBrk == old(heapBrk) + s
    {
      var s := AlignUp(size);
      if heapBrk + s > heapMax {
        return 0;
      }
      p := heapBrk;
      heapBrk := heapBrk + s;
    }

    /** expand_heap: one more 16 MiB pool at the head of the list; -1 when there is no room. */
    method ExpandHeap() returns (r: int)
      requires Valid()
      modifies this
      ensures Valid()
      ensures if old(heap.brk) + POOL_SIZE <= old(heap.top) then r == 0 && heap == Expand(old(heap)) else r == -1 && heap == old(heap) && mem == old(mem)
      ensures SamePayloads(old(mem), mem, Live(old(heap)))
    {
      hide Inv, Represents, Live, SamePayloads;
      ghost var h := heap;
      HeapStart(h);
      SamePayloadsIs(mem, Live(h));
      var p := RequestMemory(POOL_SIZE);
      if p == 0 {
        return -1;
      }
      ExpandInv(h);
      ExpandRepresents(mem, freeList, h);
      mem, freeList, heap := mem[p := POOL_SIZE - HEADER][p + 4 := freeList], p, Expand(h);
      r := 0;
    }

    /** malloc_init: the heap gets total_mb megabytes, of which the first pool is requested at once. */
    method MallocInit(totalMb: nat)
      requires Valid() && heap.tiles == [] && heap.free == []
      requires heap.base + totalMb * 1024 * 1024 + POOL_SIZE < 0x1_0000_0000
      modifies this
      ensures Valid() && heap.base == old(heap.base) && heap.top == heap.base + totalMb * 1024 * 1024
      ensures Live(heap) == {}
      ensures |heap.free| == if totalMb >= 16 then 1 else 0
    {
      var totalBytes := totalMb * 1024 * 1024;
      heapMax := heapBrk + totalBytes;
      heap := heap.(top := heapMax);
      assert heap.base == heap.brk;
      var r := ExpandHeap();
    }

    /** malloc */
    method Malloc(size: nat) returns (p: nat)
      requires Valid() && size < TWO_32
      modifies this
      ensures Valid()
      ensures size == 0 ==> p == 0 && heap == old(heap)
      ensures size > 0 ==> (heap, p) == Alloc(old(heap), Request(size))
      ensures heap == Step(old(heap), Op.Malloc(size))
      ensures 0 < size <= MAX_REQUEST ==>
        (p == 0 <==> (forall b | b in old(heap).free :: b.size < size) && (old(heap).brk + 0x100_0000 > old(heap).top || size > 0xFF_FFF8))
      ensures SamePayloads(old(mem), mem, Live(old(heap))) && SameBytes(old(mem), mem, Live(old(heap)))
      decreases heap.top - heap.brk
    {
      hide Inv, Represents, Alloc, SamePayloads, SameBytes, Live, Carve, FirstFit, Expand, Found;
      ghost var h, m := heap, mem;
      SamePayloadsIs(mem, Live(heap));
      WordsAreBytes(h, m, mem, Live(h));
      if size == 0 {
        return 0;
      }
      if size <= MAX_REQUEST {
        MallocBySize(h, size);
      }
      var reqSize := Max(AlignUp(size), 8);
      var prev, curr;
      ghost var i;
      prev, curr, i := Search(reqSize);
      AllocStep(h, reqSize);
      if curr != 0 {
        FoundByFit(prev, curr, reqSize, i);
        Take(prev, curr, reqSize, i);
        WordsAreBytes(h, m, mem, Live(h));
        return curr + HEADER;
      }
      ExpandLive(h);
      var r := ExpandHeap();
      if r == 0 {
        ghost var m' := mem;
        p := Malloc(size);
        SamePayloadsTrans(m, m', mem, Live(h));
        WordsAreBytes(h, m, mem, Live(h));
        return;
      }
      WordsAreBytes(h, m, mem, Live(h));
      p := 0;
    }

    lemma FoundByFit(prev: int, curr: int, reqSize: nat, i: nat)
      requires Valid() && i == FirstFit(heap.free, reqSize) < |heap.free| && reqSize % 8 == 0 && reqSize >= 8
      requires curr == AddrAt(heap.free, i) && prev == PrevAddr(heap.free, i)
      ensures Found(prev, curr, reqSize, i)
      ensures curr == heap.free[i].addr
    {
    }

    /** The first-fit loop of malloc: the first block big enough and the one before it, or 0. */
    method Search(reqSize: nat) returns (prev: int, curr: int, ghost i: nat)
      requires Valid()
      ensures i == FirstFit(heap.free, reqSize)
      ensures curr == AddrAt(heap.free, FirstFit(heap.free, reqSize)) && prev == PrevAddr(heap.free, FirstFit(heap.free, reqSize))
      ensures curr == 0 <==> i == |heap.free|
    {
      prev, curr, i := 0, freeList, 0;
      while curr != 0
        invariant i <= |heap.free| && curr == AddrAt(heap.free, i) && prev == PrevAddr(heap.free, i)
        invariant forall j | 0 <= j < i :: heap.free[j].size < reqSize
        decreases |heap.free| - i
      {
        assert heap.free[i] in heap.free && NextField(mem, heap.free[i]) == AddrAt(heap.free, i + 1);
        if mem[curr] >= reqSize {
          break;
        }
        prev, curr, i := curr, mem[curr + 4], i + 1;
      }
      if i < |heap.free| {
        assert heap.free[i] in heap.free;
        Aligned(heap, heap.free[i]);
      }
      FirstFitIs(heap.free, reqSize, i);
    }

    ghost predicate Found(prev: int, curr: int, reqSize: nat, i: nat)
      reads this
    {
      && Ready(mem, heap, i, reqSize) && freeList == AddrAt(heap.free, 0)
      && heapBrk == heap.brk && heapMax == heap.top
      && curr == heap.free[i].addr && prev == PrevAddr(heap.free, i)
    }

    /** The body of the loop once a block is found: split it or unlink it. */
    method Take(prev: int, curr: int, reqSize: nat, ghost i: nat)
      requires Found(prev, curr, reqSize, i)
      modifies this
      ensures Valid() && heap == Carve(old(heap), i, reqSize)
      ensures SamePayloads(old(mem), mem, Live(old(heap)))
    {
      hide SamePayloads, Live, Carve, Valid, Inv, Sized, FreeLinked;
      ReadyFacts(mem, heap, i, reqSize);
      if mem[curr] - reqSize >= HEADER + 8 {
        TakeFront(prev, curr, reqSize, i);
      } else {
        TakeWhole(prev, curr, reqSize, i);
      }
    }

    method TakeFront(prev: int, curr: int, reqSize: nat, ghost i: nat)
      requires Found(prev, curr, reqSize, i) && Splits(heap.free[i], reqSize)
      modifies this
      ensures Valid() && heap == Carve(old(heap), i, reqSize)
      ensures SamePayloads(old(mem), mem, Live(old(heap)))
    {
      hide Inv, Represents, Live, Sized, FreeLinked, SamePayloads, Cut;
      ReadyFacts(mem, heap, i, reqSize);
      CarveInv(heap, i, reqSize);
      SplitRepresents(mem, heap, i, reqSize);
      var newFree := curr + HEADER + reqSize;
      var m := mem[newFree := mem[curr] - reqSize - HEADER][newFree + 4 := mem[curr + 4]][curr := reqSize];
      if prev == 0 {
        mem, freeList, heap := m, newFree, Carve(heap, i, reqSize);
      } else {
        mem, heap := m[prev + 4 := newFree], Carve(heap, i, reqSize);
      }
    }

    method TakeWhole(prev: int, curr: int, reqSize: nat, ghost i: nat)
      requires Found(prev, curr, reqSize, i) && !Splits(heap.free[i], reqSize)
      modifies this
      ensures Valid() && heap == Carve(old(heap), i, reqSize)
      ensures SamePayloads(old(mem), mem, Live(old(heap)))
    {
      hide Inv, Represents, Live, Sized, FreeLinked, SamePayloads, Without;
      ReadyFacts(mem, heap, i, reqSize);
      CarveInv(heap, i, reqSize);
      UnlinkRepresents(mem, heap, i, reqSize);
      UnlinkFirst(mem, heap, i, reqSize);
      UnlinkPayloads(mem, heap, i, reqSize);
      if prev == 0 {
        freeList, heap := mem[curr + 4], Carve(heap, i, reqSize);
      } else {
        mem, heap := mem[prev + 4 := mem[curr + 4]], Carve(heap, i, reqSize);
      }
    }

    /** free, of the null pointer or of the payload of a live block b. */
    method Free(ptr: nat, ghost b: Block)
      requires Valid() && (ptr != 0 ==> b in Live(heap) && ptr == b.addr + HEADER)
      modifies this
      ensures Valid()
      ensures heap == if ptr == 0 then old(heap) else HeapModel.Free(old(heap), b)
      ensures ptr != 0 ==> heap == Step(old(heap), FreeAt(b)) && heap.free == [b] + old(heap.free)
      ensures SamePayloads(old(mem), mem, if ptr == 0 then Live(old(heap)) else Live(old(heap)) - {b})
      ensures SameBytes(old(mem), mem, if ptr == 0 then Live(old(heap)) else Live(old(heap)) - {b})
    {
      hide Inv, Represents, Live, SamePayloads, SameBytes;
      ghost var m, h := mem, heap;
      if ptr == 0 {
        SamePayloadsIs(mem, Live(heap));
        WordsAreBytes(h, m, mem, Live(h));
        return;
      }
      FreeInv(heap, b);
      FreeRepresents(mem, freeList, heap, b);
      WordsAreBytes(h, m, mem[ptr - HEADER + 4 := freeList], Live(h) - {b});
      var block := ptr - HEADER;
      mem := mem[block + 4 := freeList];
      freeList := block;
      heap := HeapModel.Free(heap, b);
    }

    /** The program stores a word in a payload it owns. */
    method Store(a: nat, v: nat, ghost b: Block)
      requires Valid() && b in Live(heap) && b.addr + HEADER <= a < b.End() && a % 4 == 0
      modifies this`mem
      ensures Valid() && mem == old(mem)[a := v]
    {
      StoreRepresents(mem, freeList, heap, b, a, v);
      mem := mem[a := v];
    }
  }

  lemma {:induction false} FirstFitIs(free: seq<Block>, req: nat, i: nat)
    requires i <= |free| && (forall j | 0 <= j < i :: free[j].size < req) && (i < |free| ==> free[i].size >= req)
    ensures FirstFit(free, req) == i
  {
    if i < |free| && i > 0 {
      assert free[0].size < req;
      FirstFitIs(free[1..], req, i - 1);
    } else if i == |free| && i > 0 {
      assert free[0].size < req;
      FirstFitIs(free[1..], req, i - 1);
    }
  }

  lemma HeaderSpared(h: Heap, b: Block, a: nat, x: Block)
    requires Inv(h) && b in Live(h) && b.addr + HEADER <= a < b.End() && x in h.tiles
    ensures x.addr != a && x.addr + 4 != a
  {
    if x != b { HeadersApart(h, x, b); }
  }

  lemma FreeIsTile(h: Heap, j: nat)
    requires Inv(h) && j < |h.free|
    ensures h.free[j] in h.tiles
  {
    assert h.free[j] in h.free;
  }

  lemma StoreRepresents(mem: Memory, first: int, h: Heap, b: Block, a: nat, v: nat)
    requires Inv(h) && Represents(mem, first, h) && b in Live(h) && b.addr + HEADER <= a < b.End()
    ensures Represents(mem[a := v], first, h)
  {
    hide Inv, Live;
    forall x | x in h.tiles ensures x.addr != a {
      HeaderSpared(h, b, a, x);
    }
    forall j | 0 <= j < |h.free| ensures h.free[j].addr + 4 != a && h.free[j].addr + 4 in mem && NextField(mem, h.free[j]) == AddrAt(h.free, j + 1) {
      assert NextField(mem, h.free[j]) == AddrAt(h.free, j + 1);
      FreeIsTile(h, j);
      HeaderSpared(h, b, a, h.free[j]);
    }
  }
}
