// The heap of malloc.c as a value: the blocks that tile it and the free list.
module HeapModel {
  import opened Common

  const HEADER: nat := 8
  const POOL_SIZE: nat := 0x100_0000
  const MAX_REQUEST: nat := 0xFFFF_FFF8

  /** A block: the address of its header and the size of its payload. */
  datatype Block = Block(addr: nat, size: nat) {
    function End(): nat { addr + HEADER + size }
  }

  /** base is _end, top is heap_max, brk is heap_brk; free is in list order. */
  datatype Heap = Heap(base: nat, top: nat, brk: nat, tiles: seq<Block>, free: seq<Block>)

  // ----- Invariant -----

  ghost predicate Tiling(tiles: seq<Block>, from: nat, to: nat) {
    if tiles == [] then from == to
    else tiles[0].addr == from && tiles[0].End() <= to && Tiling(tiles[1..], tiles[0].End(), to)
  }

  ghost predicate GoodBlock(b: Block, base: nat) {
    b.size % 8 == 0 && b.size >= 8 && b.addr % 8 == 0 && b.addr >= base && OnePool(b, base)
  }

  /** The block does not reach from one pool into the next. */
  ghost predicate OnePool(b: Block, base: nat)
    requires b.addr >= base
  {
    (b.addr - base) / POOL_SIZE == (b.End() - 1 - base) / POOL_SIZE
  }

  ghost predicate Inv(h: Heap) {
    && h.base % 8 == 0 && h.base > 0
    && (h.brk <= h.top || h.tiles == [])
    && h.brk >= h.base && (h.brk - h.base) % POOL_SIZE == 0
    && Tiling(h.tiles, h.base, h.brk)
    && (forall b | b in h.tiles :: GoodBlock(b, h.base))
    && Injective(h.free)
    && (forall b | b in h.free :: b in h.tiles)
  }

  ghost function Live(h: Heap): set<Block> {
    set b | b in h.tiles && b !in h.free
  }

  // ----- Operations -----

  /** ALIGN_UP in 32 bits: 0 for the seven largest sizes. */
  function AlignUp(size: nat): (r: nat)
    ensures r % 8 == 0 && (size <= MAX_REQUEST ==> size <= r < size + 8) && (MAX_REQUEST < size < TWO_32 ==> r == 0)
  {
    (size + 7) % TWO_32 / 8 * 8
  }

  /** What malloc looks for: the aligned size, but at least 8. */
  function Request(size: nat): (r: nat)
    ensures r % 8 == 0 && r >= 8 && (0 < size <= MAX_REQUEST ==> size <= r < size + 8) && (MAX_REQUEST < size < TWO_32 ==> r == 8)
  {
    if AlignUp(size) < 8 then 8 else AlignUp(size)
  }

  /** Position of the first free block that fits, or the length of the list. */
  function FirstFit(free: seq<Block>, req: nat): (i: nat)
    ensures i <= |free|
    ensures i < |free| ==> free[i].size >= req
    ensures forall j | 0 <= j < i :: free[j].size < req
  {
    if free == [] then 0
    else if free[0].size >= req then 0
    else 1 + FirstFit(free[1..], req)
  }

  function Front(b: Block, req: nat): Block { Block(b.addr, req) }

  function Rest(b: Block, req: nat): Block
    requires b.size >= req + 2 * HEADER
  {
    Block(b.addr + HEADER + req, b.size - req - HEADER)
  }

  predicate Splits(b: Block, req: nat) { b.size >= req + 2 * HEADER }

  /** The tiles with b cut in two. */
  ghost function Cut(tiles: seq<Block>, b: Block, req: nat): seq<Block>
    requires Splits(b, req)
  {
    if tiles == [] then []
    else if tiles[0] == b then [Front(b, req), Rest(b, req)] + tiles[1..]
    else [tiles[0]] + Cut(tiles[1..], b, req)
  }

  /** The block that an allocation of req bytes from the i-th free block hands out. */
  function Handed(b: Block, req: nat): Block {
    if Splits(b, req) then Front(b, req) else b
  }

  ghost function Without(s: seq<Block>, i: nat): (r: seq<Block>)
    requires i < |s|
    ensures |r| == |s| - 1
  {
    s[..i] + s[i + 1..]
  }

  /** Take req bytes from the i-th free block: its tail replaces it in the list, or it leaves the list. */
  ghost function Carve(h: Heap, i: nat, req: nat): Heap
    requires i < |h.free|
  {
    var b := h.free[i];
    if Splits(b, req) then h.(tiles := Cut(h.tiles, b, req), free := h.free[i := Rest(b, req)])
    else h.(free := Without(h.free, i))
  }

  /** expand_heap: one more pool, at the head of the free list. */
  ghost function Expand(h: Heap): Heap {
    var b := Block(h.brk, POOL_SIZE - HEADER);
    h.(brk := h.brk + POOL_SIZE, tiles := h.tiles + [b], free := [b] + h.free)
  }

  /** malloc of an aligned nonzero request: the new heap and the payload address, or 0. */
  ghost function Alloc(h: Heap, req: nat): (Heap, nat)
    decreases h.top - h.brk
  {
    var i := FirstFit(h.free, req);
    if i < |h.free| then (Carve(h, i, req), h.free[i].addr + HEADER)
    else if h.brk + POOL_SIZE <= h.top then Alloc(Expand(h), req)
    else (h, 0)
  }

  lemma AllocStep(h: Heap, req: nat)
    ensures Alloc(h, req) ==
      if FirstFit(h.free, req) < |h.free| then (Carve(h, FirstFit(h.free, req), req), h.free[FirstFit(h.free, req)].addr + HEADER)
      else if h.brk + POOL_SIZE <= h.top then Alloc(Expand(h), req)
      else (h, 0)
  {
  }

  ghost function Free(h: Heap, b: Block): Heap {
    h.(free := [b] + h.free)
  }

  // ----- Tilings -----

  lemma {:induction false} TilesInside(tiles: seq<Block>, from: nat, to: nat)
    requires Tiling(tiles, from, to)
    ensures forall b | b in tiles :: from <= b.addr && b.End() <= to
  {
    if tiles != [] {
      TilesInside(tiles[1..], tiles[0].End(), to);
    }
  }

  ghost predicate Apart(b: Block, c: Block) {
    b.End() <= c.addr || c.End() <= b.addr
  }

  /** Different tiles do not overlap. */
  lemma {:induction false} TilesApart(tiles: seq<Block>, from: nat, to: nat)
    requires Tiling(tiles, from, to)
    ensures forall b, c | b in tiles && c in tiles && b != c :: Apart(b, c)
  {
    if tiles != [] {
      TilesInside(tiles[1..], tiles[0].End(), to);
      TilesApart(tiles[1..], tiles[0].End(), to);
    }
  }

  /** Address a lies in one of the tiles. */
  ghost predicate Covered(tiles: seq<Block>, a: nat) {
    exists b :: b in tiles && b.addr <= a < b.End()
  }

  /** Every address of the heap lies in a tile. */
  lemma {:induction false} TilesCover(tiles: seq<Block>, from: nat, to: nat, a: nat)
    requires Tiling(tiles, from, to) && from <= a < to
    ensures Covered(tiles, a)
  {
    if tiles[0].End() <= a {
      TilesCover(tiles[1..], tiles[0].End(), to, a);
      var b :| b in tiles[1..] && b.addr <= a < b.End();
      assert b in tiles;
    }
  }

  /** Payload bytes plus headers of all tiles. */
  ghost function TotalBytes(tiles: seq<Block>): nat {
    if tiles == [] then 0 else HEADER + tiles[0].size + TotalBytes(tiles[1..])
  }

  lemma {:induction false} TilesConserve(tiles: seq<Block>, from: nat, to: nat)
    requires Tiling(tiles, from, to)
    ensures from <= to && TotalBytes(tiles) == to - from
  {
    if tiles != [] {
      TilesConserve(tiles[1..], tiles[0].End(), to);
    }
  }

  lemma {:induction false} CutTiling(tiles: seq<Block>, from: nat, to: nat, b: Block, req: nat)
    requires Tiling(tiles, from, to) && b in tiles && Splits(b, req)
    ensures Tiling(Cut(tiles, b, req), from, to)
    ensures forall x | x in Cut(tiles, b, req) :: x == Front(b, req) || x == Rest(b, req) || (x in tiles && x != b)
    ensures forall x | x in tiles && x != b :: x in Cut(tiles, b, req)
    ensures Front(b, req) in Cut(tiles, b, req) && Rest(b, req) in Cut(tiles, b, req)
  {
    var t := Cut(tiles, b, req);
    if tiles[0] == b {
      var r := tiles[1..];
      TilesInside(r, b.End(), to);
      assert t[0] == Front(b, req) && t[1] == Rest(b, req) && t[1..][1..] == r;
      assert t[1..][0] == Rest(b, req) && Rest(b, req).addr == Front(b, req).End();
    } else {
      CutTiling(tiles[1..], tiles[0].End(), to, b, req);
      TilesInside(tiles[1..], tiles[0].End(), to);
      assert t[1..] == Cut(tiles[1..], b, req);
      assert forall x | x in t :: x == tiles[0] || x in t[1..];
    }
  }

  lemma {:induction false} ExpandTiling(tiles: seq<Block>, from: nat, to: nat, b: Block)
    requires Tiling(tiles, from, to) && b.addr == to
    ensures Tiling(tiles + [b], from, b.End())
  {
    if tiles == [] {
      assert ([] + [b])[1..] == [];
    } else {
      ExpandTiling(tiles[1..], tiles[0].End(), to, b);
      assert (tiles + [b])[1..] == tiles[1..] + [b];
    }
  }

  // ----- Every operation keeps the invariant -----

  lemma CarveInv(h: Heap, i: nat, req: nat)
    requires Inv(h) && i < |h.free| && h.free[i].size >= req && req % 8 == 0 && req >= 8
    ensures Inv(Carve(h, i, req))
    ensures Handed(h.free[i], req) !in Live(h)
    ensures Live(Carve(h, i, req)) == Live(h) + {Handed(h.free[i], req)}
  {
    var b := h.free[i];
    var h' := Carve(h, i, req);
    assert b in h.free;
    TilesApart(h.tiles, h.base, h.brk);
    if Splits(b, req) {
      CutTiling(h.tiles, h.base, h.brk, b, req);
      CutIsNew(h, b, req);
      FreeUpdate(h.free, i, Rest(b, req));
    } else {
      FreeRemove(h.free, i);
    }
    LiveAfterCarve(h, i, req);
  }

  /** Neither half of a cut block was a tile before. */
  lemma CutIsNew(h: Heap, b: Block, req: nat)
    requires Inv(h) && b in h.tiles && Splits(b, req) && req % 8 == 0 && req >= 8
    ensures Front(b, req) !in h.tiles && Rest(b, req) !in h.tiles && Front(b, req) != Rest(b, req)
    ensures GoodBlock(Front(b, req), h.base) && GoodBlock(Rest(b, req), h.base)
  {
    hide GoodBlock;
    TilesApart(h.tiles, h.base, h.brk);
    PartsAreGood(b, req, h.base);
    assert !Apart(b, Front(b, req)) && !Apart(b, Rest(b, req));
  }

  lemma PartsAreGood(b: Block, req: nat, base: nat)
    requires GoodBlock(b, base) && Splits(b, req) && req % 8 == 0 && req >= 8
    ensures GoodBlock(Front(b, req), base) && GoodBlock(Rest(b, req), base)
  {
    hide OnePool;
    PartsInPool(b, req, base);
  }

  lemma PartsInPool(b: Block, req: nat, base: nat)
    requires b.addr >= base && OnePool(b, base) && Splits(b, req) && req >= 8
    ensures OnePool(Front(b, req), base) && OnePool(Rest(b, req), base)
  {
    InOnePool(b.addr - base, b.addr + HEADER + req - base, b.End() - 1 - base);
    InOnePool(b.addr - base, b.addr + HEADER + req - 1 - base, b.End() - 1 - base);
  }

  lemma InOnePool(x: nat, y: nat, z: nat)
    requires x <= y <= z && x / POOL_SIZE == z / POOL_SIZE
    ensures y / POOL_SIZE == x / POOL_SIZE
  {
  }

  lemma FreeUpdate(free: seq<Block>, i: nat, x: Block)
    requires Injective(free) && i < |free| && x !in free
    ensures Injective(free[i := x]) && free[i] !in free[i := x]
    ensures forall c | c in free[i := x] :: c == x || (c in free && c != free[i])
    ensures forall c | c in free && c != free[i] :: c in free[i := x]
    ensures x in free[i := x]
  {
    var f := free[i := x];
    assert f[i] == x;
    forall c | c in free && c != free[i] ensures c in f {
      var j :| 0 <= j < |free| && free[j] == c;
      assert f[j] == c;
    }
  }

  lemma FreeRemove(free: seq<Block>, i: nat)
    requires Injective(free) && i < |free|
    ensures Injective(Without(free, i)) && free[i] !in Without(free, i)
    ensures forall c | c in Without(free, i) :: c in free && c != free[i]
    ensures forall c | c in free && c != free[i] :: c in Without(free, i)
  {
    var f := Without(free, i);
    assert forall j | 0 <= j < |f| :: f[j] == free[if j < i then j else j + 1];
    forall c | c in free && c != free[i] ensures c in f {
      var j :| 0 <= j < |free| && free[j] == c;
      assert f[if j < i then j else j - 1] == c;
    }
  }

  lemma LiveAfterCarve(h: Heap, i: nat, req: nat)
    requires Inv(h) && i < |h.free| && h.free[i].size >= req && req % 8 == 0 && req >= 8
    ensures Handed(h.free[i], req) !in Live(h)
    ensures Live(Carve(h, i, req)) == Live(h) + {Handed(h.free[i], req)}
  {
    var b := h.free[i];
    assert b in h.free;
    if Splits(b, req) {
      CutTiling(h.tiles, h.base, h.brk, b, req);
      CutIsNew(h, b, req);
      assert Rest(b, req) !in h.free && Front(b, req) !in h.free;
      FreeUpdate(h.free, i, Rest(b, req));
    } else {
      FreeRemove(h.free, i);
    }
  }

  lemma ExpandInv(h: Heap)
    requires Inv(h) && h.brk + POOL_SIZE <= h.top
    ensures Inv(Expand(h)) && Live(Expand(h)) == Live(h)
  {
    var b := Block(h.brk, POOL_SIZE - HEADER);
    ExpandTiling(h.tiles, h.base, h.brk, b);
    TilesInside(h.tiles, h.base, h.brk);
    PoolBlock(h.base, h.brk);
    assert b !in h.tiles;
    PushInjective(b, h.free);
  }

  lemma PoolBlock(base: nat, brk: nat)
    requires brk >= base && (brk - base) % POOL_SIZE == 0 && base % 8 == 0
    ensures GoodBlock(Block(brk, POOL_SIZE - HEADER), base) && (brk + POOL_SIZE - base) % POOL_SIZE == 0
  {
  }

  lemma PushInjective(b: Block, free: seq<Block>)
    requires Injective(free) && b !in free
    ensures Injective([b] + free)
  {
    var f := [b] + free;
    forall i, j | 0 <= i < j < |f| ensures f[i] != f[j] {
      assert f[j] == free[j - 1] && free[j - 1] in free;
      assert i == 0 || f[i] == free[i - 1];
    }
  }

  /** What the caller of malloc gets: nothing, or one new live block big enough and at most 8 bytes too big. */
  ghost predicate AllocOk(h: Heap, req: nat, h': Heap, p: nat) {
    && Inv(h') && h'.base == h.base && h'.top == h.top && h.brk <= h'.brk
    && (p == 0 ==> Live(h') == Live(h))
    && (p != 0 ==> exists b: Block :: NewLive(h, req, h', p, b))
  }

  ghost predicate NewLive(h: Heap, req: nat, h': Heap, p: nat, b: Block) {
    && p == b.addr + HEADER && req <= b.size <= req + 8
    && b !in Live(h) && Live(h') == Live(h) + {b}
  }

  lemma {:induction false} AllocInv(h: Heap, req: nat)
    requires Inv(h) && req % 8 == 0 && req >= 8
    ensures var (h', p) := Alloc(h, req); AllocOk(h, req, h', p)
    decreases h.top - h.brk
  {
    var i := FirstFit(h.free, req);
    var (h', p) := Alloc(h, req);
    if i < |h.free| {
      CarveInv(h, i, req);
      assert h.free[i] in h.free;
      assert NewLive(h, req, h', p, Handed(h.free[i], req));
    } else if h.brk + POOL_SIZE <= h.top {
      ExpandInv(h);
      AllocInv(Expand(h), req);
      if p != 0 {
        var b :| NewLive(Expand(h), req, h', p, b);
        assert NewLive(h, req, h', p, b);
      }
    }
  }

  /** Of malloc(size), in terms of the size asked for: it fails exactly if no free block holds that many bytes, and no pool is left or
      the size exceeds a pool; otherwise the block has that many bytes and at most 15 more, and is the first that holds them in list
      order, or begins a new pool. */
  lemma MallocBySize(h: Heap, size: nat)
    requires Inv(h) && 0 < size <= MAX_REQUEST
    ensures var (h', p) := Alloc(h, Request(size));
      && (p == 0 <==> (forall b | b in h.free :: b.size < size) && (h.brk + 0x100_0000 > h.top || size > 0xFF_FFF8))
      && (p != 0 ==> exists b :: NewLive(h, Request(size), h', p, b) && p == b.addr + 8 && size <= b.size <= size + 15)
      && (forall i | 0 <= i < |h.free| && h.free[i].size >= size && (forall j | 0 <= j < i :: h.free[j].size < size) :: p == h.free[i].addr + 8)
      && ((forall b | b in h.free :: b.size < size) && p != 0 ==> p == h.brk + 8)
  {
    hide Inv, Alloc, Request;
    var req := Request(size);
    AllocInv(h, req);
    AllocFails(h, req);
    AllocPlace(h, req);
    forall b | b in h.free ensures b.size < req <==> b.size < size {
      FreeIsGood(h, b);
    }
    var i := FirstFit(h.free, req);
    forall k | 0 <= k < |h.free| && h.free[k].size >= size && (forall j | 0 <= j < k :: h.free[j].size < size) ensures k == i {
      assert h.free[k] in h.free;
      assert i < |h.free| ==> h.free[i] in h.free;
    }
    if forall b | b in h.free :: b.size < size {
      FirstFitNone(h.free, req);
    }
  }

  lemma FreeIsGood(h: Heap, b: Block)
    requires Inv(h) && b in h.free
    ensures b.size % 8 == 0
  {
    assert b in h.tiles;
  }

  /** The seven largest sizes wrap around when they are aligned: malloc looks for 8 bytes, and hands out 8 to 16. */
  lemma WrappedSize(h: Heap, size: nat)
    requires Inv(h) && MAX_REQUEST < size < TWO_32
    ensures Alloc(h, Request(size)) == Alloc(h, 8)
    ensures var (h', p) := Alloc(h, 8); p != 0 ==> exists b :: NewLive(h, 8, h', p, b) && b.size <= 16 < size
  {
    hide Inv, Alloc;
    AllocInv(h, 8);
  }

  /** The free list keeps its order: the block that is taken is replaced by what is left of it, if anything; a new pool goes in front. */
  lemma FreeListAfter(h: Heap, req: nat)
    requires Inv(h) && req % 8 == 0 && req >= 8
    ensures var f, f' := h.free, Alloc(h, req).0.free; var i := FirstFit(f, req);
      if i < |f| then
        f' == f[..i] + (if f[i].size >= req + 16 then [Block(f[i].addr + 8 + req, f[i].size - 8 - req)] else []) + f[i + 1..]
      else if h.brk + POOL_SIZE > h.top then f' == f
      else if req > POOL_SIZE - HEADER then PoolsInFront(f, f')
      else f' == (if POOL_SIZE - HEADER >= req + 16 then [Block(h.brk + 8 + req, POOL_SIZE - HEADER - 8 - req)] else []) + f
    decreases h.top - h.brk
  {
    hide Inv, Alloc, FirstFit, Expand, Carve, PoolsInFront;
    var f, i := h.free, FirstFit(h.free, req);
    AllocStep(h, req);
    if i < |f| {
      FreeIsGoodAt(h, i);
      CarvedList(h, i, req);
    } else if h.brk + POOL_SIZE <= h.top {
      var e := Expand(h);
      ExpandInv(h);
      ExpandedList(h, req);
      AllocStep(e, req);
      if req <= POOL_SIZE - HEADER {
        CarvedList(e, 0, req);
      } else {
        FreeListAfter(e, req);
        MorePools(h, Alloc(e, req).0.free);
      }
    }
  }

  lemma CarvedList(h: Heap, i: nat, req: nat)
    requires i < |h.free|
    ensures var b := h.free[i];
      Carve(h, i, req).free == h.free[..i] + (if b.size >= req + 16 then [Block(b.addr + 8 + req, b.size - 8 - req)] else []) + h.free[i + 1..]
  {
  }

  lemma ExpandedList(h: Heap, req: nat)
    requires FirstFit(h.free, req) == |h.free|
    ensures var e := Expand(h);
      && e.brk == h.brk + POOL_SIZE && e.top == h.top && |e.free| == |h.free| + 1
      && e.free[0] == Block(h.brk, POOL_SIZE - HEADER) && e.free[..0] == [] && e.free[1..] == h.free
      && FirstFit(e.free, req) == if req <= POOL_SIZE - HEADER then 0 else |e.free|
  {
    if req > POOL_SIZE - HEADER {
      FirstFitNone(Expand(h).free, req);
    }
  }

  lemma MorePools(h: Heap, f: seq<Block>)
    requires f == Expand(h).free || PoolsInFront(Expand(h).free, f)
    ensures PoolsInFront(h.free, f)
  {
    var e := Expand(h).free;
    assert e[1..] == h.free;
    if PoolsInFront(e, f) {
      assert f[|f| - |e|..][1..] == f[|f| - |h.free|..];
      assert f[|f| - |e|] == e[0];
    }
  }

  /** Pools have been put in front of the list. */
  ghost predicate PoolsInFront(f: seq<Block>, f': seq<Block>) {
    |f'| >= |f| && f'[|f'| - |f|..] == f && forall j | 0 <= j < |f'| - |f| :: f'[j].size == POOL_SIZE - HEADER
  }

  lemma FreeIsGoodAt(h: Heap, i: nat)
    requires Inv(h) && i < |h.free|
    ensures h.free[i].size % 8 == 0
  {
    assert h.free[i] in h.free;
  }

  lemma {:induction false} FirstFitNone(free: seq<Block>, req: nat)
    requires forall j | 0 <= j < |free| :: free[j].size < req
    ensures FirstFit(free, req) == |free|
  {
    if free != [] {
      FirstFitNone(free[1..], req);
    }
  }

  /** The block freed last is handed out first, if it is large enough. */
  lemma FreedFirst(h: Heap, b: Block, req: nat)
    requires Inv(h) && b in Live(h) && req % 8 == 0 && req >= 8 && req <= b.size
    ensures Alloc(Free(h, b), req).1 == b.addr + 8
  {
    assert FirstFit(Free(h, b).free, req) == 0;
  }

  /** malloc fails exactly when nothing on the list fits and a new pool is not to be had or would be too small. */
  lemma {:induction false} AllocFails(h: Heap, req: nat)
    requires Inv(h) && req % 8 == 0 && req >= 8
    ensures Alloc(h, req).1 == 0 <==>
      (forall b | b in h.free :: b.size < req) && (h.brk + POOL_SIZE > h.top || req > POOL_SIZE - HEADER)
    decreases h.top - h.brk
  {
    var i := FirstFit(h.free, req);
    if i < |h.free| {
      assert h.free[i] in h.free;
    } else {
      assert forall b | b in h.free :: b.size < req;
      if h.brk + POOL_SIZE <= h.top {
        ExpandInv(h);
        AllocFails(Expand(h), req);
        var b := Block(h.brk, POOL_SIZE - HEADER);
        assert b in Expand(h).free;
        assert forall c | c in Expand(h).free :: c == b || c in h.free;
      }
    }
  }

  /** Where the block comes from: the first free block that fits, or else the front of a fresh pool. */
  lemma AllocPlace(h: Heap, req: nat)
    requires Inv(h) && req % 8 == 0 && req >= 8
    ensures var i := FirstFit(h.free, req); var p := Alloc(h, req).1;
      && (i < |h.free| ==> p == h.free[i].addr + HEADER)
      && (i == |h.free| && p != 0 ==> p == h.brk + HEADER)
  {
    var i := FirstFit(h.free, req);
    if i == |h.free| && h.brk + POOL_SIZE <= h.top {
      if req <= POOL_SIZE - HEADER {
        assert FirstFit(Expand(h).free, req) == 0;
      } else {
        AllocFails(h, req);
      }
    }
  }

  lemma FreeInv(h: Heap, b: Block)
    requires Inv(h) && b in Live(h)
    ensures Inv(Free(h, b)) && Live(Free(h, b)) == Live(h) - {b}
  {
    PushInjective(b, h.free);
  }

  // ----- Runs -----

  datatype Op = Malloc(size: nat) | FreeAt(block: Block)

  /** One call of the allocator; a free must name a live block. */
  ghost function Step(h: Heap, op: Op): Heap {
    match op
    case Malloc(size) => if size == 0 then h else Alloc(h, Request(size)).0
    case FreeAt(b) => Free(h, b)
  }

  ghost predicate LegalRun(h: Heap, ops: seq<Op>)
    decreases |ops|
  {
    ops == [] || ((ops[0].FreeAt? ==> ops[0].block in Live(h)) && LegalRun(Step(h, ops[0]), ops[1..]))
  }

  ghost function Run(h: Heap, ops: seq<Op>): Heap
    decreases |ops|
  {
    if ops == [] then h else Run(Step(h, ops[0]), ops[1..])
  }

  /** In every reachable state the blocks tile the heap, so no byte is lost, shared or outside. */
  lemma {:induction false} RunKeepsTiling(h: Heap, ops: seq<Op>)
    requires Inv(h) && LegalRun(h, ops)
    ensures Inv(Run(h, ops))
    ensures TotalBytes(Run(h, ops).tiles) == Run(h, ops).brk - h.base
    ensures forall a: nat | h.base <= a < Run(h, ops).brk :: Covered(Run(h, ops).tiles, a)
    ensures forall b, c | b in Run(h, ops).tiles && c in Run(h, ops).tiles && b != c :: Apart(b, c)
    decreases |ops|
  {
    if ops == [] {
      TilesConserve(h.tiles, h.base, h.brk);
      TilesApart(h.tiles, h.base, h.brk);
      forall a: nat | h.base <= a < h.brk ensures Covered(h.tiles, a) {
        TilesCover(h.tiles, h.base, h.brk, a);
      }
    } else {
      var h' := Step(h, ops[0]);
      match ops[0] {
        case Malloc(size) => if size != 0 { AllocInv(h, Request(size)); }
        case FreeAt(b) => FreeInv(h, b);
      }
      assert h'.base == h.base;
      RunKeepsTiling(h', ops[1..]);
    }
  }
}