// dfs.c: dfs_format and the layout of a partition.
module DfsFormat {
  import opened Common
  import opened DfsBlocks

  const MAX_FOLDERS: nat := 4096
  const FOLDER_SIZE: nat := 34956     // sizeof(dfs_disk_folder): 140 + 128 * 132 + 128 * 140
  const MAGIC: nat := 0x44465300

  /** round up to a multiple of 512, in 32 bits */
  function Align512(x: nat): nat { (x + 511) % TWO_32 / 512 * 512 }

  /** Partitions below this size end before their data area would start. */
  const SMALLEST: nat := 143_198_208

  /** The three layout fields of the superblock for a partition of this size, in 32-bit unsigned arithmetic. */
  function Layout(size: nat): Superblock {
    var blocks := size / BLOCK % TWO_32;
    var bitmapStart := SUPERBLOCK_SIZE + MAX_FOLDERS * FOLDER_SIZE;
    var dataStart := Align512(bitmapStart + (blocks + 7) % TWO_32 / 8);
    Superblock(bitmapStart, dataStart, (blocks - dataStart / BLOCK) % TWO_32)
  }

  /** Folder slot i */
  function Slot(i: nat): nat { SUPERBLOCK_SIZE + i * FOLDER_SIZE }

  /** Superblock, folder slots, bitmap and data area follow each other, and every data block has its bit in the bitmap. */
  lemma LayoutOrdered(size: nat, i: nat, b: nat)
    requires SMALLEST <= size < TWO_32 && i < MAX_FOLDERS && b < Layout(size).blockCount
    ensures var sb := Layout(size);
      && SUPERBLOCK_SIZE <= Slot(i) && Slot(i) + FOLDER_SIZE <= sb.bitmapStart
      && (i > 0 ==> Slot(i - 1) + FOLDER_SIZE <= Slot(i))
      && sb.bitmapStart + b / 8 < sb.dataStart && sb.dataStart % 512 == 0
  {
    hide Layout;
    LayoutBounds(size);
    ReachesData(size);
    BitFits(b, size / BLOCK);
  }

  lemma BitFits(b: nat, n: nat)
    requires b < n
    ensures b / 8 < (n + 7) / 8
  {
  }

  lemma ReachesData(size: nat)
    requires size < TWO_32
    ensures Layout(size).dataStart <= size <==> size >= SMALLEST
    ensures size < SMALLEST ==> size / BLOCK < Layout(size).dataStart / BLOCK <= SMALLEST / BLOCK
  {
    hide Layout;
    LayoutBounds(size);
  }

  /** The layout is sound exactly for the partitions of at least 143 198 208 bytes, those that reach their own data area. */
  lemma GeometryExactly(size: nat)
    requires size < TWO_32
    ensures Geometry(Layout(size), size) <==> size >= SMALLEST
  {
    hide Layout, Geometry;
    var sb, q := Layout(size), size / BLOCK;
    LayoutBounds(size);
    ReachesData(size);
    if sb.dataStart <= size {
      EndOfData(size, sb.dataStart, q, sb.blockCount);
      GeometryFrom(sb, size);
    } else {
      NoGeometry(sb, size);
    }
  }

  /** A partition of 200 MB is large enough. */
  lemma SoundExample()
    ensures Geometry(Layout(200_000_000), 200_000_000)
  {
    GeometryExactly(200_000_000);
  }

  lemma NoGeometry(sb: Superblock, size: nat)
    requires sb.dataStart > size
    ensures !Geometry(sb, size)
  {
  }

  lemma GeometryFrom(sb: Superblock, size: nat)
    requires SUPERBLOCK_SIZE <= sb.bitmapStart && sb.bitmapStart + (sb.blockCount + 7) / 8 <= sb.dataStart <= size < TWO_32
    requires sb.dataStart + BLOCK * sb.blockCount <= size + 512
    ensures Geometry(sb, size)
  {
  }

  lemma EndOfData(size: nat, start: nat, q: nat, blocks: nat)
    requires q == size / BLOCK && start <= size && start % 512 == 0 && blocks == q - start / BLOCK
    ensures start + BLOCK * blocks <= size + 512
  {
    HalfOrWhole(start);
  }

  lemma Aligned(x: nat)
    requires x + 511 < TWO_32
    ensures x <= Align512(x) < x + 512 && Align512(x) % 512 == 0
  {
  }

  /** The last block ends inside the partition exactly if no half block is lost to the alignment of the data area. */
  lemma DataFitsExactly(size: nat)
    requires SMALLEST <= size < TWO_32
    ensures var sb := Layout(size);
      sb.dataStart + BLOCK * sb.blockCount <= size <==> sb.dataStart % BLOCK == 0 || size % BLOCK >= 512
  {
    hide Layout;
    var sb := Layout(size);
    LayoutBounds(size);
    ReachesData(size);
    HalfOrWhole(sb.dataStart);
    EndExactly(size, sb.dataStart, size / BLOCK, sb.blockCount);
  }

  /** On this partition the last block ends 512 bytes behind the end. */
  lemma OverrunExample()
    ensures var sb := Layout(200_000_512); sb.dataStart + BLOCK * sb.blockCount == 200_000_512 + 512
  {
    var x := 143_180_312 + (195_313 + 7) / 8;
    assert Align512(x) == 143_204_864;
    assert Layout(200_000_512) == Superblock(143_180_312, 143_204_864, 55_465);
  }

  lemma EndExactly(size: nat, start: nat, q: nat, blocks: nat)
    requires q == size / BLOCK && start <= size && (start % BLOCK == 0 || start % BLOCK == 512) && blocks == q - start / BLOCK
    ensures start + BLOCK * blocks <= size <==> start % BLOCK == 0 || size % BLOCK >= 512
  {
    assert start == BLOCK * (start / BLOCK) + start % BLOCK;
    assert size == BLOCK * q + size % BLOCK;
  }

  lemma HalfOrWhole(x: nat)
    requires x % 512 == 0
    ensures x % BLOCK == 0 || x % BLOCK == 512
  {
  }

  /** A partition of at least 1 MiB that ends before its data area is not rejected: the block count wraps around. */
  lemma SmallPartitionWraps(size: nat)
    requires 1024 * BLOCK <= size < SMALLEST
    ensures Layout(size).blockCount == TWO_32 + size / BLOCK - Layout(size).dataStart / BLOCK
    ensures Layout(size).dataStart + BLOCK * Layout(size).blockCount > size + 512
  {
    hide Layout;
    LayoutBounds(size);
    ReachesData(size);
    Wraps(size / BLOCK - Layout(size).dataStart / BLOCK);
  }

  /** On a partition of 1 MiB the superblock claims more than four thousand million blocks. */
  lemma OneMebibyte()
    ensures Layout(0x10_0000) == Superblock(143_180_312, 143_180_800, 4_294_828_495)
  {
  }

  lemma Wraps(x: int)
    requires -0x40_0000 <= x < 0
    ensures x % TWO_32 == TWO_32 + x
  {
  }

  // ----- Partitions of 4 GiB and more -----

  /** What dfs_alloc_file_blocks returns for block b, in 32 bits. */
  function Address(sb: Superblock, b: nat): nat { (sb.dataStart + b * BLOCK) % TWO_32 }

  const BLOCKS_IN_4G: nat := 0x40_0000

  /** Two blocks have the same address exactly if their numbers agree modulo 2^22. */
  lemma AliasExactly(sb: Superblock, b: nat, c: nat)
    ensures Address(sb, b) == Address(sb, c) <==> b % BLOCKS_IN_4G == c % BLOCKS_IN_4G
  {
    WrapOf(sb.dataStart, b);
    WrapOf(sb.dataStart, c);
  }

  lemma WrapOf(start: nat, b: nat)
    ensures (start + b * BLOCK) % TWO_32 == (start + b % BLOCKS_IN_4G * BLOCK) % TWO_32
  {
    assert b == BLOCKS_IN_4G * (b / BLOCKS_IN_4G) + b % BLOCKS_IN_4G;
    Whole(start + b % BLOCKS_IN_4G * BLOCK, b / BLOCKS_IN_4G);
  }

  lemma {:induction false} Whole(x: nat, k: nat)
    ensures (x + TWO_32 * k) % TWO_32 == x % TWO_32
    decreases k
  {
    if k > 0 {
      Whole(x + TWO_32, k - 1);
    }
  }

  /** All blocks have addresses of their own exactly if there are at most 2^22. */
  lemma AddressesApart(sb: Superblock)
    ensures (forall b, c | 0 <= b < c < sb.blockCount :: Address(sb, b) != Address(sb, c)) <==> sb.blockCount <= BLOCKS_IN_4G
  {
    hide Address;
    if sb.blockCount <= BLOCKS_IN_4G {
      forall b, c | 0 <= b < c < sb.blockCount ensures Address(sb, b) != Address(sb, c) {
        AliasExactly(sb, b, c);
      }
    } else {
      AliasExactly(sb, 0, BLOCKS_IN_4G);
    }
  }

  /** The address of one of the first 2^22 blocks lies in front of the data area exactly if it has wrapped around. */
  lemma WrapsInFront(sb: Superblock, b: nat)
    requires sb.dataStart < TWO_32 && b < BLOCKS_IN_4G
    ensures Address(sb, b) < sb.dataStart <==> sb.dataStart + b * BLOCK >= TWO_32
  {
  }

  /** From two blocks above 4 GiB on, the address of the last block wraps around. */
  lemma LargePartitionWraps(size: nat)
    requires TWO_32 + 2 * BLOCK <= size && size / BLOCK + 7 < TWO_32
    ensures var sb := Layout(size); sb.blockCount > 0 && sb.dataStart + (sb.blockCount - 1) * BLOCK >= TWO_32
  {
    hide Align512;
    var sb, q := Layout(size), size / BLOCK;
    var x := sb.bitmapStart + (q + 7) / 8;
    Aligned(x);
    HalfOrWhole(sb.dataStart);
    LargeQuotient(q, sb.dataStart);
    LastBlock(size, sb.dataStart, q, sb.blockCount);
  }

  lemma LargeQuotient(q: nat, start: nat)
    requires 0x40_0000 <= q < TWO_32 && start <= 143_180_312 + (q + 7) / 8 + 512
    ensures 0 < q - start / BLOCK < TWO_32 && (q - start / BLOCK) % TWO_32 == q - start / BLOCK
  {
  }

  lemma LastBlock(size: nat, start: nat, q: nat, blocks: nat)
    requires q == size / BLOCK && size >= TWO_32 + 2 * BLOCK && blocks == q - start / BLOCK && blocks > 0
    ensures start + (blocks - 1) * BLOCK >= TWO_32
  {
  }

  // ----- The superblock on disk -----

  function Bytes4(w: nat): (b: seq<byte>)
    requires w < TWO_32
    ensures |b| == 4
  {
    [ToByte(w % 256, 8), ToByte(w / 0x100 % 256, 8), ToByte(w / 0x1_0000 % 256, 8), ToByte(w / 0x100_0000, 8)]
  }

  /** x >> k */
  function Shift(x: nat, k: nat): nat { if k == 0 then x else Shift(x / 2, k - 1) }

  /** The byte with the m low bits of x. */
  function ToByte(x: nat, m: nat): byte
    requires m <= 8
  {
    if m == 0 then 0 else Put(ToByte(x, m - 1), m - 1, Shift(x, m - 1) % 2 == 1)
  }

  lemma {:induction false} ToByteBits(x: nat, m: nat, j: nat)
    requires m <= 8 && j < m
    ensures Bit(ToByte(x, m), j) == (Shift(x, j) % 2 == 1)
  {
    hide Bit, Put, Shift;
    PutBit(ToByte(x, m - 1), m - 1, Shift(x, m - 1) % 2 == 1, j);
    if j < m - 1 {
      ToByteBits(x, m - 1, j);
    }
  }

  lemma {:induction false} ShiftOnce(x: nat, k: nat)
    ensures Shift(x, k + 1) == Shift(x, k) / 2
  {
    if k > 0 {
      ShiftOnce(x / 2, k - 1);
    }
  }

  lemma {:induction false} ValueOfByte(x: nat, k: nat)
    requires k <= 8 && Shift(x, 8) == 0
    ensures Value(ToByte(x, 8), k) == Shift(x, k)
    decreases 8 - k
  {
    hide Bit, ToByte, Shift;
    if k < 8 {
      ValueOfByte(x, k + 1);
      ToByteBits(x, 8, k);
      ShiftOnce(x, k);
    }
  }

  lemma ByteValue(x: nat)
    requires x < 256
    ensures Value(ToByte(x, 8), 0) == x
  {
    hide ToByte, Value, Shift;
    Shift4(x);
    Shift4(x / 16);
    ShiftNone(x);
    ValueOfByte(x, 0);
  }

  lemma ShiftNone(x: nat)
    ensures Shift(x, 0) == x
  {
  }

  lemma Shift4(x: nat)
    ensures Shift(x, 4) == x / 16 && Shift(x, 8) == Shift(x / 16, 4)
  {
    var a, b, c := x / 2, x / 2 / 2, x / 2 / 2 / 2;
    assert Shift(x, 4) == Shift(a, 3) == Shift(b, 2) == Shift(c, 1) == c / 2;
    assert Shift(x, 8) == Shift(a, 7) == Shift(b, 6) == Shift(c, 5) == Shift(c / 2, 4);
  }

  lemma WordOfBytes(w: nat)
    requires w < TWO_32
    ensures Word(Bytes4(w), 0) == w
  {
    hide ToByte, Value, Bytes4;
    var b := Bytes4(w);
    BytesOf(w);
    FourDigits(w);
  }

  lemma BytesOf(w: nat)
    requires w < TWO_32
    ensures var b := Bytes4(w);
      && Value(b[0], 0) == w % 256 && Value(b[1], 0) == w / 0x100 % 256
      && Value(b[2], 0) == w / 0x1_0000 % 256 && Value(b[3], 0) == w / 0x100_0000
  {
    hide ToByte, Value;
    ByteValue(w % 256);
    ByteValue(w / 0x100 % 256);
    ByteValue(w / 0x1_0000 % 256);
    ByteValue(w / 0x100_0000);
  }

  lemma FourDigits(w: nat)
    ensures w % 256 + 0x100 * (w / 0x100 % 256) + 0x1_0000 * (w / 0x1_0000 % 256) + 0x100_0000 * (w / 0x100_0000) == w
  {
    var q := w / 0x100;
    var r := q / 0x100;
    assert w / 0x1_0000 == r && w / 0x100_0000 == r / 0x100;
  }

  function Zeros(n: nat): (z: seq<byte>)
    ensures |z| == n && forall i {:trigger z[i]} | 0 <= i < n :: z[i] == 0
  {
    seq(n, _ => 0)
  }

  function Encode(sb: Superblock): (b: seq<byte>)
    requires sb.bitmapStart < TWO_32 && sb.dataStart < TWO_32 && sb.blockCount < TWO_32
    ensures |b| == SUPERBLOCK_SIZE
  {
    Bytes4(MAGIC) + Bytes4(MAX_FOLDERS) + Bytes4(1) + Bytes4(SUPERBLOCK_SIZE)
    + Bytes4(sb.bitmapStart) + Bytes4(sb.dataStart) + Bytes4(sb.blockCount) + Zeros(508)
  }

  lemma WordAt(b: seq<byte>, o: nat, w: nat)
    requires o + 4 <= |b| && w < TWO_32 && b[o..o + 4] == Bytes4(w)
    ensures Word(b, o) == w
  {
    WordOfBytes(w);
    var c := b[o..o + 4];
    assert c[0] == b[o] && c[1] == b[o + 1] && c[2] == b[o + 2] && c[3] == b[o + 3];
    assert Word(c, 0) == Word(b, o);
  }

  lemma DecodeEncode(sb: Superblock)
    requires sb.bitmapStart < TWO_32 && sb.dataStart < TWO_32 && sb.blockCount < TWO_32
    ensures Decode(Encode(sb)) == sb
  {
    hide Bytes4, Zeros, Word;
    var b := Encode(sb);
    assert b[16..20] == Bytes4(sb.bitmapStart) && b[20..24] == Bytes4(sb.dataStart) && b[24..28] == Bytes4(sb.blockCount);
    WordAt(b, 16, sb.bitmapStart);
    WordAt(b, 20, sb.dataStart);
    WordAt(b, 24, sb.blockCount);
  }

  /** Magic number, number of folder slots, number of folders, and address of the root folder, as little-endian words; the reserved
      bytes are 0. */
  ghost predicate HeaderBytes(b: seq<byte>)
    requires 536 <= |b|
  {
    && b[0..16] == [0x00, 0x53, 0x46, 0x44, 0x00, 0x10, 0x00, 0x00, 0x01, 0x00, 0x00, 0x00, 0x18, 0x02, 0x00, 0x00]
    && forall o {:trigger b[o]} | 28 <= o < 536 :: b[o] == 0
  }

  /** The root folder, behind the superblock: name "/", in use, no subfolders, no files. */
  ghost predicate RootBytes(b: seq<byte>)
    requires 536 + 34956 <= |b|
  {
    && b[536] == 0x2f && (forall o {:trigger b[o]} | 537 <= o < 664 :: b[o] == 0)
    && b[664] == 1 && forall o {:trigger b[o]} | 665 <= o < 536 + 34956 :: b[o] == 0
  }

  lemma {:induction false} ValueTellsBits(a: byte, b: byte, k: nat)
    requires k <= 8 && Value(a, k) == Value(b, k)
    ensures forall j | k <= j < 8 :: Bit(a, j) == Bit(b, j)
    decreases 8 - k
  {
    hide Bit;
    if k < 8 {
      var x, y := Value(a, k + 1), Value(b, k + 1);
      ValueTellsBits(a, b, k + 1);
    }
  }

  /** The byte that holds x is the one of value x. */
  lemma ByteOf(x: nat, b: byte)
    requires x < 256 && Value(b, 0) == x
    ensures ToByte(x, 8) == b
  {
    hide ToByte, Value, Bit;
    ByteValue(x);
    ValueTellsBits(ToByte(x, 8), b, 0);
    SameBits(ToByte(x, 8), b);
  }

  lemma LiteralValues()
    ensures Value(0, 0) == 0 && Value(1, 0) == 1 && Value(2, 0) == 2 && Value(0x10, 0) == 0x10
    ensures Value(0x18, 0) == 0x18 && Value(0x44, 0) == 0x44 && Value(0x46, 0) == 0x46 && Value(0x53, 0) == 0x53
  {
    hide Value;
    ValueOf(0x00);
    ValueOf(0x01);
    ValueOf(0x02);
    ValueOf(0x10);
    ValueOf(0x18);
    ValueOf(0x44);
    ValueOf(0x46);
    ValueOf(0x53);
  }

  lemma SmallBytes()
    ensures ToByte(0, 8) == 0 && ToByte(1, 8) == 1 && ToByte(2, 8) == 2 && ToByte(0x10, 8) == 0x10
    ensures ToByte(0x18, 8) == 0x18 && ToByte(0x44, 8) == 0x44 && ToByte(0x46, 8) == 0x46 && ToByte(0x53, 8) == 0x53
  {
    hide ToByte, Value;
    LiteralValues();
    ByteOf(0x00, 0x00);
    ByteOf(0x01, 0x01);
    ByteOf(0x02, 0x02);
    ByteOf(0x10, 0x10);
    ByteOf(0x18, 0x18);
    ByteOf(0x44, 0x44);
    ByteOf(0x46, 0x46);
    ByteOf(0x53, 0x53);
  }

  lemma EncodedHeader(sb: Superblock)
    requires sb.bitmapStart < TWO_32 && sb.dataStart < TWO_32 && sb.blockCount < TWO_32
    ensures HeaderBytes(Encode(sb))
  {
    hide ToByte;
    SmallBytes();
    var z, b := Zeros(508), Encode(sb);
    hide Zeros;
    assert Bytes4(MAGIC) == [0x00, 0x53, 0x46, 0x44] && Bytes4(MAX_FOLDERS) == [0x00, 0x10, 0x00, 0x00];
    assert Bytes4(1) == [0x01, 0x00, 0x00, 0x00] && Bytes4(SUPERBLOCK_SIZE) == [0x18, 0x02, 0x00, 0x00];
    hide Bytes4;
    forall o | 28 <= o < 536 ensures b[o] == 0 {
      assert b[o] == z[o - 28];
    }
  }

  /** The first byte of a word is the lowest. */
  lemma WordExample()
    ensures Word([0x00, 0x53, 0x46, 0x44], 0) == 0x4446_5300
  {
    hide ToByte, Word;
    SmallBytes();
    WordOfBytes(0x4446_5300);
    assert Bytes4(0x4446_5300) == [0x00, 0x53, 0x46, 0x44];
  }

  lemma RootWritten(b: seq<byte>)
    requires Slot(1) <= |b| && b[Slot(0)..Slot(1)] == RootFolder()
    ensures RootBytes(b)
  {
    var r := RootFolder();
    forall o | 536 <= o < 536 + 34956 ensures b[o] == r[o - 536] {
      assert b[Slot(0)..Slot(1)][o - 536] == b[o];
    }
  }

  lemma HeaderKept(b: seq<byte>, c: seq<byte>)
    requires SUPERBLOCK_SIZE <= |b| && SUPERBLOCK_SIZE <= |c| && HeaderBytes(b)
    requires forall o {:trigger c[o]} | 0 <= o < SUPERBLOCK_SIZE :: c[o] == b[o]
    ensures HeaderBytes(c)
  {
    assert c[0..16] == b[0..16];
  }

  lemma RootKept(b: seq<byte>, c: seq<byte>)
    requires Slot(1) <= |b| == |c| && RootBytes(b) && Untouched(b, c, 0, Slot(1))
    ensures RootBytes(c)
  {
  }

  /** The root folder: name "/", in use, no entries. */
  function RootFolder(): (b: seq<byte>)
    ensures |b| == FOLDER_SIZE
  {
    [0x2f] + Zeros(127) + [1] + Zeros(FOLDER_SIZE - 129)
  }

  lemma ZeroBitmap(bytes: seq<byte>, sb: Superblock)
    requires Geometry(sb, |bytes|)
    requires forall o {:trigger bytes[o]} | sb.bitmapStart <= o < sb.bitmapStart + (sb.blockCount + 7) / 8 :: bytes[o] == 0
    ensures Used(bytes, sb) == seq(sb.blockCount, _ => false)
  {
    forall i | 0 <= i < sb.blockCount ensures !Used(bytes, sb)[i] {
      assert bytes[sb.bitmapStart + i / 8] == 0;
    }
  }

  /** dfs_format; oom says that the zeroed bitmap buffer cannot be allocated. The result of writing the bitmap is ignored, and the
      other folder slots keep what they held. */
  method Format(p: Partition, oom: bool) returns (err: int)
    modifies p
    ensures |p.bytes| == |old(p.bytes)| && p.calls >= old(p.calls)
    ensures err == if |p.bytes| / BLOCK % TWO_32 < 1024 then -1 else if p.faulty(old(p.calls)) then -2 else if p.faulty(old(p.calls) + 1) then -3 else 0
    ensures err == -1 ==> p.bytes == old(p.bytes)
    ensures err == 0 ==> Slot(1) <= |p.bytes| && Decode(p.bytes) == Layout(|p.bytes|) && HeaderBytes(p.bytes) && RootBytes(p.bytes)
    ensures err == 0 ==> var sb := Layout(|p.bytes|);
      Word(p.bytes, 16) == sb.bitmapStart && Word(p.bytes, 20) == sb.dataStart && Word(p.bytes, 24) == sb.blockCount
    ensures Untouched(old(p.bytes), p.bytes, Slot(1), Layout(|p.bytes|).bitmapStart)
    ensures Untouched(old(p.bytes), p.bytes, Layout(|p.bytes|).bitmapStart + (|p.bytes| / BLOCK % TWO_32 + 7) % TWO_32 / 8, |p.bytes|)
    ensures (NoFault(p.faulty, old(p.calls), p.calls) && err == 0 && !oom && SMALLEST <= |p.bytes| < TWO_32) ==>
      Formatted(p.bytes) && Used(p.bytes, Decode(p.bytes)) == seq(Decode(p.bytes).blockCount, _ => false)
  {
    hide Layout, Decode, Word, Used, Geometry, Formatted, NoFault, HeaderBytes, RootBytes;
    var size := |p.bytes|;
    var blocks := size / BLOCK % TWO_32;
    if blocks < 1024 {
      return -1;
    }
    AtLeast(size);
    var sb := Layout(size);
    WordSized(size);
    ghost var t := p.calls;
    err := WriteHeader(p, sb);
    if err != 0 {
      return;
    }
    ghost var header, written := p.calls, p.bytes;
    var cleared := WriteBitmap(p, sb, (blocks + 7) % TWO_32 / 8, oom);
    HeaderKept(written, p.bytes);
    RootKept(written, p.bytes);
    FaultsBefore(p.faulty, t, header, p.calls);
    if SMALLEST <= size < TWO_32 {
      Quotients(size, 0);
      LayoutBounds(size);
      ReachesData(size);
      FormatDone(p.bytes, sb, cleared);
    }
    DecodedWords(p.bytes);
    err := 0;
  }

  /** Bytes from lo up to hi are what they were. */
  ghost predicate Untouched(before: seq<byte>, after: seq<byte>, lo: nat, hi: nat)
    requires |before| == |after|
  {
    forall o {:trigger after[o]} | lo <= o < hi && o < |after| :: after[o] == before[o]
  }

  lemma DecodedWords(b: seq<byte>)
    requires SUPERBLOCK_SIZE <= |b|
    ensures var sb := Decode(b); Word(b, 16) == sb.bitmapStart && Word(b, 20) == sb.dataStart && Word(b, 24) == sb.blockCount
  {
  }

  lemma AtLeast(size: nat)
    requires size / BLOCK % TWO_32 >= 1024
    ensures size >= 1024 * BLOCK >= SUPERBLOCK_SIZE + FOLDER_SIZE
  {
  }

  lemma FaultsBefore(faulty: nat -> bool, a: nat, b: nat, c: nat)
    requires a <= b <= c
    ensures NoFault(faulty, a, c) <==> NoFault(faulty, a, b) && NoFault(faulty, b, c)
  {
  }

  /** Superblock and root folder */
  method WriteHeader(p: Partition, sb: Superblock) returns (err: int)
    requires SUPERBLOCK_SIZE + FOLDER_SIZE <= |p.bytes|
    requires sb.bitmapStart < TWO_32 && sb.dataStart < TWO_32 && sb.blockCount < TWO_32
    modifies p
    ensures |p.bytes| == |old(p.bytes)| && p.calls >= old(p.calls)
    ensures err == if p.faulty(old(p.calls)) then -2 else if p.faulty(old(p.calls) + 1) then -3 else 0
    ensures err == 0 <==> NoFault(p.faulty, old(p.calls), p.calls)
    ensures err == 0 ==> Decode(p.bytes) == sb && HeaderBytes(p.bytes) && RootBytes(p.bytes)
    ensures Untouched(old(p.bytes), p.bytes, Slot(1), |p.bytes|)
  {
    hide Encode, Decode, RootFolder, HeaderBytes, RootBytes;
    ghost var t := p.calls;
    var image := Encode(sb);
    DecodeEncode(sb);
    EncodedHeader(sb);
    var ok := p.Write(0, image);
    if !ok {
      assert p.faulty(t);
      return -2;
    }
    PrefixSuperblock(p.bytes, image);
    HeaderKept(image, p.bytes);
    ghost var first := p.bytes;
    ok := p.Write(SUPERBLOCK_SIZE, RootFolder());
    SameSuperblock(first, p.bytes);
    if !ok {
      assert p.faulty(t + 1);
      return -3;
    }
    HeaderKept(first, p.bytes);
    RootWritten(p.bytes);
    err := 0;
  }

  /** The cleared bitmap */
  method WriteBitmap(p: Partition, sb: Superblock, n: nat, oom: bool) returns (cleared: bool)
    requires SUPERBLOCK_SIZE <= |p.bytes| && SUPERBLOCK_SIZE <= sb.bitmapStart
    modifies p
    ensures |p.bytes| == |old(p.bytes)| && p.calls >= old(p.calls) && Decode(p.bytes) == old(Decode(p.bytes))
    ensures Untouched(old(p.bytes), p.bytes, 0, sb.bitmapStart) && Untouched(old(p.bytes), p.bytes, sb.bitmapStart + n, |p.bytes|)
    ensures NoFault(p.faulty, old(p.calls), p.calls) && !oom && n > 0 && sb.bitmapStart + n <= |p.bytes| ==> cleared
    ensures cleared ==>
      && sb.bitmapStart + n <= |p.bytes|
      && forall o {:trigger p.bytes[o]} | sb.bitmapStart <= o < sb.bitmapStart + n :: p.bytes[o] == 0
  {
    hide Zeros, Decode;
    if oom || n == 0 {
      return false;
    }
    var zero := Zeros(n);
    ghost var before, t := p.bytes, p.calls;
    cleared := p.Write(sb.bitmapStart, zero);
    SameSuperblock(before, p.bytes);
    if cleared {
      AllZero(p.bytes, sb.bitmapStart, zero);
    } else {
      assert p.faulty(t) || sb.bitmapStart + n > |p.bytes|;
    }
  }

  /** Layout computes 32-bit words. */
  lemma WordSized(size: nat)
    ensures var sb := Layout(size);
      SUPERBLOCK_SIZE + FOLDER_SIZE <= sb.bitmapStart < TWO_32 && sb.dataStart < TWO_32 && sb.blockCount < TWO_32
  {
    hide Align512;
    AlignSmall(SUPERBLOCK_SIZE + MAX_FOLDERS * FOLDER_SIZE + (size / BLOCK % TWO_32 + 7) % TWO_32 / 8);
  }

  lemma AlignSmall(x: nat)
    ensures Align512(x) < TWO_32
  {
  }

  lemma LayoutBounds(size: nat)
    requires size < TWO_32
    ensures var sb := Layout(size);
      && sb.bitmapStart == SUPERBLOCK_SIZE + MAX_FOLDERS * FOLDER_SIZE && sb.dataStart < TWO_32 && sb.blockCount < TWO_32
      && sb.bitmapStart + (size / BLOCK + 7) / 8 <= sb.dataStart < sb.bitmapStart + (size / BLOCK + 7) / 8 + 512
      && sb.dataStart % 512 == 0
      && sb.blockCount == (size / BLOCK - sb.dataStart / BLOCK) % TWO_32
      && (sb.dataStart <= size ==> sb.blockCount == size / BLOCK - sb.dataStart / BLOCK)
  {
    hide Align512;
    var sb, q := Layout(size), size / BLOCK;
    Quotients(size, sb.dataStart);
    Aligned(sb.bitmapStart + (q + 7) / 8);
  }

  lemma Quotients(size: nat, start: nat)
    requires size < TWO_32
    ensures size / BLOCK % TWO_32 == size / BLOCK < 0x40_0000
    ensures start <= size ==> 0 <= size / BLOCK - start / BLOCK && (size / BLOCK - start / BLOCK) % TWO_32 == size / BLOCK - start / BLOCK
    ensures 0 <= (size / BLOCK - start / BLOCK) % TWO_32 < TWO_32
  {
  }

  lemma PrefixSuperblock(bytes: seq<byte>, image: seq<byte>)
    requires SUPERBLOCK_SIZE <= |bytes| && |image| == SUPERBLOCK_SIZE && bytes[0..SUPERBLOCK_SIZE] == image
    ensures Decode(bytes) == Decode(image) && forall o {:trigger bytes[o]} | 0 <= o < SUPERBLOCK_SIZE :: bytes[o] == image[o]
  {
    hide Decode;
    forall o | 0 <= o < SUPERBLOCK_SIZE ensures bytes[o] == image[o] {
      assert bytes[0..SUPERBLOCK_SIZE][o] == bytes[o];
    }
    SameSuperblock(image, bytes);
  }

  lemma AllZero(bytes: seq<byte>, off: nat, zero: seq<byte>)
    requires off + |zero| <= |bytes| && bytes[off..off + |zero|] == zero && zero == Zeros(|zero|)
    ensures forall o {:trigger bytes[o]} | off <= o < off + |zero| :: bytes[o] == 0
  {
    forall o | off <= o < off + |zero| ensures bytes[o] == 0 {
      assert bytes[off..off + |zero|][o - off] == bytes[o];
    }
  }

  lemma FormatDone(bytes: seq<byte>, sb: Superblock, zeroed: bool)
    requires SUPERBLOCK_SIZE <= |bytes| < TWO_32 && sb == Layout(|bytes|) && Decode(bytes) == sb
    requires zeroed ==>
      && sb.bitmapStart + (|bytes| / BLOCK + 7) / 8 <= |bytes|
      && forall o {:trigger bytes[o]} | sb.bitmapStart <= o < sb.bitmapStart + (|bytes| / BLOCK + 7) / 8 :: bytes[o] == 0
    ensures SMALLEST <= |bytes| && zeroed ==> Formatted(bytes) && Used(bytes, sb) == seq(sb.blockCount, _ => false)
  {
    hide Used, Decode;
    if SMALLEST <= |bytes| && zeroed {
      ReachesData(|bytes|);
      GeometryExactly(|bytes|);
      LayoutBounds(|bytes|);
      ZeroBitmap(bytes, sb);
    }
  }
}
