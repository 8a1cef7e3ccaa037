// drive.c and drive_partition.c: bytes read and written through whole sectors, and confined to partitions.
module SectorIo {
  import opened Common

  const SECTOR: nat := 512

  /** bytes with data stored at addr */
  ghost function Stored(bytes: seq<byte>, addr: nat, data: seq<byte>): (r: seq<byte>)
    requires addr + |data| <= |bytes|
    ensures |r| == |bytes|
  {
    bytes[..addr] + data + bytes[addr + |data|..]
  }

  /** In the range the data, elsewhere the bytes that were there. */
  lemma StoredIs(bytes: seq<byte>, addr: nat, data: seq<byte>, o: nat)
    requires addr + |data| <= |bytes| && o < |bytes|
    ensures Stored(bytes, addr, data)[o] == if addr <= o < addr + |data| then data[o - addr] else bytes[o]
  {
  }

  /** A disk behind one port: call number t to the controller fails if faulty(t) says so. */
  class Disk {
    var bytes: seq<byte>
    var calls: nat
    const faulty: nat -> bool

    ghost predicate Valid()
      reads this
    {
      |bytes| % SECTOR == 0 && |bytes| < TWO_64
    }

    constructor (bytes: seq<byte>, faulty: nat -> bool)
      requires |bytes| % SECTOR == 0 && |bytes| < TWO_64
      ensures Valid() && this.bytes == bytes && this.faulty == faulty && calls == 0
    {
      this.bytes, this.faulty, calls := bytes, faulty, 0;
    }

    /** port_read_sectors for one sector, into the part of the buffer at off */
    method ReadSector(lba: nat, buf: array<byte>, off: nat) returns (ok: bool)
      requires off + SECTOR <= buf.Length
      modifies this`calls, buf
      ensures calls == old(calls) + 1
      ensures ok == (!faulty(old(calls)) && SECTOR * lba + SECTOR <= |bytes|)
      ensures ok ==> buf[off..off + SECTOR] == bytes[SECTOR * lba..SECTOR * lba + SECTOR]
    {
      ok := !faulty(calls) && SECTOR * lba + SECTOR <= |bytes|;
      calls := calls + 1;
      if ok {
        forall j | 0 <= j < SECTOR {
          buf[off + j] := bytes[SECTOR * lba + j];
        }
      }
    }

    /** port_write_sectors for one sector */
    method WriteSector(lba: nat, buf: array<byte>, off: nat) returns (ok: bool)
      requires off + SECTOR <= buf.Length
      modifies this
      ensures calls == old(calls) + 1
      ensures ok == (!faulty(old(calls)) && SECTOR * lba + SECTOR <= |old(bytes)|)
      ensures ok ==> bytes == Stored(old(bytes), SECTOR * lba, buf[off..off + SECTOR])
      ensures !ok ==> bytes == old(bytes)
    {
      ok := !faulty(calls) && SECTOR * lba + SECTOR <= |bytes|;
      calls := calls + 1;
      if ok {
        bytes := bytes[..SECTOR * lba] + buf[off..off + SECTOR] + bytes[SECTOR * lba + SECTOR..];
      }
    }
  }

  /** The piece of [addr, addr + length) in its sector number i: where it starts in the sector, and how long it is. */
  function StartOff(addr: nat, i: nat): nat { if i == 0 then addr % SECTOR else 0 }

  function EndOff(addr: nat, length: nat, i: nat, sectors: nat): nat
    requires addr + length > 0
  {
    if i == sectors - 1 then (addr + length - 1) % SECTOR + 1 else SECTOR
  }

  /** How many bytes lie in the first i sectors. */
  function Before(addr: nat, length: nat, i: nat): nat {
    if i == 0 then 0 else if i == 1 && SECTOR - addr % SECTOR < length then SECTOR - addr % SECTOR else length
  }

  /** The sectors that [addr, addr + length) touches. */
  function Sectors(addr: nat, length: nat): nat
    requires addr + length > 0
  {
    (addr + length - 1) / SECTOR - addr / SECTOR + 1
  }

  /** At most 256 bytes touch one sector or two, and their pieces follow each other. */
  lemma Pieces(addr: nat, length: nat, i: nat)
    requires 1 <= length <= 256
    ensures var n := Sectors(addr, length);
      1 <= n <= 2 && (n == 2 <==> addr % SECTOR + length > SECTOR)
    ensures var n := Sectors(addr, length); i < n ==>
      var s, e := StartOff(addr, i), EndOff(addr, length, i, n);
      s < e <= SECTOR && SECTOR * (addr / SECTOR + i) + s == addr + Before(addr, length, i)
    ensures var n := Sectors(addr, length);
      && (i == 0 ==> EndOff(addr, length, i, n) - StartOff(addr, i) == if n == 1 then length else SECTOR - addr % SECTOR)
      && (i == 1 && n == 2 ==> EndOff(addr, length, i, n) == length - (SECTOR - addr % SECTOR))
  {
    var q, r := addr / SECTOR, addr % SECTOR;
    assert addr == SECTOR * q + r;
    var m := r + length - 1;
    assert addr + length - 1 == SECTOR * q + m;
    if m < SECTOR {
      QuotientIs(q, m, addr + length - 1);
    } else {
      QuotientIs(q + 1, m - SECTOR, addr + length - 1);
    }
  }

  lemma QuotientIs(q: nat, r: nat, x: nat)
    requires x == SECTOR * q + r && r < SECTOR
    ensures x / SECTOR == q && x % SECTOR == r
  {
  }

  /** The number of sectors as the drive computes it, in 64-bit and then 16-bit unsigned arithmetic. */
  function SectorCount(addr: nat, length: nat): nat
    requires addr + length > 0
  {
    ((addr + length - 1) % TWO_64 / SECTOR - addr / SECTOR + 1) % 0x1_0000
  }

  /** Unless the end address wraps around it is the real number; if it wraps, the first sector lies at the end of the address space. */
  lemma SectorCountIs(addr: nat, length: nat)
    requires addr < TWO_64 && 1 <= length <= 256
    ensures addr + length <= TWO_64 ==> SectorCount(addr, length) == Sectors(addr, length)
    ensures addr + length > TWO_64 ==>
      && SectorCount(addr, length) == 2
      && SECTOR * (addr / SECTOR) + SECTOR == TWO_64 && 0 < SECTOR - addr % SECTOR < length && addr % SECTOR > 0
  {
    Pieces(addr, length, 0);
    if addr + length > TWO_64 {
      var q := TWO_64 / SECTOR - 1;
      assert addr == SECTOR * q + (addr - SECTOR * q);
      QuotientIs(q, addr - SECTOR * q, addr);
      assert (addr + length - 1) % TWO_64 == addr + length - 1 - TWO_64;
      assert (addr + length - 1) % TWO_64 / SECTOR == 0;
    }
  }

  lemma StoredTwice(bytes: seq<byte>, addr: nat, x: seq<byte>, y: seq<byte>)
    requires addr + |x| + |y| <= |bytes|
    ensures Stored(Stored(bytes, addr, x), addr + |x|, y) == Stored(bytes, addr, x + y)
  {
    var l, r := Stored(Stored(bytes, addr, x), addr + |x|, y), Stored(bytes, addr, x + y);
    forall o | 0 <= o < |bytes| ensures l[o] == r[o] {
      assert x + y == x + y;
    }
  }

  /** Storing a whole sector whose bytes outside one piece are as before is storing that piece. */
  lemma StoredPiece(bytes: seq<byte>, base: nat, sector: seq<byte>, off: nat, piece: seq<byte>)
    requires base + SECTOR <= |bytes| && |sector| == SECTOR && off + |piece| <= SECTOR
    requires sector == bytes[base..base + off] + piece + bytes[base + off + |piece|..base + SECTOR]
    ensures Stored(bytes, base, sector) == Stored(bytes, base + off, piece)
  {
    var l, r := Stored(bytes, base, sector), Stored(bytes, base + off, piece);
    forall o | 0 <= o < |bytes| ensures l[o] == r[o] {
    }
  }

  /** The merging loop */
  method Merge(buf: array<byte>, off: nat, start: nat, src: seq<byte>)
    requires off + SECTOR <= buf.Length && start + |src| <= SECTOR
    modifies buf
    ensures buf[off..off + SECTOR] == old(buf[off..off + SECTOR])[..start] + src + old(buf[off..off + SECTOR])[start + |src|..]
  {
    ghost var before := buf[off..off + SECTOR];
    var j := 0;
    while j < |src|
      invariant 0 <= j <= |src|
      invariant forall k {:trigger buf[k]} | off <= k < off + SECTOR ::
        buf[k] == if start <= k - off < start + j then src[k - off - start] else before[k - off]
    {
      buf[off + start + j] := src[j];
      j := j + 1;
    }
  }

  lemma MergedSector(bytes: seq<byte>, base: nat, before: seq<byte>, start: nat, src: seq<byte>)
    requires base + SECTOR <= |bytes| && |before| == SECTOR && start + |src| <= SECTOR
    requires before == bytes[base..base + SECTOR] || (start == 0 && |src| == SECTOR)
    ensures Stored(bytes, base, before[..start] + src + before[start + |src|..]) == Stored(bytes, base + start, src)
  {
    var sector := before[..start] + src + before[start + |src|..];
    assert sector == bytes[base..base + start] + src + bytes[base + start + |src|..base + SECTOR];
    StoredPiece(bytes, base, sector, start, src);
  }

  /** One round of the loop in ahci_write: read the sector unless all of it is replaced, merge the new bytes, write it back. */
  method WritePiece(d: Disk, lba: nat, buf: array<byte>, off: nat, start: nat, end: nat, src: seq<byte>) returns (ok: bool)
    requires off + SECTOR <= buf.Length && start < end <= SECTOR && |src| == end - start
    modifies d, buf
    ensures d.calls >= old(d.calls) && |d.bytes| == |old(d.bytes)|
    ensures ok <==> NoFault(d.faulty, old(d.calls), d.calls) && SECTOR * lba + SECTOR <= |d.bytes|
    ensures ok ==> d.bytes == Stored(old(d.bytes), SECTOR * lba + start, src)
    ensures !ok ==> d.bytes == old(d.bytes)
  {
    hide Stored;
    ghost var base := SECTOR * lba;
    if start != 0 || end != SECTOR {
      var read := d.ReadSector(lba, buf, off);
      if !read {
        assert d.faulty(old(d.calls)) || base + SECTOR > |d.bytes|;
        return false;
      }
    }
    ghost var before, t := buf[off..off + SECTOR], d.calls;
    Merge(buf, off, start, src);
    if base + SECTOR <= |d.bytes| {
      MergedSector(d.bytes, base, before, start, src);
    }
    ok := d.WriteSector(lba, buf, off);
    assert !ok ==> d.faulty(t) || base + SECTOR > |d.bytes|;
  }

  /** The facts about round i that the loops need. */
  lemma Round(addr: nat, length: nat, i: nat, sectors: nat)
    requires addr < TWO_64 && 1 <= length <= 256 && sectors == SectorCount(addr, length) && i < sectors
    requires addr + length > TWO_64 ==> i == 0
    ensures sectors <= 2
    ensures var s, e, b := StartOff(addr, i), EndOff(addr, length, i, sectors), Before(addr, length, i);
      && s < e <= SECTOR && SECTOR * (addr / SECTOR + i) + s == addr + b && b + (e - s) <= length
      && b + (e - s) == Before(addr, length, i + 1)
  {
    SectorCountIs(addr, length);
    Pieces(addr, length, i);
  }

  /** After the last round all bytes are dealt with. */
  lemma LastRound(addr: nat, length: nat, sectors: nat)
    requires addr + length <= TWO_64 && 1 <= length <= 256 && sectors == SectorCount(addr, length)
    ensures sectors > 0 && Before(addr, length, sectors) == length && Before(addr, length, 0) == 0
    ensures sectors == 2 ==> Before(addr, length, 1) == SECTOR - addr % SECTOR < length
  {
    SectorCountIs(addr, length);
    Pieces(addr, length, 0);
  }

  /** Whether the sectors of a range lie on the disk. */
  lemma OnDisk(size: nat, addr: nat, length: nat, sectors: nat)
    requires size % SECTOR == 0 && size < TWO_64 && addr < TWO_64 && 1 <= length <= 256 && sectors == SectorCount(addr, length)
    ensures 1 <= sectors <= 2
    ensures addr + length > TWO_64 ==> SECTOR * (addr / SECTOR) + SECTOR > size
    ensures addr + length <= TWO_64 ==> (addr + length <= size <==> SECTOR * (addr / SECTOR + sectors - 1) + SECTOR <= size)
    ensures SECTOR * (addr / SECTOR) + SECTOR <= size ==> addr + (SECTOR - addr % SECTOR) <= size
  {
    SectorCountIs(addr, length);
    Pieces(addr, length, 0);
    WholeSectors(size, addr, length);
  }

  /** ahci_write for a drive that exists: 0 if all bytes are stored; otherwise at most those up to the end of the first sector. */
  method AhciWrite(d: Disk, addr: nat, length: nat, data: seq<byte>) returns (err: int)
    requires d.Valid() && addr < TWO_64 && length < TWO_64 && (length <= 256 ==> |data| >= length)
    modifies d
    ensures d.Valid() && d.calls >= old(d.calls) && |d.bytes| == |old(d.bytes)|
    ensures err == 0 || err == -1
    ensures err == 0 <==> 1 <= length <= 256 && addr + length <= |d.bytes| && NoFault(d.faulty, old(d.calls), d.calls)
    ensures err == 0 ==> d.bytes == Stored(old(d.bytes), addr, data[..length])
    ensures err == -1 ==> d.bytes == old(d.bytes) || ToBoundary(old(d.bytes), d.bytes, addr, length, data)
  {
    hide Stored, SectorCount, StartOff, EndOff, Before, Sectors;
    if length == 0 || length > 256 {
      return -1;
    }
    var startSector := addr / SECTOR;
    var sectors := SectorCount(addr, length);
    OnDisk(|d.bytes|, addr, length, sectors);
    if sectors > 2 {
      return -1;
    }
    var buf := new byte[2 * SECTOR];
    ghost var wraps := addr + length > TWO_64;
    if !wraps {
      LastRound(addr, length, sectors);
    }
    ghost var bytes := d.bytes;
    var i, src := 0, 0;
    BeforeNone(addr, length);
    while i < sectors
      invariant 0 <= i <= sectors && src == Before(addr, length, i) <= length && (wraps ==> i == 0)
      invariant d.calls >= old(d.calls) && |d.bytes| == |bytes| && NoFault(d.faulty, old(d.calls), d.calls)
      invariant addr + src <= |bytes| || i == 0
      invariant i > 0 ==> SECTOR * (startSector + i - 1) + SECTOR <= |bytes|
      invariant d.bytes == if i == 0 then bytes else Stored(bytes, addr, data[..src])
    {
      Round(addr, length, i, sectors);
      var start, end := StartOff(addr, i), EndOff(addr, length, i, sectors);
      ghost var t := d.calls;
      var ok := WritePiece(d, startSector + i, buf, SECTOR * i, start, end, data[src..src + (end - start)]);
      if !ok {
        if i > 0 {
          BoundaryReached(bytes, d.bytes, addr, length, data, src);
        }
        return -1;
      }
      NextStored(bytes, d.bytes, addr, data, src, end - start, i);
      src, i := src + (end - start), i + 1;
    }
    err := 0;
  }

  lemma BeforeNone(addr: nat, length: nat)
    ensures Before(addr, length, 0) == 0
  {
  }

  /** Exactly the new bytes up to the end of the first sector are stored. */
  ghost predicate ToBoundary(bytes: seq<byte>, after: seq<byte>, addr: nat, length: nat, data: seq<byte>) {
    var k := SECTOR - addr % SECTOR;
    k < length <= |data| && addr + k <= |bytes| && after == Stored(bytes, addr, data[..k])
  }

  lemma BoundaryReached(bytes: seq<byte>, after: seq<byte>, addr: nat, length: nat, data: seq<byte>, src: nat)
    requires src == SECTOR - addr % SECTOR < length <= |data| && addr + src <= |bytes| && after == Stored(bytes, addr, data[..src])
    ensures ToBoundary(bytes, after, addr, length, data)
  {
  }

  lemma NextStored(bytes: seq<byte>, after: seq<byte>, addr: nat, data: seq<byte>, src: nat, k: nat, i: nat)
    requires src + k <= |data| && addr + src + k <= |bytes| && (i == 0 ==> src == 0)
    requires var piece := data[src..src + k];
      after == Stored(if i == 0 then bytes else Stored(bytes, addr, data[..src]), addr + src, piece)
    ensures after == Stored(bytes, addr, data[..src + k])
  {
    if i > 0 {
      StoredTwice(bytes, addr, data[..src], data[src..src + k]);
    }
    assert data[..src] + data[src..src + k] == data[..src + k];
  }

  /** A range lies on a disk of whole sectors exactly if its sectors do. */
  lemma WholeSectors(size: nat, addr: nat, length: nat)
    requires size % SECTOR == 0 && 1 <= length <= 256
    ensures var n := Sectors(addr, length); addr + length <= size <==> SECTOR * (addr / SECTOR + n - 1) + SECTOR <= size
  {
    Pieces(addr, length, 0);
    var q := (addr + length - 1) / SECTOR;
    assert size == SECTOR * (size / SECTOR);
  }

  /** One round of the loop in ahci_read: read a sector and copy its piece, which follows what is copied already, to the output. */
  method ReadPiece(d: Disk, lba: nat, buf: array<byte>, off: nat, start: nat, n: nat, dest: array<byte>, copied: nat, ghost addr: nat)
    returns (ok: bool)
    requires off + SECTOR <= buf.Length && start + n <= SECTOR && copied + n <= dest.Length && buf != dest
    requires addr + copied == SECTOR * lba + start
    requires copied > 0 ==> addr + copied <= |d.bytes| && dest[..copied] == d.bytes[addr..addr + copied]
    modifies d`calls, buf, dest
    ensures d.calls >= old(d.calls) && (ok <==> NoFault(d.faulty, old(d.calls), d.calls) && SECTOR * lba + SECTOR <= |d.bytes|)
    ensures ok ==> addr + copied + n <= |d.bytes| && dest[..copied + n] == d.bytes[addr..addr + copied + n]
  {
    ok := d.ReadSector(lba, buf, off);
    if !ok {
      assert d.faulty(old(d.calls)) || SECTOR * lba + SECTOR > |d.bytes|;
      return;
    }
    ghost var sector, before := buf[off..off + SECTOR], dest[..copied];
    Copy(buf, off + start, dest, copied, n);
    assert buf[off + start..off + start + n] == sector[start..start + n];
    SliceOfSlice(d.bytes, SECTOR * lba, SECTOR, start, start + n);
    NextRead(d.bytes, before, addr, copied, n);
  }

  lemma SliceOfSlice(bytes: seq<byte>, a: nat, n: nat, s: nat, e: nat)
    requires s <= e <= n && a + n <= |bytes|
    ensures bytes[a..a + n][s..e] == bytes[a + s..a + e]
  {
    var x, y := bytes[a..a + n][s..e], bytes[a + s..a + e];
    assert |x| == |y| == e - s;
    assert forall k | 0 <= k < e - s :: x[k] == bytes[a + s + k] && y[k] == bytes[a + s + k];
  }

  /** The copying loop */
  method Copy(from: array<byte>, pos: nat, dest: array<byte>, copied: nat, chunk: nat)
    requires pos + chunk <= from.Length && copied + chunk <= dest.Length && from != dest
    modifies dest
    ensures dest[..copied + chunk] == old(dest[..copied]) + from[pos..pos + chunk]
    ensures dest[copied + chunk..] == old(dest[copied + chunk..])
  {
    var j := 0;
    while j < chunk
      invariant 0 <= j <= chunk
      invariant dest[..copied + j] == old(dest[..copied]) + from[pos..pos + j] && dest[copied + j..] == old(dest[copied + j..])
    {
      dest[copied + j] := from[pos + j];
      assert dest[..copied + j + 1] == dest[..copied + j] + [from[pos + j]];
      assert from[pos..pos + j + 1] == from[pos..pos + j] + [from[pos + j]];
      assert dest[copied + j + 1..] == old(dest[copied + j..])[1..] == old(dest[copied + j + 1..]);
      j := j + 1;
    }
  }

  lemma NextRead(bytes: seq<byte>, before: seq<byte>, addr: nat, copied: nat, n: nat)
    requires addr + copied + n <= |bytes| && (if copied == 0 then before == [] else before == bytes[addr..addr + copied])
    ensures before + bytes[addr + copied..addr + copied + n] == bytes[addr..addr + copied + n]
  {
  }

  /** ahci_read for a drive that exists: the bytes in the driver's buffer, or NULL. */
  method AhciRead(d: Disk, addr: nat, length: nat, byteBuffer: array<byte>) returns (found: bool)
    requires d.Valid() && addr < TWO_64 && length < TWO_64 && byteBuffer.Length == 256
    modifies d`calls, byteBuffer
    ensures d.calls >= old(d.calls)
    ensures found <==> 1 <= length <= 256 && addr + length <= |d.bytes| && NoFault(d.faulty, old(d.calls), d.calls)
    ensures found ==> byteBuffer[..length] == d.bytes[addr..addr + length]
  {
    hide Stored, SectorCount, StartOff, EndOff, Before, Sectors;
    if length == 0 || length > 256 {
      return false;
    }
    var startSector := addr / SECTOR;
    var sectors := SectorCount(addr, length);
    OnDisk(|d.bytes|, addr, length, sectors);
    if sectors > 2 {
      return false;
    }
    var buf := new byte[2 * SECTOR];
    ghost var wraps := addr + length > TWO_64;
    if !wraps {
      LastRound(addr, length, sectors);
    }
    ghost var bytes := d.bytes;
    var i, copied := 0, 0;
    BeforeNone(addr, length);
    while i < sectors
      invariant 0 <= i <= sectors && copied == Before(addr, length, i) <= length && (wraps ==> i == 0)
      invariant d.calls >= old(d.calls) && NoFault(d.faulty, old(d.calls), d.calls)
      invariant d.bytes == bytes && (addr + copied <= |bytes| || i == 0)
      invariant i > 0 ==> SECTOR * (startSector + i - 1) + SECTOR <= |bytes|
      invariant i > 0 ==> byteBuffer[..copied] == bytes[addr..addr + copied]
    {
      Round(addr, length, i, sectors);
      var start, end := StartOff(addr, i), EndOff(addr, length, i, sectors);
      var chunk := end - start;
      if chunk > length - copied {
        chunk := length - copied;
      }
      var ok := ReadPiece(d, startSector + i, buf, SECTOR * i, start, chunk, byteBuffer, copied, addr);
      if !ok {
        return false;
      }
      copied, i := copied + chunk, i + 1;
    }
    found := true;
  }

  // ----- Partitions -----

  datatype Part = Part(startLba: nat, sectorCount: nat)

  /** The bounds check and the translation of an offset, in 64-bit unsigned arithmetic; a negative length becomes a large one. */
  function Translate(p: Part, offset: nat, length: int): Option<nat> {
    if (offset + length % TWO_64) % TWO_64 > p.sectorCount * SECTOR % TWO_64 then None
    else Some((p.startLba * SECTOR + offset) % TWO_64)
  }

  predicate OnDrive(p: Part, size: nat) { (p.startLba + p.sectorCount) * SECTOR <= size < TWO_64 }

  predicate Disjoint(p: Part, q: Part) {
    p.startLba + p.sectorCount <= q.startLba || q.startLba + q.sectorCount <= p.startLba
  }

  predicate Inside(p: Part, addr: nat, length: nat) {
    p.startLba * SECTOR <= addr && addr + length <= (p.startLba + p.sectorCount) * SECTOR
  }

  /** An access that passes the check and lies on the disk is inside the partition exactly if offset plus length does not wrap around. */
  lemma ConfinedExactly(p: Part, offset: nat, length: nat, size: nat)
    requires OnDrive(p, size) && offset < TWO_64 && 1 <= length <= 256
    requires Translate(p, offset, length).Some? && Translate(p, offset, length).value + length <= size
    ensures Inside(p, Translate(p, offset, length).value, length) <==> offset + length < TWO_64
  {
    if offset + length < TWO_64 {
      NoWrap(p, offset, length, size);
    } else {
      Wrapped(p, offset, length, size);
    }
  }

  lemma NoWrap(p: Part, offset: nat, length: nat, size: nat)
    requires OnDrive(p, size) && offset + length < TWO_64
    ensures Translate(p, offset, length).Some? <==> offset + length <= p.sectorCount * SECTOR
    ensures Translate(p, offset, length).Some? ==> Translate(p, offset, length).value == p.startLba * SECTOR + offset
  {
    SmallMod(length);
    SmallMod(offset + length);
    SmallMod(p.sectorCount * SECTOR);
    if offset + length <= p.sectorCount * SECTOR {
      SmallMod(p.startLba * SECTOR + offset);
    }
  }

  lemma SmallMod(x: nat)
    requires x < TWO_64
    ensures x % TWO_64 == x
  {
  }

  lemma Wrapped(p: Part, offset: nat, length: nat, size: nat)
    requires OnDrive(p, size) && offset < TWO_64 <= offset + length && 1 <= length <= 256 && Translate(p, offset, length).Some?
    ensures var addr := Translate(p, offset, length).value; addr < p.startLba * SECTOR || addr + length > size
  {
    var start := p.startLba * SECTOR;
    if start + offset < TWO_64 {
      SmallMod(start + offset);
    } else {
      assert (start + offset) % TWO_64 == start + offset - TWO_64;
    }
  }

  /** The check does let such an access pass: the 256 bytes before the partition. */
  lemma EscapeBelow()
    ensures var p := Part(2, 8);
      && OnDrive(p, 16 * SECTOR) && Translate(p, TWO_64 - 256, 256) == Some(2 * SECTOR - 256)
      && !Inside(p, 2 * SECTOR - 256, 256)
  {
  }

  class Drives {
    const disks: seq<Disk>                 // drive_count is its length
    var parts: seq<seq<Part>>              // drive_parts
    const byteBuffer: array<byte>

    ghost predicate Valid()
      reads this, disks
    {
      && |parts| == |disks| && byteBuffer.Length == 256
      && (forall i | 0 <= i < |disks| :: disks[i].Valid())
      && (forall i, j | 0 <= i < j < |disks| :: disks[i] != disks[j])
    }

    constructor (disks: seq<Disk>, parts: seq<seq<Part>>)
      requires |parts| == |disks| && (forall i | 0 <= i < |disks| :: disks[i].Valid())
      requires forall i, j | 0 <= i < j < |disks| :: disks[i] != disks[j]
      ensures Valid() && this.disks == disks && this.parts == parts && fresh(byteBuffer)
    {
      this.disks, this.parts := disks, parts;
      byteBuffer := new byte[256](_ => 0);
    }

    predicate Known(drive: int, part: int)
      requires |parts| == |disks|
      reads this`parts
    {
      0 <= drive < |disks| && 0 <= part < |parts[drive]|
    }

    /** partition_write */
    method PartitionWrite(drive: int, part: int, offset: nat, length: int, data: seq<byte>) returns (err: int)
      requires Valid() && offset < TWO_64 && -0x8000_0000 <= length < 0x8000_0000 && |data| >= length
      modifies if 0 <= drive < |disks| then {disks[drive]} else {}
      ensures Valid() && (err == 0 || err == -1)
      ensures !(0 <= drive < |disks| && 0 <= part < |parts[drive]|) ==>
        err == -1 && (0 <= drive < |disks| ==> disks[drive].bytes == old(disks[drive].bytes))
      ensures 0 <= drive < |disks| && 0 <= part < |parts[drive]| ==>
        var d, p := disks[drive], parts[drive][part]; var bytes := old(disks[drive].bytes);
        if (offset + length % TWO_64) % TWO_64 > p.sectorCount * 512 % TWO_64 then err == -1 && d.bytes == bytes
        else
          var addr := (p.startLba * 512 + offset) % TWO_64;
          && (err == 0 <==> 1 <= length <= 256 && addr + length <= |bytes| && NoFault(d.faulty, old(disks[drive].calls), d.calls))
          && (err == 0 ==> d.bytes == Stored(bytes, addr, data[..length]))
          && (err == -1 ==> d.bytes == bytes || ToBoundary(bytes, d.bytes, addr, length % TWO_64, data))
    {
      hide Stored, ToBoundary;
      if !Known(drive, part) {
        return -1;
      }
      var p := parts[drive][part];
      match Translate(p, offset, length)
      case None => err := -1;
      case Some(addr) =>
        assert length >= 0 ==> length % TWO_64 == length;
        assert length < 0 ==> length % TWO_64 > 256;
        err := AhciWrite(disks[drive], addr, length % TWO_64, data);
    }

    /** partition_read: the bytes that are copied into the caller's buffer. */
    method PartitionRead(drive: int, part: int, offset: nat, length: int, buffer: array<byte>) returns (err: int)
      requires Valid() && offset < TWO_64 && -0x8000_0000 <= length < 0x8000_0000 && buffer.Length >= length && buffer != byteBuffer
      modifies if 0 <= drive < |disks| then {disks[drive]} else {}, byteBuffer, buffer
      ensures Valid() && (err == 0 || err == -1)
      ensures 0 <= drive < |disks| ==> disks[drive].bytes == old(disks[drive].bytes)
      ensures if err == 0 then 0 <= length && buffer[length..] == old(buffer[length..]) else buffer[..] == old(buffer[..])
      ensures !(0 <= drive < |disks| && 0 <= part < |parts[drive]|) ==> err == -1
      ensures 0 <= drive < |disks| && 0 <= part < |parts[drive]| ==>
        var d, p := disks[drive], parts[drive][part];
        if (offset + length % TWO_64) % TWO_64 > p.sectorCount * 512 % TWO_64 then err == -1
        else
          var addr := (p.startLba * 512 + offset) % TWO_64;
          && (err == 0 <==> 1 <= length <= 256 && addr + length <= |d.bytes| && NoFault(d.faulty, old(disks[drive].calls), d.calls))
          && (err == 0 ==> buffer[..length] == d.bytes[addr..addr + length])
    {
      if !Known(drive, part) {
        return -1;
      }
      var p := parts[drive][part];
      match Translate(p, offset, length)
      case None => err := -1;
      case Some(addr) =>
        assert length >= 0 ==> length % TWO_64 == length;
        assert length < 0 ==> length % TWO_64 > 256;
        var found := AhciRead(disks[drive], addr, length % TWO_64, byteBuffer);
        if !found {
          return -1;
        }
        Copy(byteBuffer, 0, buffer, 0, length);
        assert byteBuffer[0..length] == byteBuffer[..length];
        err := 0;
    }
  }

  /** Nothing stored through one partition, with a 32-bit offset, changes what is read through a disjoint one. */
  lemma OtherPartitionsKept(p: Part, q: Part, bytes: seq<byte>, after: seq<byte>, offset: nat, length: nat, data: seq<byte>,
                            offset': nat, length': nat)
    requires OnDrive(p, |bytes|) && OnDrive(q, |bytes|) && Disjoint(p, q)
    requires offset < 0x1_0000_0000 && offset' < 0x1_0000_0000 && 1 <= length <= 256 && 1 <= length' <= 256 && length <= |data|
    requires Translate(p, offset, length).Some? && Translate(q, offset', length').Some?
    requires var addr := Translate(p, offset, length).value;
      addr + length <= |bytes| && (after == Stored(bytes, addr, data[..length]) || ToBoundary(bytes, after, addr, length, data))
    ensures var from := Translate(q, offset', length').value;
      from + length' <= |bytes| && after[from..from + length'] == bytes[from..from + length']
  {
    hide Translate, Stored, ToBoundary;
    var addr, from := Translate(p, offset, length).value, Translate(q, offset', length').value;
    InsideOf(p, offset, length, |bytes|);
    InsideOf(q, offset', length', |bytes|);
    if after == Stored(bytes, addr, data[..length]) {
      SliceKept(bytes, addr, data[..length], from, length');
    } else {
      BoundaryKept(bytes, after, addr, length, data, from, length');
    }
  }

  lemma InsideOf(p: Part, offset: nat, length: nat, size: nat)
    requires OnDrive(p, size) && offset < 0x1_0000_0000 && 1 <= length <= 256 && Translate(p, offset, length).Some?
    ensures Inside(p, Translate(p, offset, length).value, length)
  {
    NoWrap(p, offset, length, size);
  }

  lemma SliceKept(bytes: seq<byte>, addr: nat, data: seq<byte>, from: nat, n: nat)
    requires addr + |data| <= |bytes| && from + n <= |bytes| && (from + n <= addr || addr + |data| <= from)
    ensures Stored(bytes, addr, data)[from..from + n] == bytes[from..from + n]
  {
    forall o | from <= o < from + n ensures Stored(bytes, addr, data)[o] == bytes[o] {
      StoredElsewhere(bytes, addr, data, o);
    }
  }

  lemma BoundaryKept(bytes: seq<byte>, after: seq<byte>, addr: nat, length: nat, data: seq<byte>, from: nat, n: nat)
    requires ToBoundary(bytes, after, addr, length, data) && from + n <= |bytes| && (from + n <= addr || addr + length <= from)
    ensures |after| == |bytes| && after[from..from + n] == bytes[from..from + n]
  {
    SliceKept(bytes, addr, data[..SECTOR - addr % SECTOR], from, n);
  }

  lemma StoredElsewhere(bytes: seq<byte>, addr: nat, data: seq<byte>, o: nat)
    requires addr + |data| <= |bytes| && o < |bytes| && (o < addr || addr + |data| <= o)
    ensures Stored(bytes, addr, data)[o] == bytes[o]
  {
  }
}
