// dfs.c: saving a folder's two hash maps to its slot on disk and loading them again.
module DfsFolder {
  import opened ChainMap
  import opened Common
  import opened FileImage
  import opened FolderImage
  import opened Memcmp
  import opened RamfsHash

  const DISK_CLEAN: int := 1      // RAMFS_FOLDER_TYPE_DISK_CLEAN

  datatype FolderData = FolderData(typ: int, driveAddr: int)
  datatype FileData = FileData(typ: int, length: int, driveAddr: int, loaded: bool)

  datatype DiskSub = DiskSub(name: string, driveAddr: int)
  datatype DiskFile = DiskFile(name: string, length: int, driveAddr: int)
  datatype DiskFolder = DiskFolder(name: string, used: bool, subs: seq<DiskSub>, files: seq<DiskFile>)

  /** The folder slots of a partition; an offset outside the map cannot be read. */
  class FolderArea {
    var slots: map<int, DiskFolder>
  }

  // ----- What a save keeps and a load gives back -----

  function SubOf(v: Info<FolderData>): DiskSub { DiskSub(v.name, v.data.driveAddr) }

  function FileOf(v: Info<FileData>): DiskFile { DiskFile(v.name, v.data.length, v.data.driveAddr) }

  function FolderInfo(d: DiskSub): Info<FolderData> { Info(d.name, FolderData(DISK_CLEAN, d.driveAddr)) }

  /** The loader gives files the type 0 and no data pointer. */
  function FileInfo(d: DiskFile): Info<FileData> { Info(d.name, FileData(0, d.length, d.driveAddr, false)) }

  function CleanFolder(d: FolderData): FolderData { FolderData(DISK_CLEAN, d.driveAddr) }

  function CleanFile(d: FileData): FileData { FileData(0, d.length, d.driveAddr, false) }

  /** The entries that loading records of a slot inserts, in order. */
  ghost function Entries<D, K>(records: seq<K>, info: K -> Info<D>): Chain<D> {
    seq(|records|, i requires 0 <= i < |records| => Entry(info(records[i]).name, info(records[i])))
  }

  /** The records that saving collects from a map. */
  ghost function Records<D, K>(m: Chains<D>, keep: Info<D> -> K): seq<K> {
    KeepAll(First(Flat(m)), keep)
  }

  ghost function First<D>(l: Chain<D>): Chain<D> {
    if |l| <= DFS_MAX_SUB_ENTRIES then l else l[..DFS_MAX_SUB_ENTRIES]
  }

  ghost function KeepAll<D, K>(l: Chain<D>, keep: Info<D> -> K): seq<K> {
    seq(|l|, i requires 0 <= i < |l| => keep(l[i].value))
  }

  /** A slot written by a save loads as the image of the two maps. */
  lemma SlotIsImage(folders: Chains<FolderData>, files: Chains<FileData>)
    ensures Entries(Records(folders, SubOf), FolderInfo) == Image(folders, CleanFolder)
    ensures Entries(Records(files, FileOf), FileInfo) == Image(files, CleanFile)
  {
    EntriesOfKept(First(Flat(folders)), SubOf, FolderInfo, CleanFolder);
    EntriesOfKept(First(Flat(files)), FileOf, FileInfo, CleanFile);
  }

  lemma EntriesOfKept<D, K>(l: Chain<D>, keep: Info<D> -> K, info: K -> Info<D>, clean: D -> D)
    requires forall i {:trigger l[i]} | 0 <= i < |l| :: info(keep(l[i].value)) == Info(l[i].value.name, clean(l[i].value.data))
    ensures Entries(KeepAll(l, keep), info) == CleanList(l, clean)
  {
    var r, c := Entries(KeepAll(l, keep), info), CleanList(l, clean);
    forall i | 0 <= i < |l| ensures r[i] == c[i] {
      assert KeepAll(l, keep)[i] == keep(l[i].value);
    }
  }

  /** A subfolder among the first 128 comes back from the slot under its name, with its address and as clean. */
  lemma FolderSurvives(m: Chains<FolderData>, i: nat)
    requires Good(m) && i < |Flat(m)| && i < 128
    ensures var e := Flat(m)[i]; var found := Find(Load(Entries(Records(m, SubOf), FolderInfo), SameName), e.key, SameName);
      found.Some? && found.value.name == e.key && found.value.data.driveAddr == e.value.data.driveAddr && found.value.data.typ == 1
  {
    hide Find, Load, Flat, Good, Image, Entries, Records;
    SlotIsImage(m, Empty());
    SameNameIsEquality();
    SavedThenLoaded(m, CleanFolder, i, SameName);
  }

  /** So does a file of a map of at most 128 without dominating names, with its length and address, as type 0 and without data. */
  lemma FileSurvives(m: Chains<FileData>, i: nat, skip: bool)
    requires Good(m) && i < |Flat(m)| <= 128 && NamesApart(Flat(m))
    ensures var e := Flat(m)[i]; var found := Find(Loaded(Entries(Records(m, FileOf), FileInfo), skip), e.key, FileEq);
      && found.Some? && found.value.name == e.key
      && found.value.data.length == e.value.data.length && found.value.data.driveAddr == e.value.data.driveAddr
      && found.value.data.typ == 0 && !found.value.data.loaded
  {
    hide Find, Loaded, Flat, Good, Image, Entries, Records, NamesApart, FileEq;
    SlotIsImage(Empty(), m);
    FileRoundTrip(m, CleanFile, skip);
    assert Restored(m, CleanFile, skip, Flat(m)[i]);
  }

  // ----- Folders in memory -----

  ghost function FootprintOf<D>(m: HashMap<D>): set<object>
    reads m`buckets, m`repr
  {
    {m, m.buckets} + m.repr
  }

  class Folder {
    var name: string
    var typ: int
    var driveAddr: int
    var isMountRoot: bool
    var mounted: bool             // mount != NULL
    var folders: HashMap<FolderData>
    var files: HashMap<FileData>

    ghost function FileFootprint(): set<object>
      reads this`files, files`buckets, files`repr
    {
      FootprintOf(files)
    }

    ghost function FolderFootprint(): set<object>
      reads this`folders, folders`buckets, folders`repr
    {
      FootprintOf(folders)
    }

    ghost predicate Valid()
      reads this, folders, files, folders.buckets, files.buckets, folders.repr, files.repr
    {
      folders.Valid() && files.Valid() && FolderFootprint() !! FileFootprint() && this !in FolderFootprint() + FileFootprint()
    }

    constructor (name: string, typ: int, driveAddr: int, mounted: bool, folders: HashMap<FolderData>, files: HashMap<FileData>)
      ensures this.name == name && this.typ == typ && this.driveAddr == driveAddr && this.mounted == mounted
      ensures this.folders == folders && this.files == files && !isMountRoot
    {
      this.name, this.typ, this.driveAddr, this.isMountRoot, this.mounted := name, typ, driveAddr, false, mounted;
      this.folders, this.files := folders, files;
    }
  }

  /** The collecting loops of dfs_save_folder_to_disk: bucket by bucket, node by node, at most 128 records. */
  method Collect<D, K>(m: HashMap<D>, keep: Info<D> -> K) returns (l: seq<K>)
    requires m.Valid()
    ensures l == Records(m.entries, keep)
  {
    hide Flat, Holds, NodeAt;
    l := [];
    ghost var n := 0;
    var b := 0;
    FlatStart(m.entries);
    while b < BUCKETS && |l| < DFS_MAX_SUB_ENTRIES
      invariant b <= BUCKETS
      invariant l == KeepAll(First(Flat(m.entries[..b])), keep)
    {
      FlatStep(m.entries, b);
      l := CollectChain(m, b, l, Flat(m.entries[..b]), keep);
      b := b + 1;
    }
    FlatFrom(m.entries, b);
    FirstOfLonger(Flat(m.entries[..b]), Flat(m.entries), keep);
  }

  lemma {:induction false} FlatFrom<D>(m: Chains<D>, b: nat)
    requires b <= |m|
    ensures Flat(m[..b]) <= Flat(m)
  {
    if b == |m| {
      assert m[..b] == m;
    } else {
      FlatFrom(m[..|m| - 1], b);
      assert m[..|m| - 1][..b] == m[..b];
    }
  }

  lemma FirstOfLonger<D, K>(x: Chain<D>, y: Chain<D>, keep: Info<D> -> K)
    requires x <= y && (x == y || |KeepAll(First(x), keep)| >= DFS_MAX_SUB_ENTRIES)
    ensures First(x) == First(y)
  {
  }

  method CollectChain<D, K>(m: HashMap<D>, b: nat, before: seq<K>, ghost f: Chain<D>, keep: Info<D> -> K) returns (l: seq<K>)
    requires m.Valid() && b < BUCKETS && before == KeepAll(f, keep) && |f| < DFS_MAX_SUB_ENTRIES
    ensures l == KeepAll(First(f + m.entries[b]), keep)
  {
    hide Flat;
    l := before;
    var node := m.buckets[b];
    ghost var i := 0;
    ghost var s, c := m.nodes[b], m.entries[b];
    while node != null && |l| < DFS_MAX_SUB_ENTRIES
      invariant i <= |s| && node == NodeAt(s, i) && |l| == |f| + i <= DFS_MAX_SUB_ENTRIES
      invariant l == KeepAll(f + c[..i], keep)
      decreases |s| - i
    {
      assert f + c[..i + 1] == f + c[..i] + [c[i]];
      l, node, i := l + [keep(node.value)], node.next, i + 1;
    }
    assert f + c[..i] == First(f + c);
  }

  /** dfs_save_folder_to_disk; written is the code that the partition write returns, and a failed one may leave anything in the slot. */
  method SaveFolderToDisk(f: Folder, disk: FolderArea, written: int, torn: DiskFolder) returns (err: int)
    requires f.Valid()
    modifies disk
    ensures err == written
    ensures disk.slots == old(disk.slots)[f.driveAddr := if written != 0 then torn else
      DiskFolder(f.name, true, Records(f.folders.entries, SubOf), Records(f.files.entries, FileOf))]
  {
    hide Records;
    var subs := Collect(f.folders, SubOf);
    var files := Collect(f.files, FileOf);
    disk.slots := disk.slots[f.driveAddr := if written != 0 then torn else DiskFolder(f.name, true, subs, files)];
    err := written;
  }

  /** The insertion loop of dfs_load_folder_from_disk, into a new map. It stops when there is no memory for record i's struct. */
  method LoadMap<D, K>(records: seq<K>, info: K -> Info<D>, eq: KeyEq, noStruct: nat -> bool, noNode: nat -> bool)
    returns (m: HashMap<D>, ok: bool)
    ensures m.Valid() && fresh(m) && fresh(m.buckets) && fresh(m.repr) && m.eq == eq
    ensures ok == (FirstTrue(noStruct, |records|) == |records|)
    ensures m.entries == LoadUnder(Entries(records, info)[..FirstTrue(noStruct, |records|)], noNode, eq)
  {
    hide HashMap<D>.Valid, ChainMap.Insert, ChainMap.Find;
    m := new HashMap(eq);
    ghost var l, k := Entries(records, info), FirstTrue(noStruct, |records|);
    var i := 0;
    while i < |records|
      invariant i <= k && m.Valid() && fresh(m) && fresh(m.buckets) && fresh(m.repr) && m.eq == eq
      invariant m.entries == LoadUnder(l[..i], noNode, eq)
    {
      if noStruct(i) {
        return m, false;
      }
      var v := info(records[i]);
      LoadUnderStep(l, i, noNode, eq);
      var added := m.Insert(v.name, v.data, noNode(i));
      i := i + 1;
    }
    ok := true;
  }

  lemma LoadUnderStep<D>(l: Chain<D>, i: nat, noNode: nat -> bool, eq: KeyEq)
    requires i < |l|
    ensures LoadUnder(l[..i + 1], noNode, eq) ==
      var m := LoadUnder(l[..i], noNode, eq);
      if noNode(i) && Find(m, l[i].key, eq) == None then m else Insert(m, l[i].key, l[i].value.data, eq)
  {
    hide Insert, Find;
    assert l[..i + 1][..i] == l[..i];
  }

  /** No allocation fails. */
  function NoFailure(i: nat): bool { false }

  /** Files need no struct. */
  method LoadFiles(records: seq<DiskFile>, eq: KeyEq, noNode: nat -> bool) returns (m: HashMap<FileData>, ok: bool)
    ensures m.Valid() && fresh(m) && fresh(m.buckets) && fresh(m.repr) && m.eq == eq && ok
    ensures m.entries == LoadUnder(Entries(records, FileInfo), noNode, eq)
  {
    hide LoadUnder, HashMap<FileData>.Valid;
    m, ok := LoadMap(records, FileInfo, eq, NoFailure, noNode);
    ghost var l := Entries(records, FileInfo);
    assert l[..|records|] == l;
  }

  /** Both maps of a folder; the files are left out when the folders did not go through. */
  method LoadMaps(d: DiskFolder, folderEq: KeyEq, fileEq: KeyEq, noStruct: nat -> bool, noNode: nat -> bool, noFileNode: nat -> bool)
    returns (folders: HashMap<FolderData>, files: HashMap<FileData>, ok: bool)
    ensures folders.Valid() && files.Valid()
    ensures fresh(folders) && fresh(folders.buckets) && fresh(folders.repr) && fresh(files) && fresh(files.buckets) && fresh(files.repr)
    ensures FootprintOf(folders) !! FootprintOf(files)
    ensures ok == (FirstTrue(noStruct, |d.subs|) == |d.subs|)
    ensures folders.entries == LoadUnder(Entries(d.subs, FolderInfo)[..FirstTrue(noStruct, |d.subs|)], noNode, folderEq)
    ensures files.entries == if ok then LoadUnder(Entries(d.files, FileInfo), noFileNode, fileEq) else Empty()
  {
    hide LoadUnder, FirstTrue, HashMap<FolderData>.Valid, HashMap<FileData>.Valid, Empty;
    folders, ok := LoadMap(d.subs, FolderInfo, folderEq, noStruct, noNode);
    ghost var before := FootprintOf(folders);
    if ok {
      var loaded;
      files, loaded := LoadFiles(d.files, fileEq, noFileNode);
    } else {
      files := new HashMap(fileEq);
    }
    assert FootprintOf(folders) == before;
  }

  /** dfs_load_folder_from_disk */
  method LoadFolderFromDisk(f: Folder, disk: FolderArea, offset: int, fault: bool, folderEq: KeyEq, fileEq: KeyEq,
                            noStruct: nat -> bool, noNode: nat -> bool, noFileNode: nat -> bool) returns (err: int)
    modifies f
    ensures err == if fault || offset !in disk.slots then -1 else if !disk.slots[offset].used then -2
                   else if FirstTrue(noStruct, |disk.slots[offset].subs|) < |disk.slots[offset].subs| then -3 else 0
    ensures err == -1 || err == -2 ==> unchanged(f)
    ensures f.mounted == old(f.mounted)
    ensures err == 0 || err == -3 ==>
      f.Valid() && f.name == disk.slots[offset].name && f.typ == DISK_CLEAN && f.driveAddr == offset && !f.isMountRoot
    ensures err == 0 || err == -3 ==>
      var d := disk.slots[offset];
      && f.folders.entries == LoadUnder(Entries(d.subs, FolderInfo)[..FirstTrue(noStruct, |d.subs|)], noNode, folderEq)
      && f.files.entries == if err == -3 then Empty() else LoadUnder(Entries(d.files, FileInfo), noFileNode, fileEq)
  {
    hide LoadUnder, Entries, FirstTrue, HashMap<FolderData>.Valid, HashMap<FileData>.Valid, Empty;
    if fault || offset !in disk.slots {
      return -1;
    }
    var d := disk.slots[offset];
    if !d.used {
      return -2;
    }
    var folders, files, ok := LoadMaps(d, folderEq, fileEq, noStruct, noNode, noFileNode);
    f.name, f.typ, f.driveAddr, f.isMountRoot, f.folders, f.files := d.name, DISK_CLEAN, offset, false, folders, files;
    err := if ok then 0 else -3;
  }

  /** An empty map holds sixteen empty chains. */
  lemma {:induction false} NoEntries<D>(m: Chains<D>)
    requires |Flat(m)| == 0
    ensures forall b {:trigger m[b]} | 0 <= b < |m| :: m[b] == []
  {
    if m != [] {
      NoEntries(m[..|m| - 1]);
    }
  }

  /** The insertion loop of dfs_load_folder_children: a name that is found already is skipped. */
  method AddChildren<D, K>(m: HashMap<D>, records: seq<K>, info: K -> Info<D>, noStruct: nat -> bool, noNode: nat -> bool)
    returns (ok: bool)
    requires m.Valid() && m.count == 0
    modifies m, m.buckets, m.repr
    ensures m.Valid() && m.buckets == old(m.buckets) && fresh(m.repr - old(m.repr))
    ensures (m.entries, ok) == LoadChildrenUnder(Entries(records, info), noStruct, noNode, m.eq)
  {
    hide ChainMap.Insert, ChainMap.Find, Flat, LoadChildrenUnder;
    ghost var l := Entries(records, info);
    NoEntries(m.entries);
    LoadNoChildren<D>(noStruct, noNode, m.eq);
    assert m.entries == Empty() && l[..0] == [];
    var i := 0;
    while i < |records|
      invariant i <= |records| && m.Valid() && m.buckets == old(m.buckets) && fresh(m.repr - old(m.repr))
      invariant (m.entries, true) == LoadChildrenUnder(l[..i], noStruct, noNode, m.eq)
    {
      var v := info(records[i]);
      LoadChildrenStep(l, i, noStruct, noNode, m.eq);
      var found := m.Find(v.name);
      if found == None {
        if noStruct(i) {
          GivenUp(l, i + 1, noStruct, noNode, m.eq);
          return false;
        }
        var added := m.Insert(v.name, v.data, noNode(i));
      }
      i := i + 1;
    }
    assert l[..i] == l;
    ok := true;
  }

  lemma LoadNoChildren<D>(noStruct: nat -> bool, noNode: nat -> bool, eq: KeyEq)
    ensures LoadChildrenUnder<D>([], noStruct, noNode, eq) == (Empty(), true)
  {
  }

  lemma LoadChildrenStep<D>(l: Chain<D>, i: nat, noStruct: nat -> bool, noNode: nat -> bool, eq: KeyEq)
    requires i < |l|
    ensures LoadChildrenUnder(l[..i + 1], noStruct, noNode, eq) ==
      var (m, ok) := LoadChildrenUnder(l[..i], noStruct, noNode, eq);
      if !ok || Find(m, l[i].key, eq) != None then (m, ok)
      else if noStruct(i) then (m, false)
      else if noNode(i) then (m, true)
      else (Insert(m, l[i].key, l[i].value.data, eq), true)
  {
    hide Insert, Find;
    assert l[..i + 1][..i] == l[..i];
  }

  /** Having given up, the loader changes nothing more. */
  lemma {:induction false} GivenUp<D>(l: Chain<D>, i: nat, noStruct: nat -> bool, noNode: nat -> bool, eq: KeyEq)
    requires i <= |l| && !LoadChildrenUnder(l[..i], noStruct, noNode, eq).1
    ensures LoadChildrenUnder(l, noStruct, noNode, eq) == LoadChildrenUnder(l[..i], noStruct, noNode, eq)
  {
    hide Find, Insert;
    if i == |l| {
      assert l[..i] == l;
    } else {
      assert l[..|l| - 1][..i] == l[..i];
      GivenUp(l[..|l| - 1], i, noStruct, noNode, eq);
    }
  }

  /** dfs_load_folder_children */
  method LoadFolderChildren(f: Folder, disk: FolderArea, fault: bool, noStruct: nat -> bool, noNode: nat -> bool, noFileNode: nat -> bool)
    returns (err: int)
    requires f.Valid()
    modifies f.FolderFootprint(), f.FileFootprint()
    ensures f.Valid()
    ensures var empty := old(f.folders.count == 0 && f.files.count == 0);
      !(f.typ == 1 && empty && f.mounted && !fault && f.driveAddr in disk.slots && disk.slots[f.driveAddr].used) ==>
        && f.folders.entries == old(f.folders.entries) && f.files.entries == old(f.files.entries)
        && err == if f.typ != 1 then -1 else if !empty then 0 else if !f.mounted then -2
                  else if fault || f.driveAddr !in disk.slots then -3 else -4
    ensures (f.typ == 1 && old(f.folders.count == 0 && f.files.count == 0) && f.mounted && !fault && f.driveAddr in disk.slots
             && disk.slots[f.driveAddr].used) ==>
      var d := disk.slots[f.driveAddr];
      var (folders, ok) := LoadChildrenUnder(Entries(d.subs, FolderInfo), noStruct, noNode, f.folders.eq);
      && err == (if ok then 0 else -5) && f.folders.entries == folders
      && f.files.entries == if ok then LoadChildrenUnder(Entries(d.files, FileInfo), NoFailure, noFileNode, f.files.eq).0 else Empty()
  {
    hide LoadChildrenUnder, Entries, Holds, Flat;
    if f.typ != DISK_CLEAN {
      return -1;
    }
    if f.folders.count != 0 || f.files.count != 0 {
      return 0;
    }
    if !f.mounted {
      return -2;
    }
    if fault || f.driveAddr !in disk.slots {
      return -3;
    }
    var d := disk.slots[f.driveAddr];
    if !d.used {
      return -4;
    }
    EmptyFiles(f);
    var ok := AddChildren(f.folders, d.subs, FolderInfo, noStruct, noNode);
    if !ok {
      return -5;
    }
    var loaded := AddChildren(f.files, d.files, FileInfo, NoFailure, noFileNode);
    err := 0;
  }

  lemma EmptyFiles(f: Folder)
    requires f.Valid() && f.files.count == 0
    ensures f.files.entries == Empty()
  {
    NoEntries(f.files.entries);
  }
}
