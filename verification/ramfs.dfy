// ramfs.c: the operations on memory directories.
module Ramfs {
  import opened Common
  import opened RamfsLookup
  import opened RamfsTree
  import opened RamfsPath
  import opened RamfsHeap

  // ----- The pointers that an operation changes -----

  lemma AddDirSlots(ds: Dirs, p: int, n: string, node: int, a: int)
    requires p in ds && a !in ds && n !in ds[p].folders && n !in ds[p].files
    ensures forall s {:trigger AddrOf(AddDir(ds, p, n, node, a), s)} ::
      AddrOf(AddDir(ds, p, n, node, a), s) == (if s == Struct(p, n) then a else if s == FolderNode(p, n) then node else AddrOf(ds, s))
  {
  }

  lemma CutDirSlots(ds: Dirs, rank: map<int, nat>, p: int, n: string)
    requires TreeOk(ds, rank) && p in ds && n in ds[p].folders && ds[p].folders[n].ptr in ds
    requires ds[ds[p].folders[n].ptr].folders == map[] && ds[ds[p].folders[n].ptr].files == map[]
    ensures forall s {:trigger AddrOf(CutDir(ds, p, n), s)} ::
      AddrOf(CutDir(ds, p, n), s) == (if s == Struct(p, n) || s == FolderNode(p, n) then NULL else AddrOf(ds, s))
  {
    assert Hangs(ds, rank, ds[p].folders[n].ptr) && Leads(ds, p, n);
  }

  lemma SetFileSlots(ds: Dirs, p: int, n: string, f: File)
    requires p in ds
    ensures forall s {:trigger AddrOf(SetFile(ds, p, n, f), s)} ::
      AddrOf(SetFile(ds, p, n, f), s) == (if s == FileNode(p, n) then f.node else if s == Buffer(p, n) then f.ptr else AddrOf(ds, s))
  {
  }

  lemma CutFileSlots(ds: Dirs, p: int, n: string)
    requires p in ds
    ensures forall s {:trigger AddrOf(CutFile(ds, p, n), s)} ::
      AddrOf(CutFile(ds, p, n), s) == (if s == FileNode(p, n) || s == Buffer(p, n) then NULL else AddrOf(ds, s))
  {
  }

  // ----- Arguments -----

  /** Where an operation with this from argument works: the current directory, or what the path leads to. */
  function Base(ds: Dirs, current: int, from: Option<string>): int {
    match from case None => current case Some(path) => Resolve(ds, current, path)
  }

  /** Index of the last slash, or -1. */
  function LastSlash(s: string): (i: int)
    ensures -1 <= i < |s| && (i >= 0 ==> s[i] == '/')
    ensures forall j | i < j < |s| :: s[j] != '/'
  {
    if s == "" then -1 else if s[|s| - 1] == '/' then |s| - 1 else LastSlash(s[..|s| - 1])
  }

  /** Result of splitting a file argument: an error code, or a directory and the name of a file in it. */
  datatype Place = Bad(err: int) | At(dir: int, file: string)

  /** An absolute directory part is resolved from the root, any other from the base. The part is empty, which fails, for "/f". */
  function Locate(ds: Dirs, current: int, name: string, from: Option<string>): (place: Place)
    ensures place.Bad? ==> place.err == -1 || place.err == -2
    ensures place.At? ==> place.dir != NULL
  {
    var i := LastSlash(name);
    if i == -1 then
      if Base(ds, current, from) == NULL then Bad(-2) else At(Base(ds, current, from), name)
    else if i == |name| - 1 then Bad(-1)
    else
      var path, file := name[..i], name[i + 1..];
      var base := if path != "" && path[0] == '/' then ROOT else Base(ds, current, from);
      if base == NULL || Resolve(ds, base, path) == NULL then Bad(-2) else At(Resolve(ds, base, path), file)
  }

  lemma {:induction false} LastSlashIs(p: string, f: string)
    requires '/' !in f
    ensures LastSlash(p + "/" + f) == |p|
  {
    var s := p + "/" + f;
    if f != "" {
      assert s[..|s| - 1] == p + "/" + f[..|f| - 1];
      assert f[|f| - 1] in f && forall c | c in f[..|f| - 1] :: c in f;
      LastSlashIs(p, f[..|f| - 1]);
    }
  }

  /** An absolute file name is looked up from the root, whatever from says; cut at its only slash, at the front, it is refused. */
  lemma LocateAbsolute(ds: Dirs, current: int, name: string, from: Option<string>)
    requires name != "" && name[0] == '/' && LastSlash(name) < |name| - 1
    ensures LastSlash(name) == 0 ==> Locate(ds, current, name, from) == Bad(-2)
    ensures LastSlash(name) > 0 ==>
      var dir := Resolve(ds, ROOT, name[..LastSlash(name)]);
      Locate(ds, current, name, from) == if dir == NULL then Bad(-2) else At(dir, name[LastSlash(name) + 1..])
  {
    hide Walk, Split;
    if LastSlash(name) == 0 {
      assert name[..0] == "";
    }
  }

  /** Directory path, slash and file name lead to that file exactly if the directory's path leads back to the directory. */
  lemma LocatePrinted(ds: Dirs, rank: map<int, nat>, current: int, dir: int, f: string, from: Option<string>)
    requires TreeOk(ds, rank) && dir in ds && f != "" && '/' !in f
    ensures Locate(ds, current, PathOf(ds, rank, dir) + "/" + f, from) == At(dir, f) <==> AllPlain(ds, rank, dir)
  {
    hide TreeOk, Locate, LastSlash, PathOf, AllPlain, Resolve;
    RootIn(ds, rank);
    var p := PathOf(ds, rank, dir);
    var name := p + "/" + f;
    LastSlashIs(p, f);
    LocateAbsolute(ds, current, name, from);
    assert name[..|p|] == p && name[|p| + 1..] == f;
    PathRoundTrip(ds, rank, ROOT, dir);
  }

  /** The other names: relative to the base. */
  lemma LocateRelative(ds: Dirs, current: int, p: string, f: string, from: Option<string>)
    requires p != "" && p[0] != '/' && f != "" && '/' !in f
    ensures var base := if from == None then current else Resolve(ds, current, from.value);
      Locate(ds, current, p + "/" + f, from) ==
      if base == NULL || Resolve(ds, base, p) == NULL then Bad(-2) else At(Resolve(ds, base, p), f)
  {
    hide LastSlash, Resolve;
    var name := p + "/" + f;
    LastSlashIs(p, f);
    assert name[..|p|] == p && name[|p| + 1..] == f;
  }

  /** A name without a slash is that of a file of the base; one that ends in a slash is refused. */
  lemma LocatePlain(ds: Dirs, current: int, f: string, p: string, from: Option<string>)
    requires '/' !in f
    ensures var base := if from == None then current else Resolve(ds, current, from.value);
      Locate(ds, current, f, from) == if base == NULL then Bad(-2) else At(base, f)
    ensures Locate(ds, current, p + "/", from) == Bad(-1)
  {
    hide Resolve;
    LastSlashIs(p, "");
    assert p + "/" + "" == p + "/";
  }

  /** A file directly below the root cannot be named "/f"; "//f" names it. */
  lemma FileBelowRoot(ds: Dirs, rank: map<int, nat>, current: int, from: Option<string>)
    requires TreeOk(ds, rank)
    ensures Locate(ds, current, "/f", from) == Bad(-2) && Locate(ds, current, "//f", from) == At(ROOT, "f")
  {
    hide TreeOk, Locate, LastSlash;
    RootIn(ds, rank);
    LastSlashIs("", "f");
    assert "" + "/" + "f" == "/f";
    LocateAbsolute(ds, current, "/f", from);
    LastSlashIs("/", "f");
    assert "/" + "/" + "f" == "//f";
    LocateAbsolute(ds, current, "//f", from);
    assert "//f"[..1] == "/" && "//f"[2..] == "f";
    RootPath(ds, rank, ROOT);
  }

  /** strrchr(s, '/') */
  method FindLastSlash(s: string) returns (i: int)
    ensures i == LastSlash(s)
  {
    i := |s| - 1;
    assert s[..i + 1] == s;
    while i >= 0 && s[i] != '/'
      invariant -1 <= i < |s| && LastSlash(s) == LastSlash(s[..i + 1])
    {
      assert s[..i + 1][..i] == s[..i];
      i := i - 1;
    }
  }

  class RamFs {
    var dirs: Dirs
    var live: set<int>                // blocks that malloc returned and free did not take back
    var data: map<int, seq<byte>>     // what the buffers hold
    var current: int
    var currentPath: string
    const lookup: Lookup              // which file a name finds
    ghost var rank: map<int, nat>
    ghost var owner: map<int, Slot>

    /** Tree, heap and contents are in order. */
    ghost predicate Sound()
      reads this
    {
      TreeOk(dirs, rank) && NodesOk(dirs) && Own(dirs, live, owner) && FilesOk(dirs, data) && LookupOk(lookup)
    }

    ghost predicate Valid()
      reads this
    {
      Sound() && current in dirs
    }

    /** The root alone. */
    constructor (lookup: Lookup)
      requires LookupOk(lookup)
      ensures this.lookup == lookup
      ensures Valid() && dirs == map[ROOT := Dir("", NULL, map[], map[])] && live == {} && current == ROOT
    {
      dirs, live, data, current, currentPath := map[ROOT := Dir("", NULL, map[], map[])], {}, map[], ROOT, "/";
      rank, owner := map[ROOT := 0], map[];
      this.lookup := lookup;
    }

    /** The entry that ramfs_file_hashmap_find returns for n in directory p. */
    function FileIn(ds: Dirs, p: int, n: string): Option<string> {
      if p in ds then lookup(ds[p].files, n) else None
    }

    /** An address that malloc may return. */
    predicate Fresh(a: int)
      reads this`live
    {
      a !in live && a != NULL && a != ROOT
    }

    /** malloc: pick is the block it finds; one that is not free means that it finds none. */
    method Malloc(pick: int) returns (a: int)
      modifies this`live
      ensures a == if old(Fresh(pick)) then pick else NULL
      ensures live == if a == NULL then old(live) else old(live) + {a}
    {
      a := if Fresh(pick) then pick else NULL;
      if a != NULL {
        live := live + {a};
      }
    }

    /** free; taking back a block that is not live is excluded. */
    method Free(a: int)
      requires a in live
      modifies this`live
      ensures live == old(live) - {a}
    {
      live := live - {a};
    }

    /** _get_dir_by_path on memory directories */
    method GetDirByPath(base: int, path: string) returns (dir: int)
      requires Sound() && base in dirs
      ensures dir == Resolve(dirs, base, path) && (dir == NULL || dir in dirs)
    {
      hide TreeOk, NodesOk, Own, FilesOk, Walk, Split;
      if path == "" {
        return NULL;
      }
      RootIn(dirs, rank);
      var cur, part := base, 0;
      if path[0] == '/' {
        cur, part := ROOT, 1;
      }
      ghost var result := Walk(dirs, cur, Split(path[part..]));
      WalkLands(dirs, rank, cur, Split(path[part..]));
      while true
        invariant part <= |path| && cur in dirs
        invariant Walk(dirs, cur, Split(path[part..])) == result
        decreases |path| - part
      {
        var end := part;
        while end < |path| && path[end] != '/'
          invariant part <= end <= |path| && '/' !in path[part..end]
        {
          end := end + 1;
        }
        SplitAt(path, part, end);
        WalkOne(dirs, rank, cur, path[part..end], if end == |path| then [] else Split(path[end + 1..]));
        var name := path[part..end];
        if name != "" {
          if name == "." {
          } else if name == ".." {
            if dirs[cur].parent != NULL {
              cur := dirs[cur].parent;
            } else {
              return cur;
            }
          } else {
            if name !in dirs[cur].folders {
              return NULL;
            }
            cur := dirs[cur].folders[name].ptr;
          }
        }
        if end == |path| {
          WalkEnd(dirs, cur);
          break;
        }
        part := end + 1;
      }
      dir := cur;
    }

    /** The parent argument of an operation. */
    method FindBase(from: Option<string>) returns (dir: int)
      requires Valid()
      ensures dir == Base(dirs, current, from) && (dir == NULL || dir in dirs)
      ensures dir == if from == None then current else Resolve(dirs, current, from.value)
    {
      match from
      case None => dir := current;
      case Some(path) => dir := GetDirByPath(current, path);
    }

    /** The start of fs_touch, fs_rm and fs_backspace. */
    method FindFile(name: string, from: Option<string>) returns (place: Place)
      requires Valid()
      ensures place == Locate(dirs, current, name, from) && (place.At? ==> place.dir in dirs)
    {
      hide TreeOk, NodesOk, Own, FilesOk, Resolve, LastSlash, Base;
      RootIn(dirs, rank);
      var i := FindLastSlash(name);
      var base;
      if i == -1 {
        base := FindBase(from);
        return if base == NULL then Bad(-2) else At(base, name);
      }
      if i == |name| - 1 {
        return Bad(-1);
      }
      var path := name[..i];
      if path != "" && path[0] == '/' {
        base := ROOT;
      } else {
        base := FindBase(from);
        if base == NULL {
          return Bad(-2);
        }
      }
      var dir := GetDirByPath(base, path);
      place := if dir == NULL then Bad(-2) else At(dir, name[i + 1..]);
    }

    /** fs_mkdir: two blocks, one for the struct and one for the hash node. */
    method Mkdir(name: string, from: Option<string>, pick0: int, pick1: int) returns (err: int)
      requires Valid()
      modifies this`dirs, this`live, this`rank, this`owner
      ensures Valid()
      ensures var p := Base(old(dirs), current, from);
        if name == "" || |name| > 127 then err == -1
        else if p == NULL then err == -2
        else if p !in old(dirs) then false
        else if name in old(dirs)[p].folders then err == -3
        else if lookup(old(dirs)[p].files, name).Some? then err == -4
        else err == if old(Fresh(pick0) && Fresh(pick1)) && pick0 != pick1 then 0 else -5
      ensures err != 0 ==> dirs == old(dirs) && live == old(live) && rank == old(rank)
      ensures err == 0 ==> var p := Base(old(dirs), current, from);
        p in old(dirs) && pick0 !in old(dirs) && dirs == AddDir(old(dirs), p, name, pick1, pick0)
        && dirs == old(dirs)[pick0 := Dir(name, p, map[], map[])][p := old(dirs)[p].(folders := old(dirs)[p].folders[name := Sub(pick1, pick0)])]
        && live == old(live) + {pick0, pick1} && FilesOk(old(dirs), data) && OthersKept(old(dirs), data, dirs, data, p, name)
    {
      hide TreeOk, NodesOk, Own, FilesOk, OthersKept, AddDir, Resolve, LookupOk;
      if !ShortName(name) {
        return -1;
      }
      var parent := FindBase(from);
      if parent == NULL {
        return -2;
      }
      if name in dirs[parent].folders {
        return -3;
      }
      if FileIn(dirs, parent, name) != None {
        return -4;
      }
      PresentIsFound(lookup, dirs[parent].files, name);
      var newDir := Malloc(pick0);
      if newDir == NULL {
        return -5;
      }
      var node := Malloc(pick1);
      if node == NULL {
        Free(newDir);
        assert live == old(live);
        return -5;
      }
      NewDirSound(dirs, rank, old(live), live, owner, data, parent, name, node, newDir);
      AddDirIs(dirs, parent, name, node, newDir);
      owner := NewOwner(owner, live, Struct(parent, name), newDir, FolderNode(parent, name), node);
      rank := rank[newDir := rank[parent] + 1];
      dirs := AddDir(dirs, parent, name, node, newDir);
      err := 0;
    }

    /** fs_rmdir. Nothing stops it from removing the current directory: then, and only then, current is left dangling. */
    method Rmdir(name: string, from: Option<string>) returns (err: int)
      requires Valid()
      modifies this`dirs, this`live, this`owner
      ensures Sound()
      ensures var p := Base(old(dirs), current, from);
        if p == NULL then err == -2
        else if p !in old(dirs) then false
        else if name !in old(dirs)[p].folders then err == -3
        else var c := old(dirs)[p].folders[name].ptr;
          c in old(dirs) && err == if old(dirs)[c].folders == map[] && old(dirs)[c].files == map[] then 0 else -4
      ensures err != 0 ==> dirs == old(dirs) && live == old(live)
      ensures err == 0 ==> var p := Base(old(dirs), current, from); var c := old(dirs)[p].folders[name];
        && dirs == CutDir(old(dirs), p, name) && live == old(live) - {c.ptr, c.node}
        && dirs == old(dirs)[p := old(dirs)[p].(folders := old(dirs)[p].folders - {name})] - {c.ptr}
        && (Valid() <==> c.ptr != current)
        && FilesOk(old(dirs), data) && OthersKept(old(dirs), data, dirs, data, p, name)
    {
      hide TreeOk, NodesOk, Own, FilesOk, OthersKept, Resolve, LookupOk;
      var parent := FindBase(from);
      if parent == NULL {
        return -2;
      }
      if name !in dirs[parent].folders {
        return -3;
      }
      var entry := dirs[parent].folders[name];
      WalkStep(dirs, rank, parent, name);
      if dirs[entry.ptr].folders != map[] || dirs[entry.ptr].files != map[] {
        return -4;
      }
      EntryLive(dirs, rank, live, owner, parent, name);
      DirGone(dirs, rank, live, owner, data, parent, name);
      ghost var live' := live - {entry.ptr, entry.node};
      Free(entry.node);
      Free(entry.ptr);
      assert live == live';
      owner := NewOwner(owner, live, Struct(parent, name), NULL, FolderNode(parent, name), NULL);
      dirs := CutDir(dirs, parent, name);
      err := 0;
    }

    /** fs_touch: an empty file, which needs one block for its hash node. */
    method Touch(name: string, from: Option<string>, pick: int) returns (err: int)
      requires Valid()
      modifies this`dirs, this`live, this`owner
      ensures Valid()
      ensures var at := Locate(old(dirs), current, name, from);
        if name == "" || |name| > 127 then err == -1
        else if at.Bad? then err == at.err
        else if at.dir !in old(dirs) then false
        else if at.file in old(dirs)[at.dir].folders then err == -3
        else if lookup(old(dirs)[at.dir].files, at.file).Some? then err == -4
        else err == if old(Fresh(pick)) then 0 else -5
      ensures err != 0 ==> dirs == old(dirs) && live == old(live)
      ensures err == 0 ==> var at := Locate(old(dirs), current, name, from);
        && dirs == SetFile(old(dirs), at.dir, at.file, File(pick, NULL, 0)) && live == old(live) + {pick}
        && FilesOk(old(dirs), data) && OthersKept(old(dirs), data, dirs, data, at.dir, at.file)
        && at.dir in dirs && at.file in dirs[at.dir].files && Content(dirs, data, at.dir, at.file) == []
    {
      hide TreeOk, NodesOk, Own, FilesOk, OthersKept, Locate, LookupOk;
      if !ShortName(name) {
        return -1;
      }
      var place := FindFile(name, from);
      if place.Bad? {
        return place.err;
      }
      var parent, file := place.dir, place.file;
      if file in dirs[parent].folders {
        return -3;
      }
      if FileIn(dirs, parent, file) != None {
        return -4;
      }
      PresentIsFound(lookup, dirs[parent].files, file);
      var node := Malloc(pick);
      if node == NULL {
        return -5;
      }
      LocateShort(dirs, current, name, from);
      ghost var f := File(node, NULL, 0);
      NoEntry(dirs, old(live), owner, parent, file);
      FileSound(dirs, rank, old(live), live, owner, data, parent, file, f, data);
      owner := NewOwner(owner, live, FileNode(parent, file), node, Buffer(parent, file), NULL);
      dirs := SetFile(dirs, parent, file, File(node, NULL, 0));
      err := 0;
    }

    /** fs_rm */
    method Rm(name: string, from: Option<string>) returns (err: int)
      requires Valid()
      modifies this`dirs, this`live, this`owner
      ensures Valid()
      ensures var at := Locate(old(dirs), current, name, from);
        err == if name == "" then -1 else if at.Bad? then at.err else if FileIn(old(dirs), at.dir, at.file) != None then 0 else -3
      ensures err != 0 ==> dirs == old(dirs) && live == old(live)
      ensures err == 0 ==> var dir := Locate(old(dirs), current, name, from).dir;
        var k := FileIn(old(dirs), dir, Locate(old(dirs), current, name, from).file).value;
        && HasFile(old(dirs), dir, k) && dirs == CutFile(old(dirs), dir, k)
        && live == old(live) - {old(dirs)[dir].files[k].node, old(dirs)[dir].files[k].ptr}
        && FilesOk(old(dirs), data) && OthersKept(old(dirs), data, dirs, data, dir, k)
    {
      hide TreeOk, NodesOk, Own, FilesOk, OthersKept, Locate, LookupOk;
      if name == "" {
        return -1;
      }
      var place := FindFile(name, from);
      if place.Bad? {
        return place.err;
      }
      var parent, found := place.dir, FileIn(dirs, place.dir, place.file);
      if found == None {
        return -3;
      }
      PresentIsFound(lookup, dirs[parent].files, place.file);
      var file := found.value;
      var f := dirs[parent].files[file];
      FileLive(dirs, live, owner, data, parent, file);
      FileGone(dirs, rank, live, owner, data, parent, file);
      ghost var live' := live - {f.node, f.ptr};
      if f.ptr != NULL {
        Free(f.ptr);
      }
      Free(f.node);
      assert live == live';
      owner := NewOwner(owner, live, FileNode(parent, file), NULL, Buffer(parent, file), NULL);
      dirs := CutFile(dirs, parent, file);
      err := 0;
    }

    /** info->ptr and info->length: the record of a file gets another buffer in place of the one that was freed. */
    method StoreBuffer(p: int, n: string, ptr: int, length: nat, ghost live0: set<int>, ghost data0: map<int, seq<byte>>)
      requires TreeOk(dirs, rank) && NodesOk(dirs) && Own(dirs, live0, owner) && FilesOk(dirs, data0) && LookupOk(lookup)
      requires HasFile(dirs, p, n) && BufferOk(File(dirs[p].files[n].node, ptr, length), data)
      requires ptr != ROOT && (ptr == NULL || ptr !in live0 || ptr == dirs[p].files[n].ptr)
      requires live == live0 - {dirs[p].files[n].ptr} + (if ptr == NULL then {} else {ptr})
      requires forall a {:trigger a in data} | a != ptr :: (a in data <==> a in data0) && (a in data0 ==> data[a] == data0[a])
      modifies this`dirs, this`owner
      ensures Sound() && dirs == SetFile(old(dirs), p, n, File(old(dirs)[p].files[n].node, ptr, length))
      ensures forall a | a in old(dirs) :: a in dirs
      ensures FilesOk(old(dirs), data0) && OthersKept(old(dirs), data0, dirs, data, p, n)
      ensures HasFile(dirs, p, n) && Content(dirs, data, p, n) == if ptr == NULL then [] else data[ptr]
    {
      hide TreeOk, NodesOk, Own, FilesOk, OthersKept, LookupOk;
      var f := File(dirs[p].files[n].node, ptr, length);
      FileLive(dirs, live0, owner, data0, p, n);
      FileSound(dirs, rank, live0, live, owner, data0, p, n, f, data);
      owner := NewOwner(owner, live, FileNode(p, n), f.node, Buffer(p, n), ptr);
      dirs := SetFile(dirs, p, n, f);
    }

    /** fs_write: the old buffer is freed first, and malloc(0) gives NULL. If malloc fails the record keeps the freed buffer. */
    method Write(name: string, bytes: seq<byte>, from: Option<string>, pick: int) returns (err: int)
      requires Valid()
      modifies this`dirs, this`live, this`data, this`owner
      ensures err != -4 ==> Valid()
      ensures var p := Base(old(dirs), current, from);
        if p == NULL then err == -2
        else if p !in old(dirs) then false
        else if lookup(old(dirs)[p].files, name) == None then err == -3
        else var k := lookup(old(dirs)[p].files, name).value;
          k in old(dirs)[p].files &&
          err == if bytes != [] && (pick in old(live) - {old(dirs)[p].files[k].ptr} || pick == NULL || pick == ROOT) then -4 else 0
      ensures err == -2 || err == -3 ==> dirs == old(dirs) && live == old(live) && data == old(data)
      ensures err == 0 || err == -4 ==> var p := Base(old(dirs), current, from);
        FileIn(old(dirs), p, name).Some? && var k := FileIn(old(dirs), p, name).value;
        HasFile(old(dirs), p, k) && var f := old(dirs)[p].files[k];
        if err == -4 then dirs == old(dirs) && data == old(data) && live == old(live) - {f.ptr} && (Sound() <==> f.ptr == NULL)
        else
          && FilesOk(old(dirs), old(data)) && OthersKept(old(dirs), old(data), dirs, data, p, k)
          && HasFile(dirs, p, k) && Content(dirs, data, p, k) == bytes
          && live == old(live) - {f.ptr} + (if bytes == [] then {} else {pick})
          && dirs == SetFile(old(dirs), p, k, File(f.node, if bytes == [] then NULL else pick, |bytes|))
    {
      hide TreeOk, NodesOk, Own, FilesOk, OthersKept, Resolve, LookupOk;
      var parent := FindBase(from);
      if parent == NULL {
        return -2;
      }
      var found := FileIn(dirs, parent, name);
      if found == None {
        return -3;
      }
      PresentIsFound(lookup, dirs[parent].files, name);
      var file := found.value;
      var f := dirs[parent].files[file];
      FileLive(dirs, live, owner, data, parent, file);
      if f.ptr != NULL {
        Free(f.ptr);
      }
      assert live == old(live) - {f.ptr};
      var ptr := NULL;
      if bytes != [] {
        ptr := Malloc(pick);
        if ptr == NULL {
          if f.ptr != NULL {
            Dangling(dirs, live, Buffer(parent, file), owner);
          } else {
            assert live == old(live);
          }
          return -4;
        }
        data := data[ptr := bytes];
      }
      StoreBuffer(parent, file, ptr, |bytes|, old(live), old(data));
      err := 0;
    }

    /** fs_backspace: the last count bytes are cut off, in a new and shorter buffer. */
    method Backspace(name: string, count: int, from: Option<string>, pick: int) returns (err: int)
      requires Valid()
      modifies this`dirs, this`live, this`data, this`owner
      ensures Valid()
      ensures var at := Locate(old(dirs), current, name, from);
        if count < 0 then err == -1 else if count == 0 then err == 0 else if at.Bad? then err == at.err
        else if at.dir !in old(dirs) then false
        else if lookup(old(dirs)[at.dir].files, at.file) == None then err == -3
        else var k := lookup(old(dirs)[at.dir].files, at.file).value;
          FilesOk(old(dirs), old(data)) && k in old(dirs)[at.dir].files && var was := Content(old(dirs), old(data), at.dir, k);
          err == if was == [] then -5 else if count < |was| && !old(Fresh(pick)) then -6 else 0
      ensures err != 0 || count == 0 ==> dirs == old(dirs) && live == old(live) && data == old(data)
      ensures err == 0 && count > 0 ==> var dir := Locate(old(dirs), current, name, from).dir;
        && FileIn(old(dirs), dir, Locate(old(dirs), current, name, from).file).Some?
        && var k := FileIn(old(dirs), dir, Locate(old(dirs), current, name, from).file).value;
        && HasFile(old(dirs), dir, k) && FilesOk(old(dirs), old(data)) && OthersKept(old(dirs), old(data), dirs, data, dir, k)
        && HasFile(dirs, dir, k)
        && var was, now := Content(old(dirs), old(data), dir, k), Content(dirs, data, dir, k);
        && now <= was && |now| == (if count > |was| then 0 else |was| - count)
        && live == old(live) - {old(dirs)[dir].files[k].ptr} + (if now == [] then {} else {pick})
        && dirs == SetFile(old(dirs), dir, k, File(old(dirs)[dir].files[k].node, if now == [] then NULL else pick, |now|))
    {
      hide TreeOk, NodesOk, Own, FilesOk, OthersKept, Locate, LookupOk;
      if count < 0 {
        return -1;
      }
      if count == 0 {
        return 0;
      }
      var place := FindFile(name, from);
      if place.Bad? {
        return place.err;
      }
      var parent, found := place.dir, FileIn(dirs, place.dir, place.file);
      if found == None {
        return -3;
      }
      PresentIsFound(lookup, dirs[parent].files, place.file);
      var file := found.value;
      var f := dirs[parent].files[file];
      FileLive(dirs, live, owner, data, parent, file);
      if f.length == 0 {
        return -5;
      }
      var newLen := if count > f.length then 0 else f.length - count;
      var ptr := NULL;
      if newLen == 0 {
        Free(f.ptr);
      } else {
        ptr := Malloc(pick);
        if ptr == NULL {
          return -6;
        }
        data := data[ptr := data[f.ptr][..newLen]];
        Free(f.ptr);
      }
      StoreBuffer(parent, file, ptr, newLen, old(live), old(data));
      err := 0;
    }

    /** build_absolute_path */
    method BuildAbsolutePath(dir: int) returns (out: string)
      requires Sound() && dir in dirs
      ensures out == PathOf(dirs, rank, dir)
      decreases rank[dir]
    {
      hide NodesOk, Own, FilesOk, TreeOk;
      RootIn(dirs, rank);
      if dir == ROOT {
        return "/";
      }
      ParentOf(dirs, rank, dir);
      out := BuildAbsolutePath(dirs[dir].parent);
      if out[|out| - 1] != '/' {
        out := out + "/";
      }
      out := out + dirs[dir].name;
    }

    /** fs_cd */
    method Cd(path: string) returns (err: int)
      requires Valid()
      modifies this`current, this`currentPath
      ensures Valid()
      ensures err == if Resolve(dirs, old(current), path) == NULL then -2 else 0
      ensures err != 0 ==> current == old(current) && currentPath == old(currentPath)
      ensures err == 0 ==> current == Resolve(dirs, old(current), path) && currentPath == PathOf(dirs, rank, current)
    {
      hide TreeOk, NodesOk, Own, FilesOk, PathOf, Walk;
      var target;
      if path == "/" {
        RootPath(dirs, rank, current);
        target := ROOT;
      } else {
        target := GetDirByPath(current, path);
        if target == NULL {
          return -2;
        }
      }
      var printed := BuildAbsolutePath(target);
      currentPath, current := printed, target;
      err := 0;
    }

    /** One component of the mkdir -p loop: fs_mkdir with current_dir switched to the directory reached so far. */
    method MakeSub(dir: int, name: string, pick0: int, pick1: int) returns (sub: int)
      requires Valid() && dir in dirs
      modifies this`dirs, this`live, this`rank, this`owner, this`current
      ensures Valid() && current == old(current) && Grown(old(dirs), dirs) && (sub == NULL || sub in dirs)
      ensures sub != NULL <==>
        || name in old(dirs)[dir].folders
        || (ShortName(name) && FileIn(old(dirs), dir, name) == None && old(Fresh(pick0) && Fresh(pick1)) && pick0 != pick1)
      ensures live <= old(live) + {pick0, pick1}
      ensures sub != NULL && name !in old(dirs)[dir].folders ==> dirs[sub].folders == map[] && dirs[sub].files == map[]
      ensures sub != NULL ==> name in dirs[dir].folders && dirs[dir].folders[name].ptr == sub
      ensures forall a | a in dirs :: a in old(dirs) || a == sub
      ensures name in old(dirs)[dir].folders ==> sub != NULL && dirs == old(dirs) && live == old(live)
    {
      hide TreeOk, NodesOk, Own, FilesOk, OthersKept, AddDir, Grown;
      RootIn(dirs, rank);
      WalkStep(dirs, rank, dir, name);
      GrownSelf(dirs);
      if name !in dirs[dir].folders {
        var oldDir := current;
        current := dir;
        var err := Mkdir(name, None, pick0, pick1);
        current := oldDir;
        if err != 0 {
          assert dirs == old(dirs);
          return NULL;
        }
        GrownByDir(old(dirs), dir, name, pick1, pick0);
        GrownKeeps(old(dirs), dirs, current);
        AddDirKeys(old(dirs), dir, name, pick1, pick0);
        NewDirEmpty(old(dirs), dir, name, pick1, pick0);
        RootIn(dirs, rank);
      }
      sub := dirs[dir].folders[name].ptr;
    }

    /** One component of a path: its directory is there or made. */
    method MakeComponent(cur: int, name: string, picks: (int, int), ghost start: int, ghost done: seq<string>, ghost rest: seq<string>, ghost ds: Dirs)
      returns (sub: int)
      requires Valid() && start in dirs && cur in dirs && Descend(dirs, start, done) == cur && Grown(ds, dirs)
      requires forall a | a in dirs && a !in ds :: Below(dirs, rank, cur, a)
      modifies this`dirs, this`live, this`rank, this`owner, this`current
      ensures Valid() && current == old(current) && Grown(ds, dirs) && live <= old(live) + {picks.0, picks.1}
      ensures sub != NULL ==> start in dirs && sub in dirs && Descend(dirs, start, done + [name]) == sub
      ensures sub != NULL ==> forall a | a in dirs && a !in ds :: Below(dirs, rank, sub, a)
      ensures sub != NULL ==> (Makeable(old(dirs), cur, [name] + rest, lookup) <==> Makeable(dirs, sub, rest, lookup))
      ensures sub == NULL ==> Descend(old(dirs), start, done + [name] + rest) == NULL
      ensures sub == NULL ==> !Makeable(old(dirs), cur, [name] + rest, lookup) || !old(Fresh(picks.0) && Fresh(picks.1)) || picks.0 == picks.1
      ensures Descend(old(dirs), start, done + [name] + rest) != NULL ==> dirs == old(dirs) && live == old(live)
    {
      hide TreeOk, NodesOk, Own, FilesOk, OthersKept, Grown, Descend, Below, Makeable, LookupOk;
      RootIn(dirs, rank);
      DescendOne(dirs, rank, start, done, name, rest);
      MakeableSkip(dirs, cur, name, rest, lookup);
      if name == "" || name == "." {
        return cur;
      }
      ghost var before, rank0 := dirs, rank;
      sub := MakeSub(cur, name, picks.0, picks.1);
      GrownTwice(ds, before, dirs);
      if sub != NULL {
        GrownDescend(before, dirs, rank0, start, done);
        GrownKeeps(before, dirs, start);
        GrownKeeps(before, dirs, cur);
        RootIn(dirs, rank);
        DescendOne(dirs, rank, start, done, name, rest);
        BelowSub(before, dirs, rank0, rank, cur, sub, name, ds);
        MakeableStep(before, dirs, cur, name, rest, sub, lookup);
      }
    }

    /** The loop of mkdir -p. picks gives the blocks for the directory made at each position of the path. */
    method MkdirParents(path: string, picks: nat -> (int, int)) returns (err: int)
      requires Valid()
      modifies this`dirs, this`live, this`rank, this`owner, this`current
      ensures Valid() && current == old(current) && Grown(old(dirs), dirs) && (err == 0 || err == -1)
      ensures err == 0 ==> Descend(dirs, Start(current, path), Parts(path)) in dirs
      ensures err == 0 ==> forall a | a in dirs && a !in old(dirs) :: Below(dirs, rank, Descend(dirs, Start(current, path), Parts(path)), a)
      ensures old(Descend(dirs, Start(current, path), Parts(path))) != NULL ==> err == 0 && dirs == old(dirs) && live == old(live)
      ensures err == 0 ==> Makeable(old(dirs), Start(current, path), Parts(path), lookup)
      ensures Makeable(old(dirs), Start(current, path), Parts(path), lookup) && Plenty(old(live), picks, |path|) ==> err == 0
    {
      hide TreeOk, NodesOk, Own, FilesOk, OthersKept, Grown, Walk, Descend, Split, Slash, Below, Makeable, Plenty, Bounded, LookupOk;
      RootIn(dirs, rank);
      GrownSelf(dirs);
      var cur, part := current, 0;
      if path != "" && path[0] == '/' {
        cur, part := ROOT, 1;
      }
      ghost var start, ds, done := cur, dirs, [];
      ghost var parts := Split(path[part..]);
      assert path[0..] == path;
      DescendEnd(dirs, cur);
      NothingUsed(live, picks, part);
      while part < |path|
        invariant part <= |path| && Valid() && current == old(current) && cur in dirs && start in dirs && Grown(ds, dirs)
        invariant parts == done + Split(path[part..])
        invariant Descend(dirs, start, done) == cur && Bounded(live, old(live), picks, part)
        invariant forall a | a in dirs && a !in ds :: Below(dirs, rank, cur, a)
        invariant Descend(ds, start, parts) != NULL ==> dirs == ds && live == old(live)
        invariant Makeable(ds, start, parts, lookup) <==> Makeable(dirs, cur, Split(path[part..]), lookup)
        decreases |path| - part
      {
        var end := part;
        while end < |path| && path[end] != '/'
          invariant part <= end <= |path| && '/' !in path[part..end]
        {
          end := end + 1;
        }
        SplitAt(path, part, end);
        ghost var rest := if end == |path| then [] else Split(path[end + 1..]);
        assert parts == done + [path[part..end]] + rest;
        AvailableAt(live, old(live), picks, part, |path|);
        ghost var was := live;
        cur := MakeComponent(cur, path[part..end], picks(part), start, done, rest, ds);
        MoreUsed(was, live, old(live), picks, part, end + 1);
        if cur == NULL {
          return -1;
        }
        done := done + [path[part..end]];
        if end == |path| {
          assert parts == done;
          MakeableSkip(dirs, cur, "", [], lookup);
          return 0;
        }
        part := end + 1;
      }
      DescendTail(dirs, rank, start, done, path[part..]);
      MakeableTail(dirs, cur, lookup);
      err := 0;
    }
  }

  /** Enough memory for one directory at each position: blocks that are free and all different. */
  ghost predicate Plenty(live: set<int>, picks: nat -> (int, int), n: nat) {
    && (forall i: nat {:trigger picks(i)} | i < n :: Usable(live, picks(i)))
    && (forall i: nat, j: nat {:trigger picks(i), picks(j)} | i < j < n ::
          picks(i).0 != picks(j).0 && picks(i).0 != picks(j).1 && picks(i).1 != picks(j).0 && picks(i).1 != picks(j).1)
  }

  ghost predicate Usable(live: set<int>, p: (int, int)) {
    p.0 !in live && p.1 !in live && p.0 != p.1 && p.0 != NULL && p.0 != ROOT && p.1 != NULL && p.1 != ROOT
  }

  /** Only blocks for positions below n have come into use. */
  ghost predicate Bounded(live: set<int>, live0: set<int>, picks: nat -> (int, int), n: nat) {
    forall a {:trigger a in live} | a in live :: a in live0 || exists i: nat :: i < n && (a == picks(i).0 || a == picks(i).1)
  }

  lemma NothingUsed(live: set<int>, picks: nat -> (int, int), n: nat)
    ensures Bounded(live, live, picks, n)
  {
  }

  lemma MoreUsed(live: set<int>, live': set<int>, live0: set<int>, picks: nat -> (int, int), n: nat, n': nat)
    requires Bounded(live, live0, picks, n) && n < n' && live' <= live + {picks(n).0, picks(n).1}
    ensures Bounded(live', live0, picks, n')
  {
    forall a | a in live' ensures a in live0 || exists i: nat :: i < n' && (a == picks(i).0 || a == picks(i).1) {
      if a !in live {
        assert a == picks(n).0 || a == picks(n).1;
      }
    }
  }

  lemma AvailableAt(live: set<int>, live0: set<int>, picks: nat -> (int, int), n: nat, m: nat)
    requires Bounded(live, live0, picks, n) && n < m
    ensures Plenty(live0, picks, m) ==> Usable(live, picks(n))
  {
  }

  /** The tree with a new directory is sound again. */
  lemma NewDirSound(ds: Dirs, rank: map<int, nat>, live: set<int>, live': set<int>, owner: map<int, Slot>, data: map<int, seq<byte>>,
                    p: int, n: string, node: int, a: int)
    requires TreeOk(ds, rank) && NodesOk(ds) && Own(ds, live, owner) && FilesOk(ds, data)
    requires p in ds && ShortName(n) && n !in ds[p].folders && n !in ds[p].files
    requires a !in live && node !in live && a != node && a != NULL && node != NULL && a != ROOT && node != ROOT && live' == live + {a} + {node}
    ensures p in rank && a !in ds && forall b | b in ds :: b in AddDir(ds, p, n, node, a)
    ensures var ds' := AddDir(ds, p, n, node, a);
      && TreeOk(ds', rank[a := rank[p] + 1]) && NodesOk(ds') && FilesOk(ds', data)
      && Own(ds', live', NewOwner(owner, live', Struct(p, n), a, FolderNode(p, n), node))
      && OthersKept(ds, data, ds', data, p, n) && p in ds'
  {
    hide TreeOk, FilesOk, OthersKept, AddDir, AddrOf, NodesOk, Own;
    if a in ds {
      DirIsLive(ds, rank, live, owner, a);
    }
    RankOf(ds, rank, p);
    AddDirOk(ds, rank, p, n, node, a);
    AddDirFiles(ds, data, p, n, node, a, p, n);
    AddDirNodes(ds, p, n, node, a);
    AddDirSlots(ds, p, n, node, a);
    NoEntry(ds, live, owner, p, n);
    OwnChange(ds, AddDir(ds, p, n, node, a), live, live', owner, Struct(p, n), FolderNode(p, n));
  }

  lemma RankOf(ds: Dirs, rank: map<int, nat>, a: int)
    requires TreeOk(ds, rank) && a in ds
    ensures a in rank
  {
  }

  lemma NoEntry(ds: Dirs, live: set<int>, owner: map<int, Slot>, p: int, n: string)
    requires p in ds && Own(ds, live, owner)
    ensures n !in ds[p].folders ==> AddrOf(ds, Struct(p, n)) == NULL && AddrOf(ds, FolderNode(p, n)) == NULL
    ensures n !in ds[p].files ==> AddrOf(ds, FileNode(p, n)) == NULL && AddrOf(ds, Buffer(p, n)) == NULL
    ensures NULL !in live && ROOT !in live
  {
  }

  lemma AddDirNodes(ds: Dirs, p: int, n: string, node: int, a: int)
    requires NodesOk(ds) && p in ds && node != NULL
    ensures NodesOk(AddDir(ds, p, n, node, a)) && forall b | b in ds :: b in AddDir(ds, p, n, node, a)
  {
    var ds' := AddDir(ds, p, n, node, a);
    forall q, m | q in ds' && m in ds'[q].folders ensures ds'[q].folders[m].node != NULL {
      assert m in ds'[q].folders && !(q == p && m == n) ==> m in ds[q].folders;
    }
    forall q, m | q in ds' && m in ds'[q].files ensures ds'[q].files[m].node != NULL {
      assert m in ds[q].files;
    }
  }

  lemma SplitAt(path: string, part: nat, end: nat)
    requires part <= end <= |path| && '/' !in path[part..end] && (end < |path| ==> path[end] == '/')
    ensures Split(path[part..]) == [path[part..end]] + if end == |path| then [] else Split(path[end + 1..])
  {
    hide Split, Slash;
    SlashNone(path[part..end]);
    if end == |path| {
      assert path[part..] == path[part..end];
    } else {
      SplitConcat(path[part..end], path[end + 1..]);
      assert path[part..] == path[part..end] + "/" + path[end + 1..];
    }
  }

  lemma WalkOne(ds: Dirs, rank: map<int, nat>, cur: int, name: string, rest: seq<string>)
    requires TreeOk(ds, rank) && cur in ds
    ensures Walk(ds, cur, [name] + rest) ==
      if name == "" || name == "." then Walk(ds, cur, rest)
      else if name == ".." then if ds[cur].parent != NULL then Walk(ds, ds[cur].parent, rest) else cur
      else if name in ds[cur].folders then Walk(ds, ds[cur].folders[name].ptr, rest) else NULL
    ensures ds[cur].parent != NULL ==> ds[cur].parent in ds
    ensures name in ds[cur].folders ==> ds[cur].folders[name].ptr in ds
  {
    hide TreeOk;
    assert ([name] + rest)[1..] == rest;
    WalkStep(ds, rank, cur, name);
  }

  lemma WalkEnd(ds: Dirs, cur: int)
    ensures Walk(ds, cur, []) == cur
  {
  }

  /** The blocks of a folder entry are live and distinct. */
  lemma EntryLive(ds: Dirs, rank: map<int, nat>, live: set<int>, owner: map<int, Slot>, p: int, n: string)
    requires TreeOk(ds, rank) && NodesOk(ds) && Own(ds, live, owner) && p in ds && n in ds[p].folders
    ensures ds[p].folders[n].ptr in live && ds[p].folders[n].node in live && ds[p].folders[n].ptr != ds[p].folders[n].node
  {
    assert Leads(ds, p, n);
    assert AddrOf(ds, Struct(p, n)) == ds[p].folders[n].ptr;
    assert AddrOf(ds, FolderNode(p, n)) == ds[p].folders[n].node;
  }

  /** So are those of a file, and its record describes its buffer. */
  lemma FileLive(ds: Dirs, live: set<int>, owner: map<int, Slot>, data: map<int, seq<byte>>, p: int, n: string)
    requires NodesOk(ds) && Own(ds, live, owner) && FilesOk(ds, data) && p in ds && n in ds[p].files
    ensures var f := ds[p].files[n];
      && f.node in live && f.node != NULL && f.node != f.ptr && (f.ptr != NULL ==> f.ptr in live) && BufferOk(f, data)
      && AddrOf(ds, FileNode(p, n)) == f.node && AddrOf(ds, Buffer(p, n)) == f.ptr && NULL !in live && ROOT !in live
  {
    assert AddrOf(ds, FileNode(p, n)) == ds[p].files[n].node;
    assert AddrOf(ds, Buffer(p, n)) == ds[p].files[n].ptr;
  }

  /** A pointer to a freed block cannot be owned. */
  lemma Dangling(ds: Dirs, live: set<int>, s: Slot, owner: map<int, Slot>)
    requires AddrOf(ds, s) != NULL && AddrOf(ds, s) !in live
    ensures !Own(ds, live, owner)
  {
  }

  lemma LocateShort(ds: Dirs, current: int, name: string, from: Option<string>)
    requires ShortName(name)
    ensures Locate(ds, current, name, from).At? ==> ShortName(Locate(ds, current, name, from).file)
  {
  }

  /** The tree without an empty directory is sound. */
  lemma DirGone(ds: Dirs, rank: map<int, nat>, live: set<int>, owner: map<int, Slot>, data: map<int, seq<byte>>, p: int, n: string)
    requires TreeOk(ds, rank) && NodesOk(ds) && Own(ds, live, owner) && FilesOk(ds, data) && p in ds && n in ds[p].folders
    requires var c := ds[p].folders[n].ptr; c in ds && ds[c].folders == map[] && ds[c].files == map[]
    ensures var ds', live' := CutDir(ds, p, n), live - {ds[p].folders[n].ptr, ds[p].folders[n].node};
      && TreeOk(ds', rank) && NodesOk(ds') && FilesOk(ds', data)
      && Own(ds', live', NewOwner(owner, live', Struct(p, n), NULL, FolderNode(p, n), NULL))
      && OthersKept(ds, data, ds', data, p, n)
      && forall b | b in ds :: b in ds' <==> b != ds[p].folders[n].ptr
  {
    hide TreeOk, FilesOk, OthersKept, AddrOf, Own;
    var e, ds' := ds[p].folders[n], CutDir(ds, p, n);
    var live' := live - {e.ptr, e.node};
    EntrySlots(ds, p, n);
    EntryLive(ds, rank, live, owner, p, n);
    NoEntry(ds, live, owner, p, n);
    NotOwnChild(ds, rank, p, n);
    CutDirOk(ds, rank, p, n);
    CutDirFiles(ds, data, p, n, p, n);
    CutDirSlots(ds, rank, p, n);
    assert live' == live - {e.ptr, e.node} + {NULL, NULL} - {NULL};
    OwnChange(ds, ds', live, live', owner, Struct(p, n), FolderNode(p, n));
    forall q, m | q in ds' && m in ds'[q].folders ensures ds'[q].folders[m].node != NULL {
      assert m in ds[q].folders;
    }
    forall q, m | q in ds' && m in ds'[q].files ensures ds'[q].files[m].node != NULL {
      assert m in ds[q].files;
    }
  }

  lemma NotOwnChild(ds: Dirs, rank: map<int, nat>, p: int, n: string)
    requires TreeOk(ds, rank) && p in ds && n in ds[p].folders
    ensures ds[p].folders[n].ptr != p
  {
    assert Leads(ds, p, n) && Hangs(ds, rank, ds[p].folders[n].ptr);
  }

  lemma EntrySlots(ds: Dirs, p: int, n: string)
    requires p in ds && n in ds[p].folders
    ensures AddrOf(ds, Struct(p, n)) == ds[p].folders[n].ptr && AddrOf(ds, FolderNode(p, n)) == ds[p].folders[n].node
  {
  }

  /** The tree with a new record for file n of p is sound. */
  lemma FileSound(ds: Dirs, rank: map<int, nat>, live: set<int>, live': set<int>, owner: map<int, Slot>, data: map<int, seq<byte>>,
                  p: int, n: string, f: File, data': map<int, seq<byte>>)
    requires TreeOk(ds, rank) && NodesOk(ds) && Own(ds, live, owner) && FilesOk(ds, data)
    requires p in ds && (n !in ds[p].folders || n in ds[p].files)
    requires ShortName(n) || n in ds[p].files
    requires BufferOk(f, data') && f.node != NULL && f.node != f.ptr && f.node != ROOT && f.ptr != ROOT
    requires forall a {:trigger a in data'} | a != f.ptr :: (a in data' <==> a in data) && (a in data ==> data'[a] == data[a])
    requires f.node !in live || f.node == AddrOf(ds, FileNode(p, n))
    requires f.ptr == NULL || f.ptr !in live || f.ptr == AddrOf(ds, Buffer(p, n))
    requires live' == live - {AddrOf(ds, FileNode(p, n)), AddrOf(ds, Buffer(p, n))} + {f.node, f.ptr} - {NULL}
    ensures var ds' := SetFile(ds, p, n, f);
      && TreeOk(ds', rank) && NodesOk(ds') && FilesOk(ds', data')
      && Own(ds', live', NewOwner(owner, live', FileNode(p, n), f.node, Buffer(p, n), f.ptr))
      && OthersKept(ds, data, ds', data', p, n)
      && Content(ds', data', p, n) == (if f.ptr == NULL then [] else data'[f.ptr])
  {
    hide TreeOk, FilesOk, OthersKept, AddrOf, Own, NodesOk;
    var ds' := SetFile(ds, p, n, f);
    FileNames(ds, rank, p, n);
    FilesOnly(ds, rank, p, ds[p].files[n := f]);
    NoEntry(ds, live, owner, p, n);
    SetFileOk(ds, data, live, owner, p, n, f, data');
    SetFileSlots(ds, p, n, f);
    OwnChange(ds, ds', live, live', owner, FileNode(p, n), Buffer(p, n));
    SetFileNodes(ds, p, n, f);
  }

  lemma FileNames(ds: Dirs, rank: map<int, nat>, p: int, n: string)
    requires TreeOk(ds, rank) && p in ds
    ensures forall m {:trigger m in ds[p].files} | m in ds[p].files :: ShortName(m) && m !in ds[p].folders
  {
    forall m | m in ds[p].files ensures m !in ds[p].folders {
      assert m in ds[p].folders ==> Leads(ds, p, m);
    }
  }

  lemma SetFileNodes(ds: Dirs, p: int, n: string, f: File)
    requires NodesOk(ds) && p in ds && f.node != NULL
    ensures NodesOk(SetFile(ds, p, n, f))
  {
    var ds' := SetFile(ds, p, n, f);
    forall q, m | q in ds' && m in ds'[q].folders ensures ds'[q].folders[m].node != NULL {
      assert m in ds[q].folders;
    }
    forall q, m | q in ds' && m in ds'[q].files ensures ds'[q].files[m].node != NULL {
      assert m in ds'[q].files && !(q == p && m == n) ==> m in ds[q].files;
    }
  }

  /** The tree without a file is sound. */
  lemma FileGone(ds: Dirs, rank: map<int, nat>, live: set<int>, owner: map<int, Slot>, data: map<int, seq<byte>>, p: int, n: string)
    requires TreeOk(ds, rank) && NodesOk(ds) && Own(ds, live, owner) && FilesOk(ds, data) && p in ds && n in ds[p].files
    ensures var ds', live' := CutFile(ds, p, n), live - {ds[p].files[n].node, ds[p].files[n].ptr};
      && TreeOk(ds', rank) && NodesOk(ds') && FilesOk(ds', data)
      && Own(ds', live', NewOwner(owner, live', FileNode(p, n), NULL, Buffer(p, n), NULL))
      && OthersKept(ds, data, ds', data, p, n)
  {
    hide TreeOk, FilesOk, OthersKept, AddrOf, Own;
    var f, ds' := ds[p].files[n], CutFile(ds, p, n);
    var live' := live - {f.node, f.ptr};
    FileLive(ds, live, owner, data, p, n);
    FileNames(ds, rank, p, n);
    FilesOnly(ds, rank, p, ds[p].files - {n});
    CutFileOk(ds, data, p, n);
    CutFileSlots(ds, p, n);
    assert live' == live - {f.node, f.ptr} + {NULL, NULL} - {NULL};
    OwnChange(ds, ds', live, live', owner, FileNode(p, n), Buffer(p, n));
    forall q, m | q in ds' && m in ds'[q].folders ensures ds'[q].folders[m].node != NULL {
      assert m in ds[q].folders;
    }
    forall q, m | q in ds' && m in ds'[q].files ensures ds'[q].files[m].node != NULL {
      assert m in ds[q].files;
    }
  }

  lemma RootPath(ds: Dirs, rank: map<int, nat>, current: int)
    requires TreeOk(ds, rank)
    ensures ROOT in ds && NULL != ROOT && Resolve(ds, current, "/") == ROOT
  {
    SlashNone("");
    assert "/"[1..] == "";
    WalkEmpty(ds, ROOT);
  }

  lemma AddDirKeys(ds: Dirs, p: int, n: string, node: int, a: int)
    requires p in ds
    ensures forall b | b in AddDir(ds, p, n, node, a) :: b in ds || b == a
  {
  }

  lemma NewDirEmpty(ds: Dirs, p: int, n: string, node: int, a: int)
    requires p in ds && a !in ds
    ensures a in AddDir(ds, p, n, node, a) && AddDir(ds, p, n, node, a)[a].folders == map[] && AddDir(ds, p, n, node, a)[a].files == map[]
  {
  }

  /** Directories above cur are above its subdirectory sub. */
  lemma BelowSub(ds: Dirs, ds': Dirs, rank: map<int, nat>, rank': map<int, nat>, cur: int, sub: int, name: string, old': Dirs)
    requires TreeOk(ds, rank) && TreeOk(ds', rank') && Grown(ds, ds') && cur in ds && cur in ds' && name in ds'[cur].folders && ds'[cur].folders[name].ptr == sub
    requires forall a | a in ds' :: a in ds || a == sub
    requires forall a | a in ds && a !in old' :: Below(ds, rank, cur, a)
    ensures sub in ds' && forall a | a in ds' && a !in old' :: Below(ds', rank', sub, a)
  {
    hide TreeOk;
    WalkStep(ds', rank', cur, name);
    ParentOf(ds', rank', sub);
    forall a | a in ds' && a !in old' ensures Below(ds', rank', sub, a) {
      if a != sub {
        GrownBelow(ds, ds', rank, rank', cur, a);
      }
    }
  }

  lemma GrownSelf(ds: Dirs)
    ensures Grown(ds, ds)
  {
  }

  lemma GrownKeeps(ds: Dirs, ds': Dirs, a: int)
    requires Grown(ds, ds') && a in ds
    ensures a in ds'
  {
    assert ds'[a].parent == ds[a].parent;
  }

  lemma DescendEnd(ds: Dirs, cur: int)
    ensures Descend(ds, cur, []) == cur
  {
  }

  /** One more component after those done. */
  lemma DescendOne(ds: Dirs, rank: map<int, nat>, start: int, done: seq<string>, name: string, rest: seq<string>)
    requires TreeOk(ds, rank) && start in ds && Descend(ds, start, done) in ds
    ensures var cur := Descend(ds, start, done);
      && (name == "" || name == "." ==> Descend(ds, start, done + [name]) == cur)
      && (name != "" && name != "." && name in ds[cur].folders ==> Descend(ds, start, done + [name]) == ds[cur].folders[name].ptr)
      && (name != "" && name != "." && name !in ds[cur].folders ==> Descend(ds, start, done + [name] + rest) == NULL)
  {
    hide TreeOk;
    RootIn(ds, rank);
    var cur := Descend(ds, start, done);
    DescendConcat(ds, rank, start, done, [name]);
    DescendConcat(ds, rank, start, done, [name] + rest);
    assert done + [name] + rest == done + ([name] + rest);
    assert ([name] + rest)[1..] == rest && [name][1..] == [];
    DescendEnd(ds, cur);
    WalkStep(ds, rank, cur, name);
    if name in ds[cur].folders {
      DescendEnd(ds, ds[cur].folders[name].ptr);
    }
  }

  lemma MakeableTail(ds: Dirs, cur: int, lookup: Lookup)
    requires cur in ds
    ensures Makeable(ds, cur, Split(""), lookup)
  {
    SlashNone("");
    MakeableSkip(ds, cur, "", [], lookup);
    assert [""] + [] == [""];
  }

  /** What follows a last slash is one empty component. */
  lemma DescendTail(ds: Dirs, rank: map<int, nat>, start: int, done: seq<string>, tail: string)
    requires TreeOk(ds, rank) && start in ds && Descend(ds, start, done) in ds && tail == ""
    ensures Descend(ds, start, done + Split(tail)) == Descend(ds, start, done)
  {
    SlashNone(tail);
    RootIn(ds, rank);
    DescendOne(ds, rank, start, done, "", []);
  }

  // ----- The failures at concrete inputs -----

  /** The root with one directory in it, at address a. */
  function OneDir(n: string, node: int, a: int): Dirs {
    AddDir(map[ROOT := Dir("", NULL, map[], map[])], ROOT, n, node, a)
  }

  lemma OneDirOk(n: string, node: int, a: int)
    requires a != ROOT && a != NULL && ShortName(n)
    ensures TreeOk(OneDir(n, node, a), map[ROOT := 0, a := 1])
    ensures a in OneDir(n, node, a) && OneDir(n, node, a)[a] == Dir(n, ROOT, map[], map[])
    ensures OneDir(n, node, a)[ROOT] == Dir("", NULL, map[n := Sub(node, a)], map[])
  {
    var ds, rank := map[ROOT := Dir("", NULL, map[], map[])], map[ROOT := 0];
    AddDirOk(ds, rank, ROOT, n, node, a);
    assert rank[a := rank[ROOT] + 1] == map[ROOT := 0, a := 1];
  }

  /** After mkdir "a/b" the printed path of the new directory leads nowhere. */
  lemma SlashInName(node: int, a: int)
    requires a != ROOT && a != NULL
    ensures var ds, rank := OneDir("a/b", node, a), map[ROOT := 0, a := 1];
      && TreeOk(ds, rank) && a in ds && PathOf(ds, rank, a) == "/a/b" && Resolve(ds, ROOT, "/a/b") == NULL
  {
    hide TreeOk, Split;
    OneDirOk("a/b", node, a);
    var ds, rank := OneDir("a/b", node, a), map[ROOT := 0, a := 1];
    assert PathOf(ds, rank, ROOT) == "/";
    assert "/" + "a/b" == "/a/b" && "/a/b"[1..] == "a" + "/" + "b";
    SplitConcat("a", "b");
    SlashNone("a");
    SlashNone("b");
    assert Split("/a/b"[1..]) == ["a", "b"];
  }

  /** mkdir -p ".." makes a directory of that name, and the path goes on leading to the root. */
  lemma DotDotMade(node: int, a: int)
    requires a != ROOT && a != NULL
    ensures var ds := OneDir("..", node, a);
      Descend(ds, ROOT, Parts("..")) == a && Resolve(ds, ROOT, "..") == ROOT
  {
    hide TreeOk;
    OneDirOk("..", node, a);
    SlashNone("..");
    assert [".."][1..] == [];
  }

  /** In directory d below the root, rmdir d from ".." removes the current directory. */
  lemma CurrentRemoved(node: int, a: int)
    requires a != ROOT && a != NULL
    ensures var ds := OneDir("d", node, a);
      Base(ds, a, Some("..")) == ROOT && "d" in ds[ROOT].folders && a !in CutDir(ds, ROOT, "d")
  {
    hide TreeOk;
    OneDirOk("d", node, a);
    SlashNone("..");
    assert [".."][1..] == [];
  }

  /** A file f with a buffer of one byte: once a write has freed the buffer and got no other, no ownership accounts for the heap. */
  lemma BufferLost(owner: map<int, Slot>)
    ensures var ds := map[ROOT := Dir("", NULL, map[], map["f" := File(2, 3, 1)])];
      && Own(ds, {2, 3}, map[2 := FileNode(ROOT, "f"), 3 := Buffer(ROOT, "f")])
      && !Own(ds, {2}, owner)
  {
    var ds := map[ROOT := Dir("", NULL, map[], map["f" := File(2, 3, 1)])];
    assert AddrOf(ds, FileNode(ROOT, "f")) == 2 && AddrOf(ds, Buffer(ROOT, "f")) == 3;
  }
}
