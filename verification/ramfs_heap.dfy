// Which heap block of ramfs belongs to what, and what the files contain.
module RamfsHeap {
  import opened Common
  import opened RamfsTree

  /** The pointers through which heap blocks are owned. n is the name of an entry of directory p. */
  datatype Slot = Struct(p: int, n: string) | FolderNode(p: int, n: string) | FileNode(p: int, n: string) | Buffer(p: int, n: string)

  /** The address that the pointer holds; NULL if there is no such entry. */
  ghost function AddrOf(ds: Dirs, s: Slot): int {
    if s.p !in ds then NULL
    else match s
      case Struct(p, n) => if n in ds[p].folders then ds[p].folders[n].ptr else NULL
      case FolderNode(p, n) => if n in ds[p].folders then ds[p].folders[n].node else NULL
      case FileNode(p, n) => if n in ds[p].files then ds[p].files[n].node else NULL
      case Buffer(p, n) => if n in ds[p].files then ds[p].files[n].ptr else NULL
  }

  /** Every live block is held by the pointer that owns it, and every pointer holds NULL or a live block that it owns. */
  ghost predicate Own(ds: Dirs, live: set<int>, owner: map<int, Slot>) {
    && NULL !in live && ROOT !in live
    && (forall a {:trigger owner[a]} {:trigger a in live} | a in live :: a in owner && AddrOf(ds, owner[a]) == a)
    && (forall s {:trigger AddrOf(ds, s)} :: AddrOf(ds, s) != NULL ==>
          AddrOf(ds, s) in live && AddrOf(ds, s) in owner && owner[AddrOf(ds, s)] == s)
  }

  /** No entry lacks its hash node. */
  ghost predicate NodesOk(ds: Dirs) {
    && (forall p, n {:trigger n in ds[p].folders} | p in ds && n in ds[p].folders :: ds[p].folders[n].node != NULL)
    && (forall p, n {:trigger n in ds[p].files} | p in ds && n in ds[p].files :: ds[p].files[n].node != NULL)
  }

  /** No two pointers hold the same block. */
  lemma NoSharing(ds: Dirs, live: set<int>, owner: map<int, Slot>, s: Slot, t: Slot)
    requires Own(ds, live, owner) && s != t && AddrOf(ds, s) != NULL
    ensures AddrOf(ds, s) != AddrOf(ds, t)
  {
  }

  ghost predicate IsNode(ds: Dirs, a: int) {
    || (exists p, n :: p in ds && n in ds[p].folders && ds[p].folders[n].node == a)
    || (exists p, n :: p in ds && n in ds[p].files && ds[p].files[n].node == a)
  }

  ghost predicate IsBuffer(ds: Dirs, a: int) {
    a != NULL && exists p, n :: p in ds && n in ds[p].files && ds[p].files[n].ptr == a
  }

  /** The live blocks are exactly the directory structs except the root, the hash nodes and the file buffers. */
  lemma LiveExactly(ds: Dirs, rank: map<int, nat>, live: set<int>, owner: map<int, Slot>, a: int)
    requires TreeOk(ds, rank) && NodesOk(ds) && Own(ds, live, owner)
    ensures a in live <==> (a in ds && a != ROOT) || IsNode(ds, a) || IsBuffer(ds, a)
  {
    if a in live {
      var s := owner[a];
      assert AddrOf(ds, s) == a;
      match s {
        case Struct(p, n) => assert n in ds[p].folders && Leads(ds, p, n);
        case FolderNode(p, n) => assert p in ds && n in ds[p].folders && ds[p].folders[n].node == a;
        case FileNode(p, n) => assert p in ds && n in ds[p].files && ds[p].files[n].node == a;
        case Buffer(p, n) => assert p in ds && n in ds[p].files && ds[p].files[n].ptr == a;
      }
    } else {
      NotLive(ds, rank, live, owner, a);
    }
  }

  lemma NotLive(ds: Dirs, rank: map<int, nat>, live: set<int>, owner: map<int, Slot>, a: int)
    requires TreeOk(ds, rank) && NodesOk(ds) && Own(ds, live, owner) && a !in live
    ensures !(a in ds && a != ROOT) && !IsNode(ds, a) && !IsBuffer(ds, a)
  {
    forall b | b in ds && b != ROOT ensures b in live {
      assert Hangs(ds, rank, b);
      assert AddrOf(ds, Struct(ds[b].parent, ds[b].name)) == b;
    }
    forall p, n | p in ds && n in ds[p].folders ensures ds[p].folders[n].node in live {
      assert AddrOf(ds, FolderNode(p, n)) == ds[p].folders[n].node;
    }
    forall p, n | p in ds && n in ds[p].files ensures ds[p].files[n].node in live {
      assert AddrOf(ds, FileNode(p, n)) == ds[p].files[n].node;
    }
    forall p, n | p in ds && n in ds[p].files && ds[p].files[n].ptr != NULL ensures ds[p].files[n].ptr in live {
      assert AddrOf(ds, Buffer(p, n)) == ds[p].files[n].ptr;
    }
  }

  /** A directory other than the root is a live block. */
  lemma DirIsLive(ds: Dirs, rank: map<int, nat>, live: set<int>, owner: map<int, Slot>, a: int)
    requires TreeOk(ds, rank) && Own(ds, live, owner) && a in ds && a != ROOT
    ensures a in live
  {
    assert Hangs(ds, rank, a);
    assert AddrOf(ds, Struct(ds[a].parent, ds[a].name)) == a;
  }

  // ----- Changing two pointers -----

  ghost function NewOwner(owner: map<int, Slot>, live: set<int>, s0: Slot, a0: int, s1: Slot, a1: int): map<int, Slot> {
    map a | a in live :: if a == a0 then s0 else if a == a1 then s1 else if a in owner then owner[a] else s0
  }

  /** Two pointers change, each to NULL or to a block that was not live or was held by one of them before. */
  lemma OwnChange(ds: Dirs, ds': Dirs, live: set<int>, live': set<int>, owner: map<int, Slot>, s0: Slot, s1: Slot)
    requires Own(ds, live, owner) && s0 != s1
    requires forall s {:trigger AddrOf(ds', s)} | s != s0 && s != s1 :: AddrOf(ds', s) == AddrOf(ds, s)
    requires var a0, a1 := AddrOf(ds', s0), AddrOf(ds', s1);
      && (a0 == NULL || a0 != a1)
      && (forall a | a == a0 || a == a1 :: a != ROOT && (a in live ==> a == AddrOf(ds, s0) || a == AddrOf(ds, s1)))
      && live' == live - {AddrOf(ds, s0), AddrOf(ds, s1)} + {a0, a1} - {NULL}
    ensures Own(ds', live', NewOwner(owner, live', s0, AddrOf(ds', s0), s1, AddrOf(ds', s1)))
  {
    hide AddrOf;
    var a0, a1 := AddrOf(ds', s0), AddrOf(ds', s1);
    var owner' := NewOwner(owner, live', s0, a0, s1, a1);
    forall a | a in live' ensures a in owner' && AddrOf(ds', owner'[a]) == a {
      if a != a0 && a != a1 {
        assert a in live && AddrOf(ds, owner[a]) == a;
      }
    }
    forall s | AddrOf(ds', s) != NULL
      ensures AddrOf(ds', s) in live' && AddrOf(ds', s) in owner' && owner'[AddrOf(ds', s)] == s
    {
      if s != s0 && s != s1 {
        assert AddrOf(ds, s) == AddrOf(ds', s);
      }
    }
  }

  // ----- Contents -----

  /** The record describes a buffer of its length, or none. */
  ghost predicate BufferOk(f: File, data: map<int, seq<byte>>) {
    if f.ptr == NULL then f.length == 0 else f.ptr in data && |data[f.ptr]| == f.length > 0
  }

  ghost predicate FilesOk(ds: Dirs, data: map<int, seq<byte>>) {
    forall p, n {:trigger n in ds[p].files} | p in ds && n in ds[p].files :: BufferOk(ds[p].files[n], data)
  }

  ghost function Content(ds: Dirs, data: map<int, seq<byte>>, p: int, n: string): seq<byte>
    requires FilesOk(ds, data) && p in ds && n in ds[p].files
  {
    assert BufferOk(ds[p].files[n], data);
    if ds[p].files[n].ptr == NULL then [] else data[ds[p].files[n].ptr]
  }

  ghost predicate HasFile(ds: Dirs, p: int, n: string) { p in ds && n in ds[p].files }

  /** Apart from file n of p, the same files with the same contents. */
  ghost predicate OthersKept(ds: Dirs, data: map<int, seq<byte>>, ds': Dirs, data': map<int, seq<byte>>, p: int, n: string)
    requires FilesOk(ds, data) && FilesOk(ds', data')
  {
    forall q, m {:trigger HasFile(ds', q, m)} | !(q == p && m == n) ::
      HasFile(ds', q, m) == HasFile(ds, q, m) && (HasFile(ds, q, m) ==> Content(ds', data', q, m) == Content(ds, data, q, m))
  }

  /** Storing a new record for file n of p, with its buffer at a block that no other file uses, changes that file only. */
  lemma SetFileOk(ds: Dirs, data: map<int, seq<byte>>, live: set<int>, owner: map<int, Slot>,
                  p: int, n: string, f: File, data': map<int, seq<byte>>)
    requires Own(ds, live, owner) && FilesOk(ds, data) && p in ds && BufferOk(f, data')
    requires forall a {:trigger a in data'} | a != f.ptr :: (a in data' <==> a in data) && (a in data ==> data'[a] == data[a])
    requires f.ptr == NULL || f.ptr !in live || f.ptr == AddrOf(ds, Buffer(p, n))
    ensures FilesOk(SetFile(ds, p, n, f), data') && OthersKept(ds, data, SetFile(ds, p, n, f), data', p, n)
    ensures Content(SetFile(ds, p, n, f), data', p, n) == if f.ptr == NULL then [] else data'[f.ptr]
  {
    var ds' := SetFile(ds, p, n, f);
    forall q, m | q in ds' && m in ds'[q].files ensures BufferOk(ds'[q].files[m], data') {
      if !(q == p && m == n) {
        OtherBuffer(ds, data, live, owner, p, n, f, data', q, m);
      }
    }
    forall q, m | !(q == p && m == n)
      ensures HasFile(ds', q, m) == HasFile(ds, q, m) && (HasFile(ds, q, m) ==> Content(ds', data', q, m) == Content(ds, data, q, m))
    {
      if HasFile(ds, q, m) {
        OtherBuffer(ds, data, live, owner, p, n, f, data', q, m);
      }
    }
  }

  lemma OtherBuffer(ds: Dirs, data: map<int, seq<byte>>, live: set<int>, owner: map<int, Slot>,
                    p: int, n: string, f: File, data': map<int, seq<byte>>, q: int, m: string)
    requires Own(ds, live, owner) && FilesOk(ds, data) && p in ds && HasFile(ds, q, m) && !(q == p && m == n)
    requires forall a {:trigger a in data'} | a != f.ptr :: (a in data' <==> a in data) && (a in data ==> data'[a] == data[a])
    requires f.ptr == NULL || f.ptr !in live || f.ptr == AddrOf(ds, Buffer(p, n))
    ensures SetFile(ds, p, n, f)[q].files[m] == ds[q].files[m] && BufferOk(ds[q].files[m], data')
    ensures ds[q].files[m].ptr != NULL ==> data'[ds[q].files[m].ptr] == data[ds[q].files[m].ptr]
  {
    var a := ds[q].files[m].ptr;
    assert BufferOk(ds[q].files[m], data);
    assert a == AddrOf(ds, Buffer(q, m));
    if a != NULL {
      assert a in live && owner[a] == Buffer(q, m);
      assert a != f.ptr;
    }
  }

  lemma CutFileOk(ds: Dirs, data: map<int, seq<byte>>, p: int, n: string)
    requires FilesOk(ds, data) && p in ds
    ensures FilesOk(CutFile(ds, p, n), data) && OthersKept(ds, data, CutFile(ds, p, n), data, p, n)
  {
    var ds' := CutFile(ds, p, n);
    forall q, m | q in ds' && m in ds'[q].files ensures BufferOk(ds'[q].files[m], data) {
      assert m in ds[q].files;
    }
  }

  /** Neither a new directory nor the removal of an empty one touches a file. */
  lemma AddDirFiles(ds: Dirs, data: map<int, seq<byte>>, p: int, n: string, node: int, a: int, x: int, y: string)
    requires FilesOk(ds, data) && p in ds && a !in ds
    ensures FilesOk(AddDir(ds, p, n, node, a), data) && OthersKept(ds, data, AddDir(ds, p, n, node, a), data, x, y)
  {
    var ds' := AddDir(ds, p, n, node, a);
    forall q, m | q in ds' && m in ds'[q].files ensures BufferOk(ds'[q].files[m], data) {
      assert m in ds[q].files;
    }
  }

  lemma CutDirFiles(ds: Dirs, data: map<int, seq<byte>>, p: int, n: string, x: int, y: string)
    requires FilesOk(ds, data) && p in ds && n in ds[p].folders && ds[p].folders[n].ptr in ds
    requires ds[ds[p].folders[n].ptr].files == map[] && p != ds[p].folders[n].ptr
    ensures FilesOk(CutDir(ds, p, n), data) && OthersKept(ds, data, CutDir(ds, p, n), data, x, y)
  {
    var ds' := CutDir(ds, p, n);
    forall q, m | q in ds' && m in ds'[q].files ensures BufferOk(ds'[q].files[m], data) {
      assert m in ds[q].files;
    }
  }
}
