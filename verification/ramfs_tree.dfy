// The directory structs of ramfs as they lie in memory: an address for every struct, and maps for the hash tables.
module RamfsTree {
  import opened Common

  const NULL: int := 0
  const ROOT: int := 1          // the address of the global root, which is not on the heap

  /** A hash node of the folder map, and the directory that its record points to. */
  datatype Sub = Sub(node: int, ptr: int)

  /** A hash node of the file map, and the buffer and length in its record. */
  datatype File = File(node: int, ptr: int, length: nat)

  datatype Dir = Dir(name: string, parent: int, folders: map<string, Sub>, files: map<string, File>)

  type Dirs = map<int, Dir>

  predicate ShortName(n: string) { 0 < |n| <= MAX_NAME }

  /** a is the root, or its parent's map leads to it under its own name. */
  ghost predicate Hangs(ds: Dirs, rank: map<int, nat>, a: int)
    requires a in ds
  {
    a == ROOT ||
    var p := ds[a].parent;
    && p in ds && ds[a].name in ds[p].folders && ds[p].folders[ds[a].name].ptr == a
    && a in rank && p in rank && rank[a] == rank[p] + 1
  }

  /** Entry n of a is a directory with this name and this parent. */
  ghost predicate Leads(ds: Dirs, a: int, n: string)
    requires a in ds && n in ds[a].folders
  {
    var c := ds[a].folders[n].ptr;
    c in ds && c != ROOT && ds[c].parent == a && ds[c].name == n && ShortName(n) && n !in ds[a].files
  }

  /** Parent pointers and child maps are inverse to each other; the rank excludes cycles; a name is used once. */
  ghost predicate TreeOk(ds: Dirs, rank: map<int, nat>) {
    && ROOT in ds && ds[ROOT].parent == NULL && NULL !in ds
    && (forall a {:trigger ds[a]} | a in ds :: Hangs(ds, rank, a))
    && (forall a, n {:trigger n in ds[a].folders} | a in ds && n in ds[a].folders :: Leads(ds, a, n))
    && (forall a, n {:trigger n in ds[a].files} | a in ds && n in ds[a].files :: ShortName(n))
    && (forall a {:trigger a in rank} | a in ds :: a in rank)
  }

  // ----- What the operations do to the tree -----

  function AddDir(ds: Dirs, p: int, n: string, node: int, a: int): Dirs
    requires p in ds
  {
    ds[a := Dir(n, p, map[], map[])][p := ds[p].(folders := ds[p].folders[n := Sub(node, a)])]
  }

  function CutDir(ds: Dirs, p: int, n: string): Dirs
    requires p in ds && n in ds[p].folders
  {
    ds[p := ds[p].(folders := ds[p].folders - {n})] - {ds[p].folders[n].ptr}
  }

  function SetFile(ds: Dirs, p: int, n: string, f: File): Dirs
    requires p in ds
  {
    ds[p := ds[p].(files := ds[p].files[n := f])]
  }

  function CutFile(ds: Dirs, p: int, n: string): Dirs
    requires p in ds
  {
    ds[p := ds[p].(files := ds[p].files - {n})]
  }

  lemma AddDirIs(ds: Dirs, p: int, n: string, node: int, a: int)
    requires p in ds && a !in ds
    ensures AddDir(ds, p, n, node, a) == ds[a := Dir(n, p, map[], map[])][p := ds[p].(folders := ds[p].folders[n := Sub(node, a)])]
  {
  }

  lemma AddDirOk(ds: Dirs, rank: map<int, nat>, p: int, n: string, node: int, a: int)
    requires TreeOk(ds, rank) && p in ds && a !in ds && a != NULL && ShortName(n)
    requires n !in ds[p].folders && n !in ds[p].files
    ensures TreeOk(AddDir(ds, p, n, node, a), rank[a := rank[p] + 1])
  {
    hide Hangs, Leads;
    var ds', rank' := AddDir(ds, p, n, node, a), rank[a := rank[p] + 1];
    forall b | b in ds' ensures Hangs(ds', rank', b) {
      AddDirHangs(ds, rank, p, n, node, a, b);
    }
    forall b, m | b in ds' && m in ds'[b].folders ensures Leads(ds', b, m) {
      AddDirLeads(ds, rank, p, n, node, a, b, m);
    }
    forall b, m | b in ds' && m in ds'[b].files ensures ShortName(m) {
      if b != a {
        assert m in ds[b].files;
      }
    }
  }

  lemma AddDirHangs(ds: Dirs, rank: map<int, nat>, p: int, n: string, node: int, a: int, b: int)
    requires TreeOk(ds, rank) && p in ds && a !in ds && a != NULL && n !in ds[p].folders
    requires b in AddDir(ds, p, n, node, a)
    ensures Hangs(AddDir(ds, p, n, node, a), rank[a := rank[p] + 1], b)
  {
    if b != a {
      assert Hangs(ds, rank, b);
    }
  }

  lemma AddDirLeads(ds: Dirs, rank: map<int, nat>, p: int, n: string, node: int, a: int, b: int, m: string)
    requires TreeOk(ds, rank) && p in ds && a !in ds && a != NULL && ShortName(n)
    requires n !in ds[p].folders && n !in ds[p].files
    requires b in AddDir(ds, p, n, node, a) && m in AddDir(ds, p, n, node, a)[b].folders
    ensures Leads(AddDir(ds, p, n, node, a), b, m)
  {
    if b != a && !(b == p && m == n) {
      assert m in ds[b].folders && Leads(ds, b, m);
    }
  }

  lemma CutDirOk(ds: Dirs, rank: map<int, nat>, p: int, n: string)
    requires TreeOk(ds, rank) && p in ds && n in ds[p].folders && ds[p].folders[n].ptr in ds
    requires ds[ds[p].folders[n].ptr].folders == map[]
    ensures TreeOk(CutDir(ds, p, n), rank)
  {
    var c, ds' := ds[p].folders[n].ptr, CutDir(ds, p, n);
    assert Leads(ds, p, n);
    assert p != c by { assert Hangs(ds, rank, c); }
    forall b | b in ds' ensures Hangs(ds', rank, b) {
      assert Hangs(ds, rank, b);
    }
    forall b, m | b in ds' && m in ds'[b].folders ensures Leads(ds', b, m) {
      assert m in ds[b].folders && Leads(ds, b, m);
    }
    forall b, m | b in ds' && m in ds'[b].files ensures ShortName(m) {
      assert m in ds[b].files;
    }
  }

  lemma FilesOnly(ds: Dirs, rank: map<int, nat>, p: int, files: map<string, File>)
    requires TreeOk(ds, rank) && p in ds
    requires forall n {:trigger n in files} | n in files :: ShortName(n) && n !in ds[p].folders
    ensures TreeOk(ds[p := ds[p].(files := files)], rank)
  {
    var ds' := ds[p := ds[p].(files := files)];
    forall b | b in ds' ensures Hangs(ds', rank, b) {
      assert Hangs(ds, rank, b);
    }
    forall b, m | b in ds' && m in ds'[b].folders ensures Leads(ds', b, m) {
      assert m in ds[b].folders && Leads(ds, b, m);
    }
    forall b, m | b in ds' && m in ds'[b].files ensures ShortName(m) {
      if b != p {
        assert m in ds[b].files;
      }
    }
  }

  // ----- Ancestors -----

  /** b is a or one of its ancestors. */
  ghost predicate Below(ds: Dirs, rank: map<int, nat>, a: int, b: int)
    requires TreeOk(ds, rank) && a in ds
    decreases rank[a]
  {
    a == b || (a != ROOT && (assert Hangs(ds, rank, a); Below(ds, rank, ds[a].parent, b)))
  }

  lemma {:induction false} BelowRoot(ds: Dirs, rank: map<int, nat>, a: int)
    requires TreeOk(ds, rank) && a in ds
    ensures Below(ds, rank, a, ROOT)
    decreases rank[a]
  {
    if a != ROOT {
      assert Hangs(ds, rank, a);
      BelowRoot(ds, rank, ds[a].parent);
    }
  }
}
