// ramfs.c: resolving a path to a directory, and printing the path of one.
module RamfsPath {
  import opened Common
  import opened RamfsLookup
  import opened RamfsTree

  // ----- Components -----

  /** Index of the first slash, or the length. */
  function Slash(s: string): (i: nat)
    ensures i <= |s| && (i < |s| ==> s[i] == '/') && '/' !in s[..i]
  {
    if s == "" || s[0] == '/' then 0 else 1 + Slash(s[1..])
  }

  /** The components between slashes, empty ones included. */
  function Split(s: string): (parts: seq<string>)
    ensures parts != []
  {
    var i := Slash(s);
    if i == |s| then [s] else [s[..i]] + Split(s[i + 1..])
  }

  lemma {:induction false} NoSlashInside(s: string)
    ensures forall c | c in Split(s) :: '/' !in c
    decreases |s|
  {
    hide Slash;
    var i := Slash(s);
    if i < |s| {
      NoSlashInside(s[i + 1..]);
    } else {
      assert s[..i] == s;
    }
  }

  lemma {:induction false} SlashPrefix(x: string, y: string)
    ensures Slash(x + "/" + y) == Slash(x)
  {
    if x != "" && x[0] != '/' {
      assert (x + "/" + y)[1..] == x[1..] + "/" + y;
      SlashPrefix(x[1..], y);
    }
  }

  lemma CutAt(x: string, y: string, i: nat)
    requires i <= |x|
    ensures var s := x + "/" + y; s[..i] == x[..i] && s[i + 1..] == if i == |x| then y else x[i + 1..] + "/" + y
  {
  }

  lemma SplitStep(s: string)
    ensures Split(s) == if Slash(s) == |s| then [s] else [s[..Slash(s)]] + Split(s[Slash(s) + 1..])
  {
    hide Slash;
  }

  lemma {:induction false} SplitConcat(x: string, y: string)
    ensures Split(x + "/" + y) == Split(x) + Split(y)
    decreases |x|
  {
    hide Split, Slash;
    var i, s := Slash(x), x + "/" + y;
    SlashPrefix(x, y);
    CutAt(x, y, i);
    SplitStep(x);
    SplitStep(s);
    if i == |x| {
      assert x[..i] == x;
    } else {
      var rest := Split(x[i + 1..]);
      SplitConcat(x[i + 1..], y);
      assert [x[..i]] + (rest + Split(y)) == [x[..i]] + rest + Split(y);
    }
  }

  lemma {:induction false} SlashNone(s: string)
    requires '/' !in s
    ensures Slash(s) == |s| && Split(s) == [s]
  {
    if s != "" {
      assert forall c | c in s[1..] :: c in s;
      SlashNone(s[1..]);
    }
  }

  // ----- Walking -----

  /** Components that an ordinary lookup is made for. */
  predicate Ordinary(part: string) { part != "" && part != "." && part != ".." }

  /** The walk of _get_dir_by_path: NULL if a component is missing; ".." at a parentless directory ends it at once. */
  function Walk(ds: Dirs, cur: int, parts: seq<string>): int
    decreases |parts|
  {
    if parts == [] || cur !in ds then cur
    else
      var part, rest := parts[0], parts[1..];
      if part == "" || part == "." then Walk(ds, cur, rest)
      else if part == ".." then
        if ds[cur].parent != NULL then Walk(ds, ds[cur].parent, rest) else cur
      else if part in ds[cur].folders then Walk(ds, ds[cur].folders[part].ptr, rest)
      else NULL
  }

  function Resolve(ds: Dirs, base: int, path: string): int {
    if path == "" then NULL
    else if path[0] == '/' then Walk(ds, ROOT, Split(path[1..]))
    else Walk(ds, base, Split(path))
  }

  /** The walk meets ".." at a parentless directory. */
  ghost predicate Stuck(ds: Dirs, cur: int, parts: seq<string>)
    decreases |parts|
  {
    parts != [] && cur in ds &&
    var part, rest := parts[0], parts[1..];
    if part == "" || part == "." then Stuck(ds, cur, rest)
    else if part == ".." then ds[cur].parent == NULL || Stuck(ds, ds[cur].parent, rest)
    else part in ds[cur].folders && Stuck(ds, ds[cur].folders[part].ptr, rest)
  }

  /** A walk in a well-formed tree ends at a directory or at NULL. */
  lemma {:induction false} WalkLands(ds: Dirs, rank: map<int, nat>, cur: int, parts: seq<string>)
    requires TreeOk(ds, rank) && cur in ds
    ensures Walk(ds, cur, parts) == NULL || Walk(ds, cur, parts) in ds
    decreases |parts|
  {
    if parts != [] {
      WalkStep(ds, rank, cur, parts[0]);
      var part, rest := parts[0], parts[1..];
      if part == "" || part == "." {
        WalkLands(ds, rank, cur, rest);
      } else if part == ".." {
        if ds[cur].parent != NULL { WalkLands(ds, rank, ds[cur].parent, rest); }
      } else if part in ds[cur].folders {
        WalkLands(ds, rank, ds[cur].folders[part].ptr, rest);
      }
    }
  }

  lemma WalkStep(ds: Dirs, rank: map<int, nat>, cur: int, part: string)
    requires TreeOk(ds, rank) && cur in ds
    ensures ds[cur].parent != NULL ==> ds[cur].parent in ds
    ensures part in ds[cur].folders ==>
      ds[cur].folders[part].ptr in ds && ds[ds[cur].folders[part].ptr].parent == cur && ds[ds[cur].folders[part].ptr].name == part
    ensures part in ds[cur].folders ==> ds[cur].folders[part].ptr != ROOT
  {
    assert Hangs(ds, rank, cur);
    assert part in ds[cur].folders ==> Leads(ds, cur, part);
  }

  lemma {:induction false} WalkConcat(ds: Dirs, rank: map<int, nat>, cur: int, xs: seq<string>, ys: seq<string>)
    requires TreeOk(ds, rank) && cur in ds
    ensures Walk(ds, cur, xs + ys) ==
      if Stuck(ds, cur, xs) || Walk(ds, cur, xs) == NULL then Walk(ds, cur, xs) else Walk(ds, Walk(ds, cur, xs), ys)
    decreases |xs|
  {
    if xs == [] {
      assert xs + ys == ys;
      assert cur != NULL;
    } else {
      var part, rest := xs[0], xs[1..];
      assert (xs + ys)[1..] == rest + ys;
      WalkStep(ds, rank, cur, part);
      if part == "" || part == "." {
        WalkConcat(ds, rank, cur, rest, ys);
      } else if part == ".." {
        if ds[cur].parent != NULL { WalkConcat(ds, rank, ds[cur].parent, rest, ys); }
      } else if part in ds[cur].folders {
        WalkConcat(ds, rank, ds[cur].folders[part].ptr, rest, ys);
      }
    }
  }

  /** Where the walk for path starts, and the components it goes through. */
  function Start(base: int, path: string): int { if path != "" && path[0] == '/' then ROOT else base }

  function Parts(path: string): seq<string> { if path != "" && path[0] == '/' then Split(path[1..]) else Split(path) }

  /** Resolving p/q is resolving p and then q, unless the walk for p was cut short by ".." or failed: then q is ignored. */
  lemma ResolveConcat(ds: Dirs, rank: map<int, nat>, base: int, p: string, q: string)
    requires TreeOk(ds, rank) && base in ds && p != "" && q != "" && q[0] != '/'
    ensures Resolve(ds, base, p + "/" + q) ==
      if Stuck(ds, Start(base, p), Parts(p)) || Resolve(ds, base, p) == NULL then Resolve(ds, base, p)
      else Resolve(ds, Resolve(ds, base, p), q)
  {
    hide Walk, Stuck, TreeOk, Split;
    RootIn(ds, rank);
    var s := p + "/" + q;
    if p[0] == '/' {
      assert s[1..] == p[1..] + "/" + q;
      SplitConcat(p[1..], q);
      WalkConcat(ds, rank, ROOT, Split(p[1..]), Split(q));
    } else {
      SplitConcat(p, q);
      WalkConcat(ds, rank, base, Split(p), Split(q));
    }
  }

  /** Where one component leads from directory d: nowhere else for "" and ".", to the parent for ".." if there is one, and otherwise
      to the subdirectory of that name. */
  function Next(ds: Dirs, d: int, n: string): int
    requires d in ds
  {
    if n == "" || n == "." then d
    else if n == ".." then (if ds[d].parent == NULL then d else ds[d].parent)
    else if n in ds[d].folders then ds[d].folders[n].ptr else NULL
  }

  /** The laws that determine path resolution: the empty path, a single component, one component more, and absolute paths. */
  lemma ResolveLaws(ds: Dirs, rank: map<int, nat>, base: int, p: string, n: string)
    requires TreeOk(ds, rank) && base in ds && '/' !in n
    ensures Resolve(ds, base, "") == NULL
    ensures n != "" ==> Resolve(ds, base, n) == Next(ds, base, n)
    ensures p != "" && Resolve(ds, base, p) in ds && !Stuck(ds, Start(base, p), Parts(p)) ==>
      Resolve(ds, base, p + "/" + n) == Next(ds, Resolve(ds, base, p), n)
    ensures Resolve(ds, base, "/" + n) == Next(ds, ROOT, n)
    ensures p != "" && p[0] != '/' ==> Resolve(ds, base, "/" + p) == Resolve(ds, ROOT, p)
  {
    hide Walk, Stuck, TreeOk, Split;
    RootIn(ds, rank);
    SlashNone(n);
    WalkSingle(ds, rank, base, n);
    WalkSingle(ds, rank, ROOT, n);
    assert ("/" + n)[1..] == n && ("/" + p)[1..] == p;
    if n != "" {
      assert n[0] in n;
    }
    if p != "" && Resolve(ds, base, p) in ds {
      WalkSingle(ds, rank, Resolve(ds, base, p), n);
      var s := p + "/" + n;
      if p[0] == '/' {
        assert s[1..] == p[1..] + "/" + n;
        SplitConcat(p[1..], n);
        WalkConcat(ds, rank, ROOT, Split(p[1..]), [n]);
      } else {
        SplitConcat(p, n);
        WalkConcat(ds, rank, base, Split(p), [n]);
      }
    }
  }

  lemma WalkSingle(ds: Dirs, rank: map<int, nat>, d: int, n: string)
    requires TreeOk(ds, rank) && d in ds
    ensures Walk(ds, d, [n]) == Next(ds, d, n)
  {
    hide TreeOk;
    WalkStep(ds, rank, d, n);
    assert [n][1..] == [];
  }

  /** ".." comes back to the directory that an ordinary component was entered from. */
  lemma DownAndUp(ds: Dirs, rank: map<int, nat>, base: int, n: string)
    requires TreeOk(ds, rank) && base in ds && Plain(n) && n in ds[base].folders
    ensures Resolve(ds, base, n + "/..") == base
  {
    hide Walk, Stuck, TreeOk, Split;
    WalkStep(ds, rank, base, n);
    SlashNone(n);
    SlashNone("..");
    RootIn(ds, rank);
    SplitConcat(n, "..");
    assert n + "/" + ".." == n + "/..";
    assert n[0] in n;
    WalkTwo(ds, rank, base, n);
  }

  lemma WalkTwo(ds: Dirs, rank: map<int, nat>, base: int, n: string)
    requires TreeOk(ds, rank) && base in ds && Ordinary(n) && n in ds[base].folders && base != NULL
    ensures Walk(ds, base, [n] + [".."]) == base
  {
    hide TreeOk;
    WalkStep(ds, rank, base, n);
    var parts := [n] + [".."];
    assert parts[1..] == [".."] && [".."][1..] == [];
  }

  lemma RootIn(ds: Dirs, rank: map<int, nat>)
    requires TreeOk(ds, rank)
    ensures ROOT in ds && ds[ROOT].parent == NULL && NULL !in ds
  {
  }

  // ----- Printing -----

  /** build_absolute_path */
  ghost function PathOf(ds: Dirs, rank: map<int, nat>, a: int): (s: string)
    requires TreeOk(ds, rank) && a in ds
    ensures |s| > 0 && s[0] == '/'
    decreases rank[a]
  {
    if a == ROOT then "/"
    else
      assert Hangs(ds, rank, a);
      var s := PathOf(ds, rank, ds[a].parent);
      (if s[|s| - 1] == '/' then s else s + "/") + ds[a].name
  }

  /** A name that a path can carry. */
  predicate Plain(n: string) { Ordinary(n) && '/' !in n }

  ghost predicate AllPlain(ds: Dirs, rank: map<int, nat>, a: int)
    requires TreeOk(ds, rank) && a in ds
    decreases rank[a]
  {
    a == ROOT || (assert Hangs(ds, rank, a); Plain(ds[a].name) && AllPlain(ds, rank, ds[a].parent))
  }

  /** The names from the root down to a. */
  ghost function Names(ds: Dirs, rank: map<int, nat>, a: int): seq<string>
    requires TreeOk(ds, rank) && a in ds
    decreases rank[a]
  {
    if a == ROOT then [] else assert Hangs(ds, rank, a); Names(ds, rank, ds[a].parent) + [ds[a].name]
  }

  lemma {:induction false} WalkNames(ds: Dirs, rank: map<int, nat>, a: int)
    requires TreeOk(ds, rank) && a in ds && AllPlain(ds, rank, a)
    ensures Walk(ds, ROOT, Names(ds, rank, a)) == a && !Stuck(ds, ROOT, Names(ds, rank, a))
    decreases rank[a]
  {
    if a != ROOT {
      hide TreeOk, Stuck, Walk;
      RootIn(ds, rank);
      ParentOf(ds, rank, a);
      var p, n := ds[a].parent, ds[a].name;
      WalkNames(ds, rank, p);
      WalkConcat(ds, rank, ROOT, Names(ds, rank, p), [n]);
      WalkSingle(ds, rank, p, n);
      assert Walk(ds, p, [n]) == a;
      StuckConcat(ds, rank, ROOT, Names(ds, rank, p), n);
    } else {
      assert !Stuck(ds, ROOT, []);
    }
  }

  lemma ParentOf(ds: Dirs, rank: map<int, nat>, a: int)
    requires TreeOk(ds, rank) && a in ds && a != ROOT
    ensures Hangs(ds, rank, a) && NULL !in ds
  {
  }

  lemma {:induction false} StuckConcat(ds: Dirs, rank: map<int, nat>, cur: int, xs: seq<string>, y: string)
    requires TreeOk(ds, rank) && cur in ds && !Stuck(ds, cur, xs) && y != ".."
    ensures !Stuck(ds, cur, xs + [y])
    decreases |xs|
  {
    if xs == [] {
      assert xs + [y] == [y];
    } else {
      var part, rest := xs[0], xs[1..];
      assert (xs + [y])[1..] == rest + [y];
      WalkStep(ds, rank, cur, part);
      if part == "" || part == "." {
        StuckConcat(ds, rank, cur, rest, y);
      } else if part == ".." {
        StuckConcat(ds, rank, ds[cur].parent, rest, y);
      } else if part in ds[cur].folders {
        StuckConcat(ds, rank, ds[cur].folders[part].ptr, rest, y);
      }
    }
  }

  /** The printed path splits into the names, if they are plain. */
  lemma {:induction false} PathSplits(ds: Dirs, rank: map<int, nat>, a: int)
    requires TreeOk(ds, rank) && a in ds && AllPlain(ds, rank, a) && a != ROOT
    ensures Split(PathOf(ds, rank, a)[1..]) == Names(ds, rank, a)
    ensures PathOf(ds, rank, a)[|PathOf(ds, rank, a)| - 1] != '/'
    decreases rank[a]
  {
    hide TreeOk, Split;
    ParentOf(ds, rank, a);
    var p, n := ds[a].parent, ds[a].name;
    SlashNone(n);
    assert n[|n| - 1] in n;
    var s := PathOf(ds, rank, a);
    if p == ROOT {
      assert PathOf(ds, rank, p) == "/";
      assert s == "/" + n;
      assert s[1..] == n;
      assert Names(ds, rank, p) == [];
    } else {
      PathSplits(ds, rank, p);
      var t := PathOf(ds, rank, p);
      assert s[1..] == t[1..] + "/" + n;
      SplitConcat(t[1..], n);
    }
  }

  /** The printed path of a directory is its parent's, a slash unless that is "/", and its name. */
  lemma PathOfChild(ds: Dirs, rank: map<int, nat>, a: int)
    requires TreeOk(ds, rank) && a in ds
    ensures a == ROOT ==> PathOf(ds, rank, a) == "/"
    ensures a != ROOT ==> ds[a].parent in ds
    ensures a != ROOT && ds[a].parent == ROOT ==> PathOf(ds, rank, a) == "/" + ds[a].name
    ensures a != ROOT && ds[a].parent != ROOT && Plain(ds[ds[a].parent].name) ==>
      PathOf(ds, rank, a) == PathOf(ds, rank, ds[a].parent) + "/" + ds[a].name
  {
    hide TreeOk;
    if a != ROOT {
      ParentOf(ds, rank, a);
      var p := ds[a].parent;
      if p != ROOT {
        ParentOf(ds, rank, p);
        if Plain(ds[p].name) {
          assert ds[p].name[|ds[p].name| - 1] in ds[p].name;
        }
      }
    }
  }

  // ----- Directories that no path leads to -----

  /** A walk that starts outside the directories below b never enters them, if the name of b is not one that a lookup is made for. */
  lemma {:induction false} WalkStaysOut(ds: Dirs, rank: map<int, nat>, cur: int, parts: seq<string>, b: int)
    requires TreeOk(ds, rank) && cur in ds && b in ds && b != ROOT && !Below(ds, rank, cur, b)
    requires forall c | c in parts :: Ordinary(c) ==> c != ds[b].name
    ensures var r := Walk(ds, cur, parts); r == NULL || (r in ds && !Below(ds, rank, r, b))
    decreases |parts|
  {
    if parts != [] {
      hide TreeOk;
      var part, rest := parts[0], parts[1..];
      assert part in parts;
      WalkStep(ds, rank, cur, part);
      RootIn(ds, rank);
      if part == "" || part == "." {
        WalkStaysOut(ds, rank, cur, rest, b);
      } else if part == ".." {
        if ds[cur].parent != NULL {
          WalkStaysOut(ds, rank, ds[cur].parent, rest, b);
        }
      } else if part in ds[cur].folders {
        WalkStaysOut(ds, rank, ds[cur].folders[part].ptr, rest, b);
      }
    }
  }

  /** The topmost ancestor whose name is not plain. */
  lemma {:induction false} NotPlainAbove(ds: Dirs, rank: map<int, nat>, a: int) returns (b: int)
    requires TreeOk(ds, rank) && a in ds && !AllPlain(ds, rank, a)
    ensures b in ds && b != ROOT && Below(ds, rank, a, b) && !Plain(ds[b].name)
    decreases rank[a]
  {
    hide TreeOk;
    ParentOf(ds, rank, a);
    if !Plain(ds[a].name) {
      b := a;
    } else {
      b := NotPlainAbove(ds, rank, ds[a].parent);
    }
  }

  /** The path that is printed for a directory leads back to it exactly if its name and those of its ancestors are plain. */
  lemma PathRoundTrip(ds: Dirs, rank: map<int, nat>, base: int, a: int)
    requires TreeOk(ds, rank) && a in ds
    ensures Resolve(ds, base, PathOf(ds, rank, a)) == a <==> AllPlain(ds, rank, a)
  {
    hide TreeOk, Walk, Split, Below;
    RootIn(ds, rank);
    var s := PathOf(ds, rank, a);
    if a == ROOT {
      assert s[1..] == "";
      SlashNone("");
      WalkEmpty(ds, ROOT);
    } else if AllPlain(ds, rank, a) {
      PathSplits(ds, rank, a);
      WalkNames(ds, rank, a);
    } else {
      var b := NotPlainAbove(ds, rank, a);
      RootAbove(ds, rank, b);
      NoSlashInside(s[1..]);
      WalkStaysOut(ds, rank, ROOT, Split(s[1..]), b);
    }
  }

  lemma WalkEmpty(ds: Dirs, cur: int)
    requires cur in ds
    ensures Walk(ds, cur, [""]) == cur
  {
    assert [""][1..] == [];
  }

  lemma RootAbove(ds: Dirs, rank: map<int, nat>, b: int)
    requires TreeOk(ds, rank) && b in ds && b != ROOT
    ensures !Below(ds, rank, ROOT, b)
  {
  }

  // ----- mkdir -p -----

  /** The walk of mkdir -p: every component but "" and "." is a name, ".." too; NULL if one is missing. */
  function Descend(ds: Dirs, cur: int, parts: seq<string>): int
    decreases |parts|
  {
    if parts == [] || cur !in ds then cur
    else if parts[0] == "" || parts[0] == "." then Descend(ds, cur, parts[1..])
    else if parts[0] in ds[cur].folders then Descend(ds, ds[cur].folders[parts[0]].ptr, parts[1..])
    else NULL
  }

  lemma {:induction false} DescendConcat(ds: Dirs, rank: map<int, nat>, cur: int, xs: seq<string>, ys: seq<string>)
    requires TreeOk(ds, rank) && cur in ds
    ensures Descend(ds, cur, xs) == NULL || Descend(ds, cur, xs) in ds
    ensures Descend(ds, cur, xs + ys) == if Descend(ds, cur, xs) == NULL then NULL else Descend(ds, Descend(ds, cur, xs), ys)
    decreases |xs|
  {
    hide TreeOk;
    RootIn(ds, rank);
    if xs == [] {
      assert xs + ys == ys;
    } else {
      assert (xs + ys)[1..] == xs[1..] + ys;
      WalkStep(ds, rank, cur, xs[0]);
      if xs[0] == "" || xs[0] == "." {
        DescendConcat(ds, rank, cur, xs[1..], ys);
      } else if xs[0] in ds[cur].folders {
        DescendConcat(ds, rank, ds[cur].folders[xs[0]].ptr, xs[1..], ys);
      }
    }
  }

  /** Without ".." the two walks are the same. */
  lemma {:induction false} DescendIsWalk(ds: Dirs, rank: map<int, nat>, cur: int, parts: seq<string>)
    requires TreeOk(ds, rank) && cur in ds && ".." !in parts
    ensures Walk(ds, cur, parts) == Descend(ds, cur, parts)
    decreases |parts|
  {
    hide TreeOk;
    if parts != [] {
      assert parts[0] in parts && forall c | c in parts[1..] :: c in parts;
      WalkStep(ds, rank, cur, parts[0]);
      if parts[0] == "" || parts[0] == "." {
        DescendIsWalk(ds, rank, cur, parts[1..]);
      } else if parts[0] in ds[cur].folders {
        DescendIsWalk(ds, rank, ds[cur].folders[parts[0]].ptr, parts[1..]);
      }
    }
  }

  /** Descending goes down. */
  lemma {:induction false} DescendBelow(ds: Dirs, rank: map<int, nat>, cur: int, parts: seq<string>)
    requires TreeOk(ds, rank) && cur in ds && Descend(ds, cur, parts) != NULL
    ensures Descend(ds, cur, parts) in ds && Below(ds, rank, Descend(ds, cur, parts), cur)
    decreases |parts|
  {
    if parts != [] {
      hide TreeOk;
      WalkStep(ds, rank, cur, parts[0]);
      if parts[0] == "" || parts[0] == "." {
        DescendBelow(ds, rank, cur, parts[1..]);
      } else {
        var c := ds[cur].folders[parts[0]].ptr;
        DescendBelow(ds, rank, c, parts[1..]);
        ParentOf(ds, rank, c);
        BelowParent(ds, rank, Descend(ds, c, parts[1..]), c);
      }
    }
  }

  lemma {:induction false} BelowParent(ds: Dirs, rank: map<int, nat>, a: int, b: int)
    requires TreeOk(ds, rank) && a in ds && b in ds && b != ROOT && Below(ds, rank, a, b)
    ensures Hangs(ds, rank, b) && Below(ds, rank, a, ds[b].parent)
    decreases rank[a]
  {
    if a == b {
      assert Hangs(ds, rank, a);
    } else {
      assert Hangs(ds, rank, a);
      BelowParent(ds, rank, ds[a].parent, b);
    }
  }

  lemma {:induction false} BelowRank(ds: Dirs, rank: map<int, nat>, a: int, b: int)
    requires TreeOk(ds, rank) && a in ds && Below(ds, rank, a, b)
    ensures b in ds && b in rank && rank[b] <= rank[a]
    decreases rank[a]
  {
    assert Hangs(ds, rank, a);
    if a != b {
      BelowRank(ds, rank, ds[a].parent, b);
    }
  }

  /** If a descent uses "..", it passes a directory of that name, below which no walk from its start ends. */
  lemma {:induction false} DescendThroughDots(ds: Dirs, rank: map<int, nat>, cur: int, parts: seq<string>) returns (b: int)
    requires TreeOk(ds, rank) && cur in ds && ".." in parts && Descend(ds, cur, parts) != NULL
    ensures b in ds && b != ROOT && ds[b].name == ".." && !Below(ds, rank, cur, b)
    ensures Descend(ds, cur, parts) in ds && Below(ds, rank, Descend(ds, cur, parts), b)
    decreases |parts|
  {
    hide TreeOk, Below;
    var part, rest := parts[0], parts[1..];
    assert part == ".." || ".." in rest by {
      assert parts == [part] + rest;
    }
    WalkStep(ds, rank, cur, part);
    if part == "" || part == "." {
      b := DescendThroughDots(ds, rank, cur, rest);
    } else {
      var c := ds[cur].folders[part].ptr;
      NotBelowChild(ds, rank, cur, c);
      if part == ".." {
        b := c;
        DescendBelow(ds, rank, c, rest);
      } else {
        b := DescendThroughDots(ds, rank, c, rest);
        ChildNotBelow(ds, rank, cur, c, b);
      }
    }
  }

  lemma NotBelowChild(ds: Dirs, rank: map<int, nat>, cur: int, c: int)
    requires TreeOk(ds, rank) && cur in ds && c in ds && c != ROOT && ds[c].parent == cur
    ensures !Below(ds, rank, cur, c)
  {
    assert Hangs(ds, rank, c);
    if Below(ds, rank, cur, c) {
      BelowRank(ds, rank, cur, c);
    }
  }

  lemma ChildNotBelow(ds: Dirs, rank: map<int, nat>, cur: int, c: int, b: int)
    requires TreeOk(ds, rank) && cur in ds && c in ds && c != ROOT && ds[c].parent == cur && !Below(ds, rank, c, b)
    ensures !Below(ds, rank, cur, b)
  {
  }

  /** The path given to a successful mkdir -p leads to the directory it made exactly if it does not use "..". */
  lemma DescendResolves(ds: Dirs, rank: map<int, nat>, current: int, path: string)
    requires TreeOk(ds, rank) && current in ds && path != "" && Descend(ds, Start(current, path), Parts(path)) != NULL
    ensures Resolve(ds, current, path) == Descend(ds, Start(current, path), Parts(path)) <==> ".." !in Parts(path)
  {
    hide TreeOk, Below, Walk, Descend, Split;
    RootIn(ds, rank);
    var start, parts := Start(current, path), Parts(path);
    if ".." !in parts {
      DescendIsWalk(ds, rank, start, parts);
    } else {
      var b := DescendThroughDots(ds, rank, start, parts);
      WalkStaysOut(ds, rank, start, parts, b);
    }
  }

  /** Directories, and the entries that lead to them, have only been added. */
  ghost predicate Grown(ds: Dirs, ds': Dirs) {
    && (forall a {:trigger ds'[a]} {:trigger a in ds'} | a in ds :: a in ds' && ds'[a].parent == ds[a].parent && ds'[a].name == ds[a].name && ds'[a].files == ds[a].files)
    && (forall a, n {:trigger n in ds[a].folders} | a in ds && n in ds[a].folders ::
          a in ds' && n in ds'[a].folders && ds'[a].folders[n] == ds[a].folders[n])
  }

  lemma {:induction false} GrownDescend(ds: Dirs, ds': Dirs, rank: map<int, nat>, cur: int, parts: seq<string>)
    requires TreeOk(ds, rank) && Grown(ds, ds') && cur in ds && Descend(ds, cur, parts) != NULL
    ensures Descend(ds', cur, parts) == Descend(ds, cur, parts)
    decreases |parts|
  {
    hide TreeOk;
    assert ds'[cur].parent == ds[cur].parent;
    if parts != [] {
      WalkStep(ds, rank, cur, parts[0]);
      if parts[0] == "" || parts[0] == "." {
        GrownDescend(ds, ds', rank, cur, parts[1..]);
      } else {
        GrownDescend(ds, ds', rank, ds[cur].folders[parts[0]].ptr, parts[1..]);
      }
    }
  }

  lemma GrownTwice(x: Dirs, y: Dirs, z: Dirs)
    requires Grown(x, y) && Grown(y, z)
    ensures Grown(x, z)
  {
    forall a | a in x ensures a in z && z[a].parent == x[a].parent && z[a].name == x[a].name && z[a].files == x[a].files {
      assert y[a].parent == x[a].parent;
      assert z[a].parent == y[a].parent;
    }
    forall a, n | a in x && n in x[a].folders ensures a in z && n in z[a].folders && z[a].folders[n] == x[a].folders[n] {
      assert n in y[a].folders;
    }
  }

  lemma GrownByDir(ds: Dirs, p: int, n: string, node: int, a: int)
    requires p in ds && a !in ds && n !in ds[p].folders
    ensures Grown(ds, AddDir(ds, p, n, node, a)) && Grown(ds, ds)
    ensures var ds' := AddDir(ds, p, n, node, a); p in ds' && n in ds'[p].folders && ds'[p].folders[n].ptr == a && a in ds'
  {
  }

  lemma {:induction false} GrownBelow(ds: Dirs, ds': Dirs, rank: map<int, nat>, rank': map<int, nat>, a: int, b: int)
    requires TreeOk(ds, rank) && TreeOk(ds', rank') && Grown(ds, ds') && a in ds && Below(ds, rank, a, b)
    ensures a in ds' && Below(ds', rank', a, b)
    decreases rank[a]
  {
    hide TreeOk;
    assert ds'[a].parent == ds[a].parent;
    if a != b {
      ParentOf(ds, rank, a);
      ParentOf(ds', rank', a);
      GrownBelow(ds, ds', rank, rank', ds[a].parent, b);
    }
  }

  /** Every component but "" and "." has a length that a directory name may have. */
  ghost predicate AllShort(parts: seq<string>) {
    parts == [] || ((parts[0] == "" || parts[0] == "." || ShortName(parts[0])) && AllShort(parts[1..]))
  }

  /** mkdir -p can go through: from the first missing component on all are short, and no file is found under the name of that one. */
  ghost predicate Makeable(ds: Dirs, cur: int, parts: seq<string>, lookup: Lookup)
    decreases |parts|
  {
    parts == [] || cur !in ds ||
    if parts[0] == "" || parts[0] == "." then Makeable(ds, cur, parts[1..], lookup)
    else if parts[0] in ds[cur].folders then Makeable(ds, ds[cur].folders[parts[0]].ptr, parts[1..], lookup)
    else ShortName(parts[0]) && lookup(ds[cur].files, parts[0]) == None && AllShort(parts[1..])
  }

  /** A single name can be made, or is there, exactly if it is a subdirectory, or has 1 to 127 characters and no file is in its way. */
  lemma MakeableName(ds: Dirs, cur: int, n: string, lookup: Lookup)
    requires cur in ds && n != "" && n != "."
    ensures Makeable(ds, cur, [n], lookup) <==> n in ds[cur].folders || (1 <= |n| <= 127 && lookup(ds[cur].files, n) == None)
  {
    var parts := [n];
    assert parts[1..] == [];
  }

  lemma {:induction false} MakeableInEmpty(ds: Dirs, cur: int, parts: seq<string>, lookup: Lookup)
    requires cur in ds && ds[cur].folders == map[] && ds[cur].files == map[] && LookupOk(lookup)
    ensures Makeable(ds, cur, parts, lookup) <==> AllShort(parts)
    decreases |parts|
  {
    hide LookupOk;
    if parts != [] {
      PresentIsFound(lookup, map[], parts[0]);
      MakeableInEmpty(ds, cur, parts[1..], lookup);
    }
  }

  /** One component: it is there or can be made, and the rest can be made below it. */
  lemma MakeableStep(ds: Dirs, ds': Dirs, cur: int, name: string, rest: seq<string>, sub: int, lookup: Lookup)
    requires cur in ds && name != "" && name != "." && sub in ds' && LookupOk(lookup)
    requires if name in ds[cur].folders then ds' == ds && sub == ds[cur].folders[name].ptr
             else ds'[sub].folders == map[] && ds'[sub].files == map[] && ShortName(name) && lookup(ds[cur].files, name) == None
    ensures Makeable(ds, cur, [name] + rest, lookup) <==> Makeable(ds', sub, rest, lookup)
  {
    hide AllShort, LookupOk;
    assert ([name] + rest)[1..] == rest;
    if name !in ds[cur].folders {
      MakeableInEmpty(ds', sub, rest, lookup);
    }
  }

  lemma MakeableSkip(ds: Dirs, cur: int, name: string, rest: seq<string>, lookup: Lookup)
    requires cur in ds
    ensures name == "" || name == "." ==> (Makeable(ds, cur, [name] + rest, lookup) <==> Makeable(ds, cur, rest, lookup))
    ensures name != "" && name != "." && name !in ds[cur].folders && !(ShortName(name) && lookup(ds[cur].files, name) == None)
      ==> !Makeable(ds, cur, [name] + rest, lookup)
    ensures Makeable(ds, cur, [], lookup)
  {
    hide AllShort;
    assert ([name] + rest)[1..] == rest;
  }
}
