// Which file of a directory ramfs_file_hashmap_find returns for a name, given the comparison that the library computes.
module RamfsLookup {
  import opened Common
  import opened RamfsTree
  import ChainMap
  import Memcmp

  /** The key of the entry that a lookup returns. */
  type Lookup = (map<string, File>, string) -> Option<string>

  /** k stands in the bucket that is searched for n, and compares equal to it. */
  predicate Candidate(k: string, n: string) { ChainMap.Hash(k) == ChainMap.Hash(n) && Memcmp.FileEq(k, n) }

  /** A candidate is returned if there is one; which of several depends on the order of the chain. */
  ghost predicate LookupOk(lookup: Lookup) {
    && (forall files, n {:trigger lookup(files, n)} :: lookup(files, n).Some? ==>
          lookup(files, n).value in files && Candidate(lookup(files, n).value, n))
    && (forall files, n, k {:trigger lookup(files, n), k in files} :: lookup(files, n) == None && k in files ==> !Candidate(k, n))
  }

  /** Such a lookup exists. */
  ghost function AnyCandidate(files: map<string, File>, n: string): Option<string> {
    if k :| k in files && Candidate(k, n) then Some(k) else None
  }

  lemma LookupExists()
    ensures LookupOk(AnyCandidate)
  {
    hide Candidate;
    forall files: map<string, File>, n: string
      ensures AnyCandidate(files, n).Some? ==> AnyCandidate(files, n).value in files && Candidate(AnyCandidate(files, n).value, n)
      ensures forall k :: AnyCandidate(files, n) == None && k in files ==> !Candidate(k, n)
    {
    }
  }

  ghost predicate HasKey<D>(m: ChainMap.Chains<D>, k: string)
    requires ChainMap.Shape(m)
  {
    exists b, i :: 0 <= b < ChainMap.BUCKETS && 0 <= i < |m[b]| && m[b][i].key == k
  }

  /** The hash map with the library's comparison makes one: it finds a key of the map that is a candidate if there is one. */
  lemma ChainsLookUp<D>(m: ChainMap.Chains<D>, n: string)
    requires ChainMap.Good(m)
    ensures var f := ChainMap.Find(m, n, Memcmp.FileEq);
      && (f.Some? ==> HasKey(m, f.value.name) && Candidate(f.value.name, n))
      && (f == None ==> forall k | HasKey(m, k) :: !Candidate(k, n))
  {
    var b := ChainMap.Hash(n);
    var i := ChainMap.Index(m[b], n, Memcmp.FileEq);
    hide ChainMap.Hash, Memcmp.FileEq;
    if i < |m[b]| {
      assert m[b][i].value.name == m[b][i].key;
    } else {
      forall k | HasKey(m, k) ensures !Candidate(k, n) {
        var c, j :| 0 <= c < ChainMap.BUCKETS && 0 <= j < |m[c]| && m[c][j].key == k;
        assert ChainMap.Hash(m[c][j].key) == c;
      }
    }
  }

  ghost predicate OthersApart(files: map<string, File>, n: string) {
    forall k | k in files && k != n :: !Candidate(k, n)
  }

  /** A file that is there is found, possibly under another name; a name that is found by none is free. */
  lemma PresentIsFound(lookup: Lookup, files: map<string, File>, n: string)
    requires LookupOk(lookup)
    ensures n in files ==> lookup(files, n).Some?
    ensures lookup(files, n) == None ==> n !in files
    ensures lookup(files, n).Some? ==> lookup(files, n).value in files
    ensures lookup(map[], n) == None
  {
    Memcmp.SameIsFileEq(n);
    assert n in files ==> Candidate(n, n);
  }

  /** If no other file of the directory is a candidate, the lookup is by the exact name; for a new name, only then. */
  lemma LookupRight(lookup: Lookup, files: map<string, File>, n: string)
    requires LookupOk(lookup)
    ensures OthersApart(files, n) ==> lookup(files, n) == if n in files then Some(n) else None
    ensures n !in files ==> (lookup(files, n) == None <==> OthersApart(files, n))
  {
    PresentIsFound(lookup, files, n);
    if lookup(files, n).Some? {
      var k := lookup(files, n).value;
      assert k in files && Candidate(k, n);
    }
  }

  /** Where "q" is the only file, a lookup of "a" returns it. */
  lemma LookupWrong(lookup: Lookup, f: File)
    requires LookupOk(lookup)
    ensures lookup(map["q" := f], "a") == Some("q")
  {
    Memcmp.OneBucket();
    assert "q" in map["q" := f] && Candidate("q", "a");
  }
}
