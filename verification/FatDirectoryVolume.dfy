/** The directory operations of kernel/fat.cpp on the clusters of a volume. */
module FatDirectoryVolume {
  import opened Division
  import opened FatChains
  import opened FatFile
  import opened FatDirectory
  import FatVolume

  /** The listing around cluster q of a directory: q * n entries in front of it. */
  lemma AroundCluster(entries: seq<seq<DirEntry>>, cs: seq<nat>, n: nat, q: nat)
    requires forall j | 0 <= j < |cs| :: cs[j] < |entries|
    requires forall c | 0 <= c < |entries| :: |entries[c]| == n
    requires q < |cs|
    ensures |Flat(entries, cs[..q])| == q * n
    ensures Flat(entries, cs) == Flat(entries, cs[..q]) + entries[cs[q]] + Flat(entries, cs[q + 1..])
  {
    FlatLength(entries, cs[..q], n);
    FlatAppend(entries, cs[..q + 1], cs[q + 1..]);
    assert cs == cs[..q + 1] + cs[q + 1..];
    FlatAt(entries, cs, q);
  }

  lemma InMiddle(front: seq<DirEntry>, sec: seq<DirEntry>, tail: seq<DirEntry>, i: nat, e: DirEntry)
    requires i < |sec|
    ensures (front + sec + tail)[|front| + i] == sec[i]
    ensures (front + sec + tail)[|front| + i := e] == front + sec[i := e] + tail
  {
  }

  /** Entry number q * n + i of a chain of clusters of n entries each is entry i of its cluster q. */
  lemma EntryOfCluster(entries: seq<seq<DirEntry>>, cs: seq<nat>, n: nat, q: nat, i: nat)
    requires forall j | 0 <= j < |cs| :: cs[j] < |entries|
    requires forall c | 0 <= c < |entries| :: |entries[c]| == n
    requires q < |cs| && i < n
    ensures q * n + i < |cs| * n == |Flat(entries, cs)|
    ensures Flat(entries, cs)[q * n + i] == entries[cs[q]][i]
  {
    FlatLength(entries, cs, n);
    AroundCluster(entries, cs, n, q);
    InMiddle(Flat(entries, cs[..q]), entries[cs[q]], Flat(entries, cs[q + 1..]), i, entries[cs[q]][i]);
  }

  /** Writing entry i of cluster q of a chain is writing entry number q * n + i of its listing. */
  lemma EntryWritten(entries: seq<seq<DirEntry>>, cs: seq<nat>, n: nat, q: nat, i: nat, e: DirEntry)
    requires forall j | 0 <= j < |cs| :: cs[j] < |entries|
    requires forall c | 0 <= c < |entries| :: |entries[c]| == n
    requires q < |cs| && i < n && forall j | 0 <= j < |cs| && j != q :: cs[j] != cs[q]
    ensures q * n + i < |Flat(entries, cs)|
    ensures Flat(entries[cs[q] := entries[cs[q]][i := e]], cs) == Flat(entries, cs)[q * n + i := e]
  {
    var entries' := entries[cs[q] := entries[cs[q]][i := e]];
    AroundCluster(entries, cs, n, q);
    AroundCluster(entries', cs, n, q);
    FlatKept(entries, entries', cs[..q]);
    FlatKept(entries, entries', cs[q + 1..]);
    hide Flat;
    InMiddle(Flat(entries, cs[..q]), entries[cs[q]], Flat(entries, cs[q + 1..]), i, e);
  }

  /** NameIsEqual: compares the name of an entry with the 8.3 form of a path element. */
  method NameIsEqual(entry: DirEntry, name: seq<char>) returns (equal: bool)
    ensures equal <==> entry.name == Name83(name)
  {
    var name83 := new char[NAME_LENGTH](_ => ' ');
    assert name83[..] == Blanks(NAME_LENGTH);
    var i, i83 := 0, 0;
    while i < |name| && i83 < NAME_LENGTH
      invariant i <= |name| && i83 <= NAME_LENGTH
      invariant LookupName(name, i, i83, name83[..]) == Name83(name)
      decreases |name| - i
    {
      if name[i] == '.' {
        i83 := 7;
      } else {
        ghost var before := name83[..];
        name83[i83] := Upper(name[i]);
        assert name83[..] == before[i83 := Upper(name[i])];
      }
      i, i83 := i + 1, i83 + 1;
    }
    return entry.name == name83[..];
  }

  /** SetFileName: the 8.3 form that is stored in a new entry. */
  method SetFileName(name: seq<char>) returns (stored: seq<char>)
    ensures stored == ShortName(name)
  {
    hide LastDot, Upper;
    var bytes := new char[NAME_LENGTH](_ => ' ');
    var dot := LastDot(name, |name|);
    var base := if dot < |name| then name[..dot] else name;
    var i := 0;
    while i < 8 && i < |base|
      invariant i <= 8 && i <= |base|
      invariant forall k | 0 <= k < NAME_LENGTH :: bytes[k] == if k < i then Upper(base[k]) else ' '
    {
      bytes[i] := Upper(base[i]);
      i := i + 1;
    }
    if dot < |name| {
      var ext := name[dot + 1..];
      i := 0;
      while i < 3 && i < |ext|
        invariant i <= 3 && i <= |ext|
        invariant forall k | 0 <= k < 8 :: bytes[k] == if k < |base| then Upper(base[k]) else ' '
        invariant forall k | 8 <= k < NAME_LENGTH :: bytes[k] == if k - 8 < i then Upper(ext[k - 8]) else ' '
      {
        bytes[8 + i] := Upper(ext[i]);
        i := i + 1;
      }
    }
    stored := bytes[..];
  }

  /** NextPathElement: the first element, what follows its slash, and whether there is a slash. */
  method NextPathElement(path: seq<char>) returns (elem: seq<char>, next: seq<char>, postSlash: bool)
    ensures elem == path[..FirstSlash(path)] && (postSlash <==> FirstSlash(path) < |path|)
    ensures next == if postSlash then path[FirstSlash(path) + 1..] else []
  {
    var k := 0;
    while k < |path| && path[k] != '/'
      invariant k <= |path| && forall i | 0 <= i < k :: path[i] != '/'
    {
      k := k + 1;
    }
    FirstSlashIs(path, k);
    elem := path[..k];
    if k == |path| {
      return elem, [], false;
    }
    return elem, path[k + 1..], true;
  }

  /** One element of a search. */
  lemma WalkStep(t: Tree, path: seq<char>, dir: nat, elem: seq<char>, next: seq<char>, postSlash: bool)
    requires elem == path[..FirstSlash(path)] && (postSlash <==> FirstSlash(path) < |path|)
    requires next == if postSlash then path[FirstSlash(path) + 1..] else []
    requires dir in t.dirs
    ensures var i := Scan(t.dirs[dir], Name83(elem), 0);
            Walk(t, path, dir)
            == if i == |t.dirs[dir]| then NotFound(postSlash)
               else if t.dirs[dir][i].attr == DIRECTORY && next != [] then FindFile(t, next, t.dirs[dir][i].first)
               else Found(dir, i, postSlash)
  {
  }

  /** The listings of the directories with these first clusters. */
  ghost function TreeOf(root: nat, heads: set<nat>, chains: map<nat, seq<nat>>, entries: seq<seq<DirEntry>>): Tree
    requires forall d | d in heads :: d in chains && FatVolume.InTable(entries, chains[d])
  {
    FatDirectory.Tree(root,
                      map d | d in heads :: assert FatVolume.InTable(entries, chains[d]); Flat(entries, chains[d]))
  }

  function WithListing(t: Tree, d: nat, listing: seq<DirEntry>): Tree {
    t.(dirs := t.dirs[d := listing])
  }

  lemma WithListingTwice(t: Tree, d: nat, a: seq<DirEntry>, b: seq<DirEntry>)
    ensures WithListing(WithListing(t, d, a), d, b) == WithListing(t, d, b)
    ensures WithListing(t, d, a).dirs[d] == a
  {
  }

  /** Clearing a cluster that was just added to a directory appends unused entries to that listing only. */
  lemma ClusterAdded(fat: seq<nat>, chains: map<nat, seq<nat>>, entries: seq<seq<DirEntry>>, n: nat, d: nat)
    requires Chains(fat, chains) && d in chains && |entries| == |fat| && 1 <= |FreeFrom(fat, FIRST_CLUSTER)|
    ensures LowestFree(fat, 1)[0] < |fat|
    ensures var added := LowestFree(fat, 1)[0];
            var entries' := entries[added := seq(n, _ => UNUSED)];
            && FatVolume.InTable(entries, chains[d]) && FatVolume.InTable(entries', chains[d] + [added])
            && Flat(entries', chains[d] + [added]) == Flat(entries, chains[d]) + seq(n, _ => UNUSED)
            && forall g | g in chains ::
                 FatVolume.InTable(entries, chains[g]) && Flat(entries', chains[g]) == Flat(entries, chains[g])
  {
    LowestFreeFacts(fat, 1);
    var added := LowestFree(fat, 1)[0];
    var entries' := entries[added := seq(n, _ => UNUSED)];
    forall g | g in chains
      ensures FatVolume.InTable(entries, chains[g]) && Flat(entries', chains[g]) == Flat(entries, chains[g])
    {
      assert IsChain(fat, chains[g]);
      forall i | 0 <= i < |chains[g]|
        ensures chains[g][i] != added
      {
        FreeIsInNoChain(fat, chains, g, chains[g][i]);
      }
      FlatKept(entries, entries', chains[g]);
    }
    var cs := chains[d];
    assert (cs + [added])[..|cs|] == cs;
  }

  /** Writing one cluster of a directory leaves the other listings alone. */
  lemma OthersKept(fat: seq<nat>, chains: map<nat, seq<nat>>, entries: seq<seq<DirEntry>>, d: nat, c: nat,
                   sec: seq<DirEntry>, g: nat)
    requires Chains(fat, chains) && d in chains && g in chains && g != d && c in chains[d] && |entries| == |fat|
    ensures c < |fat|
    ensures FatVolume.InTable(entries, chains[g]) && Flat(entries[c := sec], chains[g]) == Flat(entries, chains[g])
  {
    FreeIsInNoChain(fat, chains, d, c);
    assert IsChain(fat, chains[g]);
    forall i | 0 <= i < |chains[g]|
      ensures chains[g][i] != c
    {
      assert chains[g][i] in chains[g];
    }
    FlatKept(entries, entries[c := sec], chains[g]);
  }

  /** The tree after a cleared cluster was added to directory d. */
  lemma GrownTree(fat: seq<nat>, root: nat, heads: set<nat>, chains: map<nat, seq<nat>>, entries: seq<seq<DirEntry>>,
                  n: nat, d: nat)
    requires Chains(fat, chains) && heads <= chains.Keys && d in heads && |entries| == |fat|
    requires 1 <= |FreeFrom(fat, FIRST_CLUSTER)|
    requires forall g | g in heads :: FatVolume.InTable(entries, chains[g])
    ensures LowestFree(fat, 1)[0] < |fat|
    ensures var added := LowestFree(fat, 1)[0];
            var entries', chains' := entries[added := seq(n, _ => UNUSED)], chains[d := chains[d] + [added]];
            && (forall g | g in heads :: FatVolume.InTable(entries', chains'[g]))
            && TreeOf(root, heads, chains', entries')
               == WithListing(TreeOf(root, heads, chains, entries), d, Flat(entries, chains[d]) + seq(n, _ => UNUSED))
  {
    hide Chains, Flat;
    ClusterAdded(fat, chains, entries, n, d);
  }

  ghost predicate AllNamed(entries: seq<seq<DirEntry>>, n: nat) {
    forall c | 0 <= c < |entries| :: |entries[c]| == n && Named(entries[c])
  }

  /** The volume that grew by one cleared cluster. */
  lemma GrownVolume(fat: seq<nat>, heads: set<nat>, chains: map<nat, seq<nat>>, entries: seq<seq<DirEntry>>, n: nat,
                    d: nat)
    requires Chains(fat, chains) && heads <= chains.Keys && d in heads && AllNamed(entries, n) && |entries| == |fat|
    requires 1 <= |FreeFrom(fat, FIRST_CLUSTER)|
    ensures LowestFree(fat, 1)[0] < |fat| && Last(chains[d]) < |fat|
    ensures var added := LowestFree(fat, 1)[0];
            && Chains(Extended(fat, Last(chains[d]), 1), chains[d := chains[d] + [added]])
            && heads <= chains[d := chains[d] + [added]].Keys
            && AllNamed(entries[added := seq(n, _ => UNUSED)], n)
  {
    hide Chains;
    LowestFreeFacts(fat, 1);
    ExtendKeepsChains(fat, chains, d, 1);
    assert LowestFree(fat, 1) == [LowestFree(fat, 1)[0]];
  }

  /** The tree after entry i of cluster q of directory d was written. */
  lemma WrittenTree(fat: seq<nat>, root: nat, heads: set<nat>, chains: map<nat, seq<nat>>, entries: seq<seq<DirEntry>>,
                    n: nat, d: nat, q: nat, i: nat, e: DirEntry)
    requires Chains(fat, chains) && heads <= chains.Keys && d in heads && |entries| == |fat|
    requires forall c | 0 <= c < |entries| :: |entries[c]| == n
    requires forall g | g in heads :: FatVolume.InTable(entries, chains[g])
    requires q < |chains[d]| && i < n
    ensures q * n + i < |Flat(entries, chains[d])|
    ensures var c := chains[d][q];
            var entries' := entries[c := entries[c][i := e]];
            TreeOf(root, heads, chains, entries')
            == WithListing(TreeOf(root, heads, chains, entries), d, Flat(entries, chains[d])[q * n + i := e])
  {
    hide IsChain, Last;
    var cs, c := chains[d], chains[d][q];
    forall j | 0 <= j < |cs| && j != q
      ensures cs[j] != c
    {
      if j < q {
        ChainIsAcyclic(fat, cs, j, q);
      } else {
        ChainIsAcyclic(fat, cs, q, j);
      }
    }
    EntryWritten(entries, cs, n, q, i, e);
    forall g | g in heads && g != d
      ensures Flat(entries[c := entries[c][i := e]], chains[g]) == Flat(entries, chains[g])
    {
      OthersKept(fat, chains, entries, d, c, entries[c][i := e], g);
    }
  }

  class Directories {
    const volume: FatVolume.Volume
    const entries: array<seq<DirEntry>>
    const entriesPerCluster: nat
    const rootCluster: nat
    ghost var chains: map<nat, seq<nat>>
    ghost const heads: set<nat>

    /** heads are the first clusters of directories, chains all chains of the volume. */
    ghost predicate Valid()
      reads this, volume.fat, entries
    {
      && Chains(volume.fat[..], chains)
      && heads <= chains.Keys
      && rootCluster in heads
      && entriesPerCluster > 0
      && entries.Length == volume.fat.Length
      && AllNamed(entries[..], entriesPerCluster)
    }

    constructor (volume: FatVolume.Volume, entries: array<seq<DirEntry>>, entriesPerCluster: nat, rootCluster: nat,
                 ghost chains: map<nat, seq<nat>>, ghost heads: set<nat>)
      requires Chains(volume.fat[..], chains) && heads <= chains.Keys && rootCluster in heads && entriesPerCluster > 0
      requires entries.Length == volume.fat.Length
      requires forall c | 0 <= c < entries.Length :: |entries[c]| == entriesPerCluster && Named(entries[c])
      ensures Valid()
      ensures this.volume == volume && this.entries == entries && this.entriesPerCluster == entriesPerCluster
      ensures this.rootCluster == rootCluster && this.chains == chains && this.heads == heads
    {
      this.volume, this.entries, this.entriesPerCluster := volume, entries, entriesPerCluster;
      this.rootCluster, this.chains, this.heads := rootCluster, chains, heads;
    }

    lemma InTable(d: nat)
      requires Valid() && d in heads
      ensures FatVolume.InTable(entries[..], chains[d])
      ensures IsChain(volume.fat[..], chains[d]) && chains[d][0] == d && d != 0
    {
    }

    ghost function Listing(d: nat): seq<DirEntry>
      requires Valid() && d in heads
      reads this, volume.fat, entries
    {
      InTable(d);
      Flat(entries[..], chains[d])
    }

    /** The directories of the volume as a tree of listings. */
    ghost function Tree(): Tree
      requires Valid()
      reads this, volume.fat, entries
    {
      TreeOf(rootCluster, heads, chains, entries[..])
    }

    /** A pointer into a cluster and an index in a listing mean the same entry. */
    ghost predicate Points(d: nat, index: nat, cluster: nat, i: nat)
      requires Valid() && d in heads
      reads this, volume.fat, entries
    {
      && i < entriesPerCluster
      && exists q ::
           && 0 <= q < |chains[d]|
           && chains[d][q] == cluster
           && index == q * entriesPerCluster + i
    }

    /** These results of FindFile are what the search of the tree gives. */
    ghost predicate Located(r: Lookup, found: bool, cluster: nat, i: nat, postSlash: bool)
      requires Valid()
      reads this, volume.fat, entries
    {
      if found then r.Found? && r.dir in heads && Points(r.dir, r.index, cluster, i) && postSlash == r.postSlash
      else r == NotFound(postSlash)
    }

    /** FindFile finds the entry that the search of the tree finds. */
    method FindFile(path: seq<char>, directoryCluster: nat) returns (found: bool, cluster: nat, i: nat, postSlash: bool)
      requires Valid() && FatDirectory.FindFile(Tree(), path, directoryCluster) != Stray
      ensures Located(FatDirectory.FindFile(Tree(), path, directoryCluster), found, cluster, i, postSlash)
      decreases |path|, 1
    {
      var dir, rest := directoryCluster, path;
      if rest != [] && rest[0] == '/' {
        dir, rest := rootCluster, rest[1..];
      } else if dir == 0 {
        dir := rootCluster;
      }
      assert FatDirectory.FindFile(Tree(), path, directoryCluster) == Walk(Tree(), rest, dir);
      hide Walk, FatDirectory.FindFile;
      found, cluster, i, postSlash := FindFrom(rest, dir);
    }

    /** The search from a directory on, once it is known where to start. */
    method FindFrom(path: seq<char>, dir: nat) returns (found: bool, cluster: nat, i: nat, postSlash: bool)
      requires Valid() && Walk(Tree(), path, dir) != Stray
      ensures Located(Walk(Tree(), path, dir), found, cluster, i, postSlash)
      decreases |path|, 0
    {
      ghost var t := Tree();
      assert dir in t.dirs && t.dirs[dir] == Listing(dir);
      hide Walk, FatDirectory.FindFile, Scan, Points, Valid, FirstSlash, Name83, Listing, Tree;
      var elem, next, pathLast;
      elem, next, postSlash := NextPathElement(path);
      pathLast := next == [];
      WalkStep(t, path, dir, elem, next, postSlash);
      found, cluster, i := FindElement(dir, elem);
      if found {
        var e := entries[cluster][i];
        if e.attr == DIRECTORY && !pathLast {
          found, cluster, i, postSlash := FindFile(next, e.first);
        }
      }
    }

    /** The loop over the clusters of a directory and their entries. */
    method FindElement(dir: nat, elem: seq<char>) returns (found: bool, cluster: nat, i: nat)
      requires Valid() && dir in heads
      ensures found <==> Scan(Listing(dir), Name83(elem), 0) < |Listing(dir)|
      ensures found ==> cluster < entries.Length && i < |entries[cluster]|
      ensures found ==> Points(dir, Scan(Listing(dir), Name83(elem), 0), cluster, i)
      ensures found ==> entries[cluster][i] == Listing(dir)[Scan(Listing(dir), Name83(elem), 0)]
    {
      hide Last;
      InTable(dir);
      ghost var cs, listing, n, name83, q := chains[dir], Listing(dir), entriesPerCluster, Name83(elem), 0;
      FlatLength(entries[..], cs, n);
      cluster := dir;
      while cluster != END_OF_CLUSTERCHAIN
        invariant q <= |cs| && q * n <= |listing| && cluster == FatVolume.ClusterAt(cs, q)
        invariant Scan(listing, name83, 0) == Scan(listing, name83, q * n)
        decreases |cs| - q
      {
        MulLe(q + 1, |cs|, n);
        assert (q + 1) * n == q * n + n;
        i := 0;
        while i < entriesPerCluster
          invariant i <= n && Scan(listing, name83, 0) == Scan(listing, name83, q * n + i)
        {
          EntryOfCluster(entries[..], cs, n, q, i);
          if entries[cluster][i].Zero() {
            return false, 0, 0;
          }
          var equal := NameIsEqual(entries[cluster][i], elem);
          if equal {
            return true, cluster, i;
          }
          i := i + 1;
        }
        FatVolume.NextInChain(volume.fat[..], cs, q);
        cluster := volume.NextCluster(cluster);
        q := q + 1;
      }
      return false, 0, 0;
    }

    /** The first slot of a directory that is unused or deleted, or else its last cluster. */
    method FindFreeSlot(dirCluster: nat) returns (found: bool, cluster: nat, i: nat)
      requires Valid() && dirCluster in heads
      ensures found <==> FreeSlot(Listing(dirCluster), 0) < |Listing(dirCluster)|
      ensures found ==> Points(dirCluster, FreeSlot(Listing(dirCluster), 0), cluster, i)
      ensures !found ==> cluster == Last(chains[dirCluster])
    {
      InTable(dirCluster);
      ghost var cs, listing, n, q := chains[dirCluster], Listing(dirCluster), entriesPerCluster, 0;
      FlatLength(entries[..], cs, n);
      cluster := dirCluster;
      while true
        invariant q < |cs| && q * n <= |listing| && cluster == cs[q]
        invariant FreeSlot(listing, 0) == FreeSlot(listing, q * n)
        decreases |cs| - q
      {
        MulLe(q + 1, |cs|, n);
        assert (q + 1) * n == q * n + n;
        i := 0;
        while i < entriesPerCluster
          invariant i <= n && FreeSlot(listing, 0) == FreeSlot(listing, q * n + i)
        {
          EntryOfCluster(entries[..], cs, n, q, i);
          if entries[cluster][i].Free() {
            return true, cluster, i;
          }
          i := i + 1;
        }
        FatVolume.NextInChain(volume.fat[..], cs, q);
        var next := volume.NextCluster(cluster);
        if next == END_OF_CLUSTERCHAIN {
          return false, cluster, 0;
        }
        cluster := next;
        q := q + 1;
      }
    }

    /** A free slot of a directory, which grows by a cleared cluster if it has none. */
    method AllocateEntry(dirCluster: nat) returns (ok: bool, cluster: nat, i: nat)
      requires Valid() && dirCluster in heads
      modifies volume.fat, entries, `chains
      ensures ok <==> FreeSlot(old(Listing(dirCluster)), 0) < |old(Listing(dirCluster))|
                      || 1 <= |FreeFrom(old(volume.fat[..]), FIRST_CLUSTER)|
      ensures ok ==> Valid()
      ensures ok ==> Tree() == WithListing(old(Tree()), dirCluster,
                                           WithFreeSlot(old(Listing(dirCluster)), entriesPerCluster))
      ensures ok ==> Points(dirCluster, FreeSlot(old(Listing(dirCluster)), 0), cluster, i)
    {
      ok, cluster, i := FindFreeSlot(dirCluster);
      if ok {
        assert Tree() == WithListing(Tree(), dirCluster, Listing(dirCluster));
        return;
      }
      ghost var fat, before, cs, n := volume.fat[..], entries[..], chains[dirCluster], entriesPerCluster;
      InTable(dirCluster);
      FlatLength(before, cs, n);
      i := 0;
      ok, cluster := volume.ExtendCluster(cluster, 1, [cluster]);
      if ok {
        GrownVolume(fat, heads, chains, before, n, dirCluster);
        GrownTree(fat, rootCluster, heads, chains, before, n, dirCluster);
        assert LowestFree(fat, 1) == [cluster];
        entries[cluster] := seq(entriesPerCluster, _ => UNUSED);
        assert entries[..] == before[cluster := seq(n, _ => UNUSED)];
        chains := chains[dirCluster := cs + [cluster]];
        assert chains[dirCluster][|cs|] == cluster;
      }
    }

    /** CreateFile adds the file that the creation in the tree adds, and fails when that does. */
    method CreateFile(path: seq<char>) returns (error: Error, cluster: nat, i: nat)
      requires Valid()
      requires FatDirectory.CreateFile(Tree(), entriesPerCluster, path,
                                       1 <= |FreeFrom(volume.fat[..], FIRST_CLUSTER)|) != Elsewhere
      modifies volume.fat, entries, `chains
      ensures var r := FatDirectory.CreateFile(old(Tree()), entriesPerCluster, path,
                                               1 <= |FreeFrom(old(volume.fat[..]), FIRST_CLUSTER)|);
              match error
              case Success => r.Created? && Valid() && Tree() == r.tree && r.dir in heads
                  && Points(r.dir, r.index, cluster, i)
              case IsADirectory => r == IsDirectory
              case NoSuchParent => r == NoSuchDirectory
              case NoEnoughMemory => r == Creation.NoCluster
      ensures error.IsADirectory? || error.NoSuchParent? ==>
                volume.fat[..] == old(volume.fat[..]) && entries[..] == old(entries[..]) && chains == old(chains)
    {
      hide IsChain, FatDirectory.FindFile, Points, LastSlash, FreeSlot, WithFile;
      var parentDirCluster, filename := rootCluster, path;
      ghost var t, canGrow := Tree(), 1 <= |FreeFrom(volume.fat[..], FIRST_CLUSTER)|;
      cluster, i := 0, 0;
      var slash := LastSlash(path, |path|);
      if slash < |path| {
        filename := path[slash + 1..];
        if filename == [] {
          return IsADirectory, 0, 0;
        }
        var parentDirName := path[..slash];
        if parentDirName != [] {
          var found;
          found, parentDirCluster := FirstClusterOf(parentDirName);
          if !found {
            return NoSuchParent, 0, 0;
          }
        }
      }
      assert CreateIn(t, entriesPerCluster, parentDirCluster, filename, canGrow)
          == FatDirectory.CreateFile(t, entriesPerCluster, path, canGrow);
      hide FatDirectory.CreateFile, Points, WithFile, LastSlash;
      assert t.dirs[parentDirCluster] == Listing(parentDirCluster);
      var ok;
      ok, cluster, i := CreateEntry(parentDirCluster, filename);
      error := if ok then Success else NoEnoughMemory;
    }

    /** The first cluster that the entry of a path names. */
    method FirstClusterOf(path: seq<char>) returns (found: bool, first: nat)
      requires Valid() && FatDirectory.FindFile(Tree(), path, 0) != Stray
      ensures var r := FatDirectory.FindFile(Tree(), path, 0);
              if found then r.Found? && first == EntryAt(Tree(), r).first else r.NotFound?
    {
      var cluster, i, postSlash;
      found, cluster, i, postSlash := FindFile(path, 0);
      if found {
        ghost var r := FatDirectory.FindFile(Tree(), path, 0);
        PointsToEntry(r.dir, r.index, cluster, i);
        first := entries[cluster][i].first;
      } else {
        first := 0;
      }
    }

    lemma ListingInTree(d: nat)
      requires Valid() && d in heads
      ensures d in Tree().dirs && Tree().dirs[d] == Listing(d)
    {
    }

    lemma PointsToEntry(d: nat, index: nat, cluster: nat, i: nat)
      requires Valid() && d in heads && Points(d, index, cluster, i)
      ensures cluster < entries.Length && i < |entries[cluster]| && index < |Listing(d)|
      ensures entries[cluster][i] == Listing(d)[index]
    {
      var q :| 0 <= q < |chains[d]| && chains[d][q] == cluster && index == q * entriesPerCluster + i;
      InTable(d);
      EntryOfCluster(entries[..], chains[d], entriesPerCluster, q, i);
    }

    /** Takes a slot of a directory and gives it a name and size 0. */
    method CreateEntry(dir: nat, filename: seq<char>) returns (ok: bool, cluster: nat, i: nat)
      requires Valid() && dir in heads
      modifies volume.fat, entries, `chains
      ensures ok <==>
                || FreeSlot(old(Listing(dir)), 0) < |old(Listing(dir))|
                || 1 <= |FreeFrom(old(volume.fat[..]), FIRST_CLUSTER)|
      ensures ok ==> Valid() && Points(dir, FreeSlot(old(Listing(dir)), 0), cluster, i)
      ensures ok ==> Tree() == WithListing(old(Tree()), dir, WithFile(old(Listing(dir)), entriesPerCluster, filename))
    {
      ok, cluster, i := AllocateEntry(dir);
      if ok {
        ListingInTree(dir);
        WithListingTwice(old(Tree()), dir, Listing(dir), WithFile(old(Listing(dir)), entriesPerCluster, filename));
        hide Tree, Listing, Valid, Points, FreeSlot, WithFreeSlot, FreeFrom, ShortName, WithListing;
        NameEntry(dir, FreeSlot(old(Listing(dir)), 0), cluster, i, filename);
      }
    }

    /** Sets the name and size of an entry. */
    method NameEntry(ghost dir: nat, ghost index: nat, cluster: nat, i: nat, filename: seq<char>)
      requires Valid() && dir in heads && Points(dir, index, cluster, i)
      modifies entries
      ensures Valid() && Points(dir, index, cluster, i) && index < |old(Listing(dir))|
      ensures Tree() == WithListing(old(Tree()), dir,
                old(Listing(dir))[index := old(Listing(dir))[index].(name := ShortName(filename), size := 0)])
    {
      hide Flat, WithListing;
      PointsToEntry(dir, index, cluster, i);
      InTable(dir);
      var stored := SetFileName(filename);
      ghost var q :| 0 <= q < |chains[dir]| && chains[dir][q] == cluster && index == q * entriesPerCluster + i;
      ghost var before, e := entries[..], entries[cluster][i].(name := stored, size := 0);
      WrittenTree(volume.fat[..], rootCluster, heads, chains, before, entriesPerCluster, dir, q, i, e);
      entries[cluster] := entries[cluster][i := entries[cluster][i].(name := stored, size := 0)];
      assert entries[..] == before[cluster := before[cluster][i := e]];
    }
  }

  datatype Error = Success | IsADirectory | NoSuchParent | NoEnoughMemory
}
