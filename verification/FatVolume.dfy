/** The volume and file descriptors of kernel/fat.cpp, updated in place. */
module FatVolume {
  import opened Division
  import opened FatChains
  import opened FatFile
  import opened FatSessions

  /** The links from a cluster to the end mark that ends its chain. */
  ghost predicate Leads(fat: seq<nat>, cs: seq<nat>) {
    && |cs| > 0
    && (forall i | 0 <= i < |cs| :: cs[i] < |fat|)
    && (forall i | 0 <= i < |cs| - 1 :: fat[cs[i]] == cs[i + 1] && !IsEndOfClusterchain(fat[cs[i]]))
    && IsEndOfClusterchain(fat[Last(cs)])
  }

  /**
   * The scan of ExtendCluster after done links: what is still free from the candidate on, and linking
   * the rest of the n lowest free clusters to current gives the same table as linking all of them to last.
   */
  ghost predicate Scanning(before: seq<nat>, last: nat, n: nat, fat: seq<nat>, current: nat, candidate: nat,
                           done: nat) {
    var free := FreeFrom(before, FIRST_CLUSTER);
    && |fat| == |before|
    && FIRST_CLUSTER <= candidate <= |fat|
    && current < |fat| && (current < candidate || fat[current] != 0)
    && last < |fat|
    && done <= n
    && done <= |free| && FreeFrom(fat, candidate) == free[done..]
    && (forall i | 0 <= i < |free| :: free[i] < |fat|)
    && (n <= |free| ==>
          && Linked(fat, current, free[done..n]) == Linked(before, last, free[..n])
          && Last([current] + free[done..n]) == Last([last] + free[..n]))
  }

  lemma ScanStart(fat: seq<nat>, last: nat, n: nat)
    requires FIRST_CLUSTER <= |fat| && last < |fat| && fat[last] != 0
    ensures Scanning(fat, last, n, fat, last, FIRST_CLUSTER, 0)
  {
    var free := FreeFrom(fat, FIRST_CLUSTER);
    FreeFromIsExact(fat, FIRST_CLUSTER);
    forall i | 0 <= i < |free|
      ensures free[i] < |fat|
    {
      assert free[i] in free;
    }
    assert n <= |free| ==> free[0..n] == free[..n];
  }

  /** Linking a free candidate. */
  lemma ScanTake(before: seq<nat>, last: nat, n: nat, fat: seq<nat>, current: nat, candidate: nat, done: nat)
    requires Scanning(before, last, n, fat, current, candidate, done)
    requires done < n && candidate < |fat| && fat[candidate] == 0
    ensures Scanning(before, last, n, fat[current := candidate], candidate, candidate + 1, done + 1)
  {
    var free := FreeFrom(before, FIRST_CLUSTER);
    FreeFromIgnores(fat, current, candidate, candidate + 1);
    assert free[done] == candidate;
    assert free[done..][1..] == free[done + 1..];
    if n <= |free| {
      assert free[done..n] == [candidate] + free[done + 1..n];
      assert free[done..n][1..] == free[done + 1..n];
    }
  }

  class Volume {
    const bytesPerCluster: nat
    const fat: array<nat>
    const data: array<seq<Byte>>

    ghost predicate Valid()
      reads fat, data
    {
      WellFormed(bytesPerCluster, Disk())
    }

    ghost function Disk(): Disk
      reads fat, data
    {
      FatFile.Disk(fat[..], data[..])
    }

    constructor (bytesPerCluster: nat, fat: array<nat>, data: array<seq<Byte>>)
      requires WellFormed(bytesPerCluster, FatFile.Disk(fat[..], data[..]))
      ensures this.fat == fat && this.data == data && this.bytesPerCluster == bytesPerCluster
      ensures Valid()
    {
      this.bytesPerCluster := bytesPerCluster;
      this.fat := fat;
      this.data := data;
    }

    method NextCluster(cluster: nat) returns (next: nat)
      requires cluster < fat.Length
      ensures fat[cluster] >= 0x0fff_fff8 ==> next == 0x0fff_ffff
      ensures fat[cluster] < 0x0fff_fff8 ==> next == fat[cluster]
    {
      next := fat[cluster];
      if next >= 0x0fff_fff8 {
        return END_OF_CLUSTERCHAIN;
      }
    }

    /**
     * Walks to the end of the chain and links the n lowest free clusters to it; fails exactly if the
     * scan for them runs past the table.
     */
    method ExtendCluster(eocCluster: nat, n: nat, ghost cs: seq<nat>) returns (ok: bool, current: nat)
      requires FIRST_CLUSTER <= fat.Length
      requires Leads(fat[..], cs) && cs[0] == eocCluster
      modifies fat
      ensures ok <==> n <= |FreeFrom(old(fat[..]), FIRST_CLUSTER)|
      ensures ok ==> fat[..] == Extended(old(fat[..]), Last(cs), n)
      ensures ok ==> current == Last([Last(cs)] + LowestFree(old(fat[..]), n))
    {
      ghost var k := 0;
      current := eocCluster;
      while !IsEndOfClusterchain(fat[current])
        invariant k < |cs| && current == cs[k]
        decreases |cs| - k
      {
        current := fat[current];
        k := k + 1;
      }
      ghost var before := fat[..];
      ScanStart(before, current, n);
      var numAllocated, candidate := 0, FIRST_CLUSTER;
      while numAllocated < n
        invariant Scanning(before, Last(cs), n, fat[..], current, candidate, numAllocated)
        decreases fat.Length - candidate
      {
        if candidate == fat.Length {
          return false, current;
        }
        if fat[candidate] != 0 {
          candidate := candidate + 1;
          continue;
        }
        ScanTake(before, Last(cs), n, fat[..], current, candidate, numAllocated);
        fat[current] := candidate;
        current := candidate;
        numAllocated := numAllocated + 1;
        candidate := candidate + 1;
      }
      fat[current] := END_OF_CLUSTERCHAIN;
      return true, current;
    }

    /** Makes one new chain of the max(1, n) lowest free clusters; fails exactly if there are fewer. */
    method AllocateClusterchain(n: nat) returns (ok: bool, firstCluster: nat)
      requires FIRST_CLUSTER <= fat.Length
      modifies fat
      ensures ok <==> Taken(n) <= |FreeFrom(old(fat[..]), FIRST_CLUSTER)|
      ensures ok ==> fat[..] == Allocated(old(fat[..]), n) && firstCluster == LowestFree(old(fat[..]), 1)[0]
    {
      ghost var before := fat[..];
      firstCluster := FIRST_CLUSTER;
      while firstCluster < fat.Length && fat[firstCluster] != 0
        invariant FIRST_CLUSTER <= firstCluster <= fat.Length
        invariant FreeFrom(before, FIRST_CLUSTER) == FreeFrom(before, firstCluster)
      {
        firstCluster := firstCluster + 1;
      }
      if firstCluster == fat.Length {
        return false, 0;
      }
      MarkFirst(before);
      fat[firstCluster] := END_OF_CLUSTERCHAIN;
      ok := true;
      if n > 1 {
        var last;
        ok, last := ExtendCluster(firstCluster, n - 1, [firstCluster]);
      }
    }

    /**
     * The loop of FileDescriptor.Write: copies len bytes (or more: the part copied to a cluster is
     * not cut at what is left of the buffer) to the chain from the writer's cluster on.
     */
    method WriteBytes(wrCluster: nat, wrClusterOff: nat, buf: nat -> Byte, len: nat)
      returns (ok: bool, cluster: nat, clusterOff: nat, total: nat)
      requires Valid() && wrCluster < fat.Length && wrClusterOff <= bytesPerCluster
      modifies fat, data
      ensures var r := WriteLoop(bytesPerCluster, old(Disk()), wrCluster, wrClusterOff, buf, len, 0);
              if ok then r == Written(Disk(), cluster, clusterOff, total) else r == PastTable
    {
      ghost var result := WriteLoop(bytesPerCluster, Disk(), wrCluster, wrClusterOff, buf, len, 0);
      hide WriteLoop;
      ok, cluster, clusterOff, total := true, wrCluster, wrClusterOff, 0;
      while total < len
        invariant Valid() && cluster < fat.Length && clusterOff <= bytesPerCluster
        invariant ok && WriteLoop(bytesPerCluster, Disk(), cluster, clusterOff, buf, len, total) == result
        decreases if total < len then len - total else 0
      {
        ok, cluster, clusterOff, total := WriteSector(cluster, clusterOff, buf, len, total);
        if !ok {
          return;
        }
      }
      LoopEnd(bytesPerCluster, Disk(), cluster, clusterOff, buf, len, total);
    }

    /** One pass of that loop: at most one cluster is written. */
    method WriteSector(wrCluster: nat, wrClusterOff: nat, buf: nat -> Byte, len: nat, written: nat)
      returns (ok: bool, cluster: nat, clusterOff: nat, total: nat)
      requires Valid() && wrCluster < fat.Length && wrClusterOff <= bytesPerCluster && written < len
      modifies fat, data
      ensures ok ==> Valid() && cluster < fat.Length && clusterOff <= bytesPerCluster && total > written
      ensures WriteLoop(bytesPerCluster, old(Disk()), wrCluster, wrClusterOff, buf, len, written)
           == if ok then WriteLoop(bytesPerCluster, Disk(), cluster, clusterOff, buf, len, total) else PastTable
    {
      ghost var d := Disk();
      hide RollOver, ValidFat, WriteLoop;
      total := written;
      ok, cluster, clusterOff := NextSector(wrCluster, wrClusterOff, len - total);
      if !ok {
        LoopFails(bytesPerCluster, d, wrCluster, wrClusterOff, buf, len, total);
        return;
      }
      var n := Min(len, bytesPerCluster - clusterOff);
      LoopStep(bytesPerCluster, d, wrCluster, wrClusterOff, fat[..], cluster, clusterOff, buf, len, total);
      hide Patched;
      data[cluster] := Patched(data[cluster], clusterOff, buf, total, n);
      assert Disk() == FatFile.Disk(fat[..], d.data[cluster := Patched(d.data[cluster], clusterOff, buf, total, n)]);
      total := total + n;
      clusterOff := clusterOff + n;
    }

    /** Leaves a full cluster for the next one of the chain, which is extended at its end. */
    method NextSector(wrCluster: nat, wrClusterOff: nat, left: nat) returns (ok: bool, cluster: nat, clusterOff: nat)
      requires Valid() && wrCluster < fat.Length && wrClusterOff <= bytesPerCluster && left > 0
      modifies fat
      ensures var r := RollOver(bytesPerCluster, old(fat[..]), wrCluster, wrClusterOff, left);
              if ok then r == Rolled(fat[..], cluster, clusterOff) else r == NoCluster
    {
      ok, cluster, clusterOff := true, wrCluster, wrClusterOff;
      if wrClusterOff == bytesPerCluster {
        var next := NextCluster(wrCluster);
        if next == END_OF_CLUSTERCHAIN {
          NumClusterStep(left, bytesPerCluster);
          ok, cluster := ExtendCluster(wrCluster, NumCluster(left, bytesPerCluster), [wrCluster]);
        } else {
          ok, cluster := next < fat.Length, next;
        }
        clusterOff := 0;
      }
    }

    /** The loop of FileDescriptor.Read: copies toRead bytes from byte start of a chain on. */
    method CopyBytes(toRead: nat, rdCluster: nat, rdClusterOff: nat, ghost cs: seq<nat>, ghost start: nat,
                     ghost k0: nat)
      returns (buf: seq<Byte>, cluster: nat, clusterOff: nat, ghost k: nat)
      requires Valid() && (cs != [] ==> IsChain(fat[..], cs))
      requires Midway(bytesPerCluster, data[..], cs, start, Cursor(start, rdCluster, rdClusterOff), k0, [])
      requires start + toRead <= |Flat(data[..], cs)|
      ensures |buf| == toRead
      ensures Midway(bytesPerCluster, data[..], cs, start, Cursor(start + toRead, cluster, clusterOff), k, buf)
    {
      var total := 0;
      buf, cluster, clusterOff, k := [], rdCluster, rdClusterOff, k0;
      hide Midway, IsChain, Flat;
      while total < toRead
        invariant total == |buf| <= toRead
        invariant Midway(bytesPerCluster, data[..], cs, start, Cursor(start + total, cluster, clusterOff), k, buf)
      {
        ghost var at := Cursor(start + total, cluster, clusterOff);
        MidwayInside(bytesPerCluster, data[..], cs, start, at, k, buf);
        NextInChain(fat[..], cs, k);
        var n := Min(toRead - total, bytesPerCluster - clusterOff);
        MidwayStep(bytesPerCluster, fat[..], data[..], cs, start, at, k, buf, n);
        buf := buf + data[cluster][clusterOff..clusterOff + n];
        total := total + n;
        clusterOff := clusterOff + n;
        if clusterOff == bytesPerCluster {
          cluster := NextCluster(cluster);
          clusterOff := 0;
          k := k + 1;
        }
      }
    }

    /** Copies a file from its first cluster on into a buffer of len bytes, until either ends. */
    method LoadFile(len: nat, firstCluster: nat, ghost cs: seq<nat>) returns (buf: seq<Byte>)
      requires Valid()
      requires if firstCluster == 0 then cs == [] else IsChain(fat[..], cs) && cs[0] == firstCluster
      ensures InTable(data[..], cs)
      ensures buf == Flat(data[..], cs)[..Min(len, |Flat(data[..], cs)|)]
    {
      var cluster := firstCluster;
      buf := [];
      ghost var k := 0;
      while cluster != 0 && cluster != END_OF_CLUSTERCHAIN
        invariant k <= |cs|
        invariant cluster == if k < |cs| then cs[k] else if cs == [] then 0 else END_OF_CLUSTERCHAIN
        invariant buf == Flat(data[..], cs[..k]) && |buf| <= len
        decreases |cs| - k
      {
        FlatAt(data[..], cs, k);
        if bytesPerCluster >= len - |buf| {
          buf := buf + data[cluster][..len - |buf|];
          return;
        }
        buf := buf + data[cluster];
        cluster := NextCluster(cluster);
        k := k + 1;
      }
      assert cs[..k] == cs;
    }
  }

  /** All these clusters have contents. */
  ghost predicate InTable<T>(data: seq<seq<T>>, cs: seq<nat>) {
    forall i | 0 <= i < |cs| :: cs[i] < |data|
  }

  /** The fields of a directory entry that reading and writing use. */
  class DirectoryEntry {
    var firstClusterLow: nat
    var firstClusterHigh: nat
    var fileSize: nat

    ghost predicate Valid()
      reads this
    {
      firstClusterLow < 0x1_0000 && firstClusterHigh < 0x1_0000 && fileSize < 0x1_0000_0000
    }

    ghost function Entry(): Entry
      reads this
    {
      FatSessions.Entry(FirstCluster(), fileSize)
    }

    /** The two halves have no bit in common once the high one is shifted, so adding them is or-ing them. */
    function FirstCluster(): nat
      reads this
    {
      firstClusterLow + firstClusterHigh * 0x1_0000
    }

    constructor ()
      ensures Valid() && Entry() == FatSessions.Entry(0, 0)
    {
      firstClusterLow, firstClusterHigh, fileSize := 0, 0, 0;
    }

    method SetFirstCluster(cluster: nat)
      requires Valid() && cluster < 0x1_0000_0000
      modifies this
      ensures Valid() && Entry() == FatSessions.Entry(cluster, old(fileSize))
      ensures firstClusterLow < 0x1_0000 && firstClusterHigh < 0x1_0000
      ensures cluster == 0x1_0000 * firstClusterHigh + firstClusterLow
    {
      firstClusterLow := cluster % 0x1_0000;
      firstClusterHigh := cluster / 0x1_0000 % 0x1_0000;
    }
  }

  /** A read cursor in front of byte c.off of a chain, in its cluster k. */
  ghost predicate ReaderAt(bpc: nat, data: seq<seq<Byte>>, cs: seq<nat>, size: nat, c: Cursor, k: nat) {
    && InTable(data, cs)
    && c.off <= size <= |Flat(data, cs)|
    && k <= |cs|
    && c.clusterOff < bpc
    && c.off == |Flat(data, cs[..k])| + c.clusterOff
    && ((c == FRESH && k == 0) || c.cluster == ClusterAt(cs, k))
  }

  /** The bytes behind the cursor inside its cluster are the next bytes of the chain. */
  lemma NextBytes(data: seq<seq<Byte>>, cs: seq<nat>, k: nat, off: nat, n: nat)
    requires InTable(data, cs) && k < |cs| && off + n <= |data[cs[k]]|
    ensures var p := |Flat(data, cs[..k])| + off;
            p + n <= |Flat(data, cs)| && data[cs[k]][off..off + n] == Flat(data, cs)[p..p + n]
    ensures |Flat(data, cs[..k + 1])| == |Flat(data, cs[..k])| + |data[cs[k]]|
  {
    FlatAt(data, cs, k);
    var rest :| Flat(data, cs) == Flat(data, cs[..k]) + data[cs[k]] + rest;
    hide Flat;
    SliceOfMiddle(Flat(data, cs[..k]), data[cs[k]], rest, off, n);
  }

  lemma SliceOfMiddle(front: seq<Byte>, sec: seq<Byte>, rest: seq<Byte>, off: nat, n: nat)
    requires off + n <= |sec|
    ensures (front + sec + rest)[|front| + off..|front| + off + n] == sec[off..off + n]
  {
  }

  /** The value a cursor's cluster has when it stands in front of cluster k of a chain. */
  function ClusterAt(cs: seq<nat>, k: nat): nat {
    if k < |cs| then cs[k] else if cs == [] then 0 else END_OF_CLUSTERCHAIN
  }

  /** A read that started at byte start has copied the bytes up to the cursor, in cluster k. */
  ghost predicate Midway(bpc: nat, data: seq<seq<Byte>>, cs: seq<nat>, start: nat, c: Cursor, k: nat, buf: seq<Byte>) {
    && InTable(data, cs)
    && k <= |cs|
    && c.clusterOff < bpc
    && c.cluster == ClusterAt(cs, k)
    && c.off == |Flat(data, cs[..k])| + c.clusterOff
    && start <= c.off <= |Flat(data, cs)|
    && buf == Flat(data, cs)[start..c.off]
  }

  lemma MidwayStart(bpc: nat, data: seq<seq<Byte>>, cs: seq<nat>, size: nat, c: Cursor, k: nat, first: nat)
    requires ReaderAt(bpc, data, cs, size, c, k) && first == ClusterAt(cs, 0) && forall i | 0 <= i < |cs| :: cs[i] != 0
    ensures Midway(bpc, data, cs, c.off, Cursor(c.off, if c.cluster == 0 then first else c.cluster, c.clusterOff), k,
                   [])
    ensures size <= |Flat(data, cs)|
  {
    assert k <= |cs| && (k == |cs| ==> cs[..k] == cs);
    UptoNext(data, cs, k);
  }

  lemma UptoNext(data: seq<seq<Byte>>, cs: seq<nat>, k: nat)
    requires InTable(data, cs) && k <= |cs|
    ensures |Flat(data, cs[..k])| <= |Flat(data, cs)|
  {
    FlatAppend(data, cs[..k], cs[k..]);
    assert cs == cs[..k] + cs[k..];
  }

  lemma MidwayInside(bpc: nat, data: seq<seq<Byte>>, cs: seq<nat>, start: nat, c: Cursor, k: nat, buf: seq<Byte>)
    requires Midway(bpc, data, cs, start, c, k, buf) && c.off < |Flat(data, cs)|
    ensures k < |cs| && c.cluster == cs[k] < |data| && c.clusterOff < bpc
  {
    assert cs[..|cs|] == cs;
  }

  lemma MidwayEnd(bpc: nat, data: seq<seq<Byte>>, cs: seq<nat>, size: nat, start: nat, len: nat, c: Cursor, k: nat,
                  buf: seq<Byte>)
    requires Midway(bpc, data, cs, start, c, k, buf)
    requires start <= size <= |Flat(data, cs)| && c.off == start + Min(len, size - start)
    ensures ReaderAt(bpc, data, cs, size, c, k)
    ensures buf == ReadAt(Flat(data, cs)[..size], start, len)
  {
    if cs == [] {
      assert c == FRESH && k == 0;
    }
  }

  lemma NextInChain(fat: seq<nat>, cs: seq<nat>, k: nat)
    requires ValidFat(fat) && IsChain(fat, cs) && k < |cs|
    ensures ClusterAt(cs, k + 1) == if IsEndOfClusterchain(fat[cs[k]]) then END_OF_CLUSTERCHAIN else fat[cs[k]]
  {
    assert k + 1 < |cs| ==> fat[cs[k]] == cs[k + 1];
  }

  /** Copying n bytes of the cluster, and going on to the next one behind its last byte. */
  lemma MidwayStep(bpc: nat, fat: seq<nat>, data: seq<seq<Byte>>, cs: seq<nat>, start: nat, c: Cursor, k: nat,
                   buf: seq<Byte>, n: nat)
    requires Midway(bpc, data, cs, start, c, k, buf) && WellFormed(bpc, FatFile.Disk(fat, data))
    requires k < |cs| && c.clusterOff + n <= bpc
    ensures var buf' := buf + data[cs[k]][c.clusterOff..c.clusterOff + n];
            if c.clusterOff + n == bpc then
              Midway(bpc, data, cs, start, Cursor(c.off + n, ClusterAt(cs, k + 1), 0), k + 1, buf')
            else
              Midway(bpc, data, cs, start, Cursor(c.off + n, c.cluster, c.clusterOff + n), k, buf')
  {
    NextBytes(data, cs, k, c.clusterOff, n);
  }

  lemma LoopEnd(bpc: nat, d: Disk, cluster: nat, off: nat, buf: nat -> Byte, len: nat, total: nat)
    requires WellFormed(bpc, d) && cluster < |d.fat| && off <= bpc && total >= len
    ensures WriteLoop(bpc, d, cluster, off, buf, len, total) == Written(d, cluster, off, total)
  {
  }

  lemma LoopFails(bpc: nat, d: Disk, cluster: nat, off: nat, buf: nat -> Byte, len: nat, total: nat)
    requires WellFormed(bpc, d) && cluster < |d.fat| && off <= bpc && total < len
    requires RollOver(bpc, d.fat, cluster, off, len - total) == NoCluster
    ensures WriteLoop(bpc, d, cluster, off, buf, len, total) == PastTable
  {
  }

  lemma LoopStep(bpc: nat, d: Disk, cluster: nat, off: nat, fat1: seq<nat>, c1: nat, off1: nat, buf: nat -> Byte,
                 len: nat, total: nat)
    requires WellFormed(bpc, d) && cluster < |d.fat| && off <= bpc && total < len
    requires RollOver(bpc, d.fat, cluster, off, len - total) == Rolled(fat1, c1, off1)
    ensures var n := Min(len, bpc - off1);
            var d1 := FatFile.Disk(fat1, d.data[c1 := Patched(d.data[c1], off1, buf, total, n)]);
            && WellFormed(bpc, d1)
            && WriteLoop(bpc, d, cluster, off, buf, len, total) == WriteLoop(bpc, d1, c1, off1 + n, buf, len, total + n)
  {
    hide Patched;
  }

  class FileDescriptor {
    const volume: Volume
    const fatEntry: DirectoryEntry

    var rdOff: nat
    var rdCluster: nat
    var rdClusterOff: nat
    ghost var rdIndex: nat

    var wrOff: nat
    var wrCluster: nat
    var wrClusterOff: nat

    constructor (volume: Volume, fatEntry: DirectoryEntry)
      ensures this.volume == volume && this.fatEntry == fatEntry
      ensures ReadCursor() == FRESH && rdIndex == 0 && WriteCursor() == FRESH
    {
      this.volume, this.fatEntry := volume, fatEntry;
      rdOff, rdCluster, rdClusterOff, rdIndex := 0, 0, 0, 0;
      wrOff, wrCluster, wrClusterOff := 0, 0, 0;
    }

    ghost function ReadCursor(): Cursor
      reads this
    {
      Cursor(rdOff, rdCluster, rdClusterOff)
    }

    ghost function WriteCursor(): Cursor
      reads this
    {
      Cursor(wrOff, wrCluster, wrClusterOff)
    }

    /** cs are the clusters of the file, and they cover its size. */
    ghost predicate Clusters(cs: seq<nat>)
      reads fatEntry, volume.fat, volume.data
    {
      && volume.Valid()
      && (if fatEntry.FirstCluster() == 0 then cs == []
          else IsChain(volume.fat[..], cs) && cs[0] == fatEntry.FirstCluster())
      && InTable(volume.data[..], cs)
      && fatEntry.fileSize <= |Flat(volume.data[..], cs)|
    }

    /** The read cursor stands in cluster number rdIndex of the file. */
    ghost predicate Reading(cs: seq<nat>)
      reads this, fatEntry, volume.fat, volume.data
    {
      Clusters(cs) && ReaderAt(volume.bytesPerCluster, volume.data[..], cs, fatEntry.fileSize, ReadCursor(), rdIndex)
    }

    /** The bytes of the file: its chain cut at the size. */
    ghost function Content(cs: seq<nat>): seq<Byte>
      requires Clusters(cs)
      reads fatEntry, volume.fat, volume.data
    {
      Flat(volume.data[..], cs)[..fatEntry.fileSize]
    }

    /** Reads on an unchanged file return its bytes one piece behind the other, whatever their lengths. */
    method Read(len: nat, ghost cs: seq<nat>) returns (buf: seq<Byte>)
      requires Reading(cs)
      modifies `rdOff, `rdCluster, `rdClusterOff, `rdIndex
      ensures Reading(cs)
      ensures buf == ReadAt(Content(cs), old(rdOff), len)
      ensures rdOff == old(rdOff) + |buf|
    {
      hide InTable, Last;
      ghost var data, size, start := volume.data[..], fatEntry.fileSize, rdOff;
      MidwayStart(volume.bytesPerCluster, data, cs, size, ReadCursor(), rdIndex, fatEntry.FirstCluster());
      assert Clusters(cs) && (cs != [] ==> IsChain(volume.fat[..], cs)) && volume.Valid();
      hide Midway, ReaderAt, IsChain, Flat, WellFormed, ReadAt, ClusterAt, Clusters;
      var cluster := if rdCluster == 0 then fatEntry.FirstCluster() else rdCluster;
      var off, toRead := rdClusterOff, Min(len, fatEntry.fileSize - rdOff);
      ghost var k;
      buf, cluster, off, k := volume.CopyBytes(toRead, cluster, off, cs, start, rdIndex);
      MidwayEnd(volume.bytesPerCluster, data, cs, size, start, len, Cursor(start + toRead, cluster, off), k, buf);
      rdOff, rdCluster, rdClusterOff, rdIndex := rdOff + |buf|, cluster, off, k;
    }

    /** Write does what FatSessions.Write says on the values of volume, entry and cursor. */
    method Write(buf: nat -> Byte, len: nat) returns (ok: bool, total: nat)
      requires volume.Valid() && fatEntry.Valid()
      requires fatEntry.FirstCluster() < volume.fat.Length
      requires wrCluster < volume.fat.Length && wrClusterOff <= volume.bytesPerCluster
      modifies volume.fat, volume.data, fatEntry, `wrOff, `wrCluster, `wrClusterOff
      ensures var r := FatSessions.Write(volume.bytesPerCluster, old(volume.Disk()), old(fatEntry.Entry()),
                                         old(WriteCursor()),
                                         buf, len);
              if ok then r == Wrote(volume.Disk(), fatEntry.Entry(), WriteCursor(), total) else r == NoFreeCluster
    {
      hide WriteLoop, Allocated, FreeFrom, NumCluster;
      ok, total := true, 0;
      if wrCluster == 0 {
        if fatEntry.FirstCluster() != 0 {
          wrCluster := fatEntry.FirstCluster();
        } else {
          ok, wrCluster := volume.AllocateClusterchain(NumCluster(len, volume.bytesPerCluster));
          if !ok {
            return;
          }
          MarkFirst(old(volume.fat[..]));
          fatEntry.SetFirstCluster(wrCluster);
        }
      }
      ok, wrCluster, wrClusterOff, total := volume.WriteBytes(wrCluster, wrClusterOff, buf, len);
      if !ok {
        return;
      }
      wrOff := wrOff + total;
      fatEntry.fileSize := wrOff % 0x1_0000_0000;
    }
  }
}