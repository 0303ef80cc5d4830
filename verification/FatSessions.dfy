/** Whole runs of writes and reads on one file of kernel/fat.cpp. */
module FatSessions {
  import opened Division
  import opened FatChains
  import opened FatFile

  // ---------------------------------------------------------------- clusters a long write skips

  /** The i-th cluster added to a chain stands i places behind its old end. */
  lemma AddedAt(fat: seq<nat>, chains: map<nat, seq<nat>>, h: nat, n: nat, i: nat)
    requires h in chains && i < n <= |FreeFrom(fat, FIRST_CLUSTER)|
    ensures GrownBy(fat, chains, h, n)[h][|chains[h]| + i] == LowestFree(fat, n)[i] == FreeFrom(fat, FIRST_CLUSTER)[i]
  {
  }

  /** A writer that goes on does not come back to clusters in front of it. */
  lemma SkippedStay(bpc: nat, d: Disk, chains: map<nat, seq<nat>>, h: nat, k: nat, n: nat, k': nat, r: WriteResult,
                    j: nat)
    requires Place(bpc, d, chains, h, k) && Advanced(bpc, d, chains, h, k, n, k', r) && j <= k
    ensures chains[h][j] < |d.data| == |r.disk.data| && r.disk.data[chains[h][j]] == d.data[chains[h][j]]
  {
    var cs' := GrownBy(d.fat, chains, h, n)[h];
    assert IsChain(d.fat, chains[h]);
    assert cs'[j] == chains[h][j];
    forall i | k < i < |cs'|
      ensures cs'[i] != cs'[j]
    {
      ChainIsAcyclic(r.disk.fat, cs', j, i);
    }
  }

  lemma OutcomeStays(bpc: nat, d: Disk, chains: map<nat, seq<nat>>, h: nat, k: nat, q: nat, len: nat, total: nat,
                     r: WriteResult, j: nat)
    requires Place(bpc, d, chains, h, k) && Outcome(bpc, d, chains, h, k, q, len, total, r)
    requires Needed(|chains[h]|, k, q) <= |FreeFrom(d.fat, FIRST_CLUSTER)| && j <= k
    ensures r.Written? && chains[h][j] < |d.data| == |r.disk.data| && r.disk.data[chains[h][j]] == d.data[chains[h][j]]
  {
    SkippedStay(bpc, d, chains, h, k, Needed(|chains[h]|, k, q), EndPlace(|chains[h]|, k, q), r, j);
  }

  /** A round at the end of the chain writes the last cluster it adds, not the ones before. */
  lemma ExtendedRoundSkips(bpc: nat, d: Disk, chains: map<nat, seq<nat>>, h: nat, buf: nat -> Byte, len: nat,
                           total: nat, i: nat)
    requires h in chains && chains[h] != [] && Place(bpc, d, chains, h, |chains[h]| - 1) && total < len
    requires i + 1 < NumCluster(len - total, bpc) <= |FreeFrom(d.fat, FIRST_CLUSTER)|
    ensures var c, r := FreeFrom(d.fat, FIRST_CLUSTER)[i], ExtendedRound(bpc, d, chains, h, buf, len, total);
            && c < |d.data| == |r.disk.data|
            && r.disk.data[c] == d.data[c]
            && r.off == bpc
  {
    var n := NumCluster(len - total, bpc);
    LowestFreeFacts(d.fat, n);
    assert LowestFree(d.fat, n)[i] < LowestFree(d.fat, n)[n - 1];
    NumClusterStep(len - total, bpc);
  }

  lemma SkippedAtEnd(bpc: nat, d: Disk, chains: map<nat, seq<nat>>, h: nat, buf: nat -> Byte, len: nat, total: nat,
                     i: nat)
    requires h in chains && chains[h] != [] && Place(bpc, d, chains, h, |chains[h]| - 1) && total < len
    requires var q := RoundsLeft(bpc, len, total);
             i + 1 < q && Triangle(q) <= |FreeFrom(d.fat, FIRST_CLUSTER)|
    ensures Last(chains[h]) < |d.fat| && i < |FreeFrom(d.fat, FIRST_CLUSTER)|
    ensures var r := WriteLoop(bpc, d, Last(chains[h]), bpc, buf, len, total);
            var c := FreeFrom(d.fat, FIRST_CLUSTER)[i];
            r.Written? && c < |d.data| == |r.disk.data| && r.disk.data[c] == d.data[c]
  {
    hide Chains, WriteLoop, Round, ExtendedRound, FreeFrom;
    var size, q := |chains[h]|, RoundsLeft(bpc, len, total);
    RoundsStep(bpc, len, total);
    ExtendRound(bpc, d, chains, h, buf, len, total);
    ExtendedRoundSkips(bpc, d, chains, h, buf, len, total, i);
    var r, chains1, k1 := ExtendedRound(bpc, d, chains, h, buf, len, total), GrownBy(d.fat, chains, h, q), size - 1 + q;
    Rounds(bpc, r.disk, chains1, h, k1, buf, len, r.total);
    AddedAt(d.fat, chains, h, q, i);
    NeededStep(size, size - 1, q, k1, q);
    OutcomeStays(bpc, r.disk, chains1, h, k1, q - 1, len, r.total,
                 WriteLoop(bpc, r.disk, r.cluster, r.off, buf, len, r.total),
                 size + i);
  }

  lemma SkippedAfterWalk(bpc: nat, len: nat, total: nat, q: nat)
    requires bpc > 0 && total < len && q == RoundsLeft(bpc, len, total) && q > 1
    ensures len > bpc
  {
    NumClusterStep(len - total, bpc);
  }

  /** A round inside the chain leaves the table and the contents of all free clusters alone. */
  lemma WalkMissesFree(bpc: nat, d: Disk, chains: map<nat, seq<nat>>, h: nat, k: nat, i: nat, buf: nat -> Byte,
                       len: nat, total: nat)
    requires Place(bpc, d, chains, h, k) && k + 1 < |chains[h]| && total < len && i < |FreeFrom(d.fat, FIRST_CLUSTER)|
    ensures chains[h][k] < |d.fat| && chains[h][k + 1] < |d.fat|
    ensures var r := Round(bpc, d, d.fat, chains[h][k + 1], buf, len, total);
            var c := FreeFrom(d.fat, FIRST_CLUSTER)[i];
            && Place(bpc, r.disk, chains, h, k + 1)
            && c < |d.data| == |r.disk.data| && r.disk.data[c] == d.data[c]
            && WriteLoop(bpc, d, chains[h][k], bpc, buf, len, total)
                 == WriteLoop(bpc, r.disk, r.cluster, r.off, buf, len, r.total)
  {
    hide WriteLoop;
    WalkRound(bpc, d, chains, h, k, buf, len, total);
    FreeIsInNoChain(d.fat, chains, h, chains[h][k + 1]);
    FreeFromIsExact(d.fat, FIRST_CLUSTER);
    assert FreeFrom(d.fat, FIRST_CLUSTER)[i] in FreeFrom(d.fat, FIRST_CLUSTER);
  }

  /**
   * A write that lacks m > 1 clusters leaves the first m - 1 clusters it adds as they were: the file
   * goes on with whatever those free clusters held.
   */
  lemma {:induction false} SkippedClustersAreStale(bpc: nat, d: Disk, chains: map<nat, seq<nat>>, h: nat, k: nat,
                                                   buf: nat -> Byte, len: nat, total: nat, i: nat)
    requires Place(bpc, d, chains, h, k)
    requires var size, q := |chains[h]|, RoundsLeft(bpc, len, total);
             i + 1 < Lacking(size, k, q) && Needed(size, k, q) <= |FreeFrom(d.fat, FIRST_CLUSTER)|
    ensures chains[h][k] < |d.fat| && i < |FreeFrom(d.fat, FIRST_CLUSTER)|
    ensures var r := WriteLoop(bpc, d, chains[h][k], bpc, buf, len, total);
            var c := FreeFrom(d.fat, FIRST_CLUSTER)[i];
            r.Written? && c < |d.fat| == |d.data| == |r.disk.data| && r.disk.data[c] == d.data[c]
    decreases RoundsLeft(bpc, len, total)
  {
    hide WriteLoop, Round, Triangle, FreeFrom, Chains;
    var cs, q := chains[h], RoundsLeft(bpc, len, total);
    RoundsStep(bpc, len, total);
    TriangleGrows(Lacking(|cs|, k, q));
    if k + 1 < |cs| {
      WalkMissesFree(bpc, d, chains, h, k, i, buf, len, total);
      NeededStep(|cs|, k, 0, k + 1, q);
      SkippedAfterWalk(bpc, len, total, q);
      var r := Round(bpc, d, d.fat, cs[k + 1], buf, len, total);
      SkippedClustersAreStale(bpc, r.disk, chains, h, k + 1, buf, len, r.total, i);
    } else {
      SkippedAtEnd(bpc, d, chains, h, buf, len, total, i);
    }
  }

  // ---------------------------------------------------------------- one call of a descriptor

  /** The fields of a directory entry that reading and writing use. */
  datatype Entry = Entry(first: nat, size: nat)

  /** A read or write cursor: bytes passed, current cluster (0 before the first call), offset in it. */
  datatype Cursor = Cursor(off: nat, cluster: nat, clusterOff: nat)

  const FRESH := Cursor(0, 0, 0)

  datatype CallResult = Wrote(disk: Disk, entry: Entry, cursor: Cursor, total: nat) | NoFreeCluster

  ghost function WriteFrom(bpc: nat, d: Disk, e: Entry, w: Cursor, buf: nat -> Byte, len: nat): CallResult
    requires WellFormed(bpc, d) && w.cluster < |d.fat| && w.clusterOff <= bpc
  {
    match WriteLoop(bpc, d, w.cluster, w.clusterOff, buf, len, 0)
    case PastTable => NoFreeCluster
    case Written(d', cluster, off, total) =>
      Wrote(d', e.(size := (w.off + total) % 0x1_0000_0000), Cursor(w.off + total, cluster, off), total)
  }

  /** FileDescriptor::Write on volume values; the size field has 32 bits. */
  ghost function Write(bpc: nat, d: Disk, e: Entry, w: Cursor, buf: nat -> Byte, len: nat): CallResult
    requires WellFormed(bpc, d) && e.first < |d.fat| && w.cluster < |d.fat| && w.clusterOff <= bpc
  {
    if w.cluster != 0 then WriteFrom(bpc, d, e, w, buf, len)
    else if e.first != 0 then WriteFrom(bpc, d, e, w.(cluster := e.first), buf, len)
    else
      var n := NumCluster(len, bpc);
      if Taken(n) > |FreeFrom(d.fat, FIRST_CLUSTER)| then NoFreeCluster
      else
        MarkFirst(d.fat);
        var first := Marked(d.fat).0;
        WriteFrom(bpc, d.(fat := Allocated(d.fat, n)), e.(first := first), w.(cluster := first), buf, len)
  }

  // ---------------------------------------------------------------- sessions

  /** A file being written, with the chains of its volume and the number of the writer's cluster in its chain. */
  datatype Session = Session(disk: Disk, chains: map<nat, seq<nat>>, entry: Entry, cursor: Cursor, k: nat)

  ghost predicate Valid(bpc: nat, s: Session) {
    && WellFormed(bpc, s.disk)
    && Chains(s.disk.fat, s.chains)
    && s.cursor.clusterOff <= bpc
    && if s.entry.first == 0 then
         s.cursor == FRESH && s.k == 0 && s.entry.size == 0
       else
         && s.entry.first in s.chains
         && s.k < |s.chains[s.entry.first]|
         && (s.cursor.cluster == s.chains[s.entry.first][s.k] || (s.cursor == FRESH && s.k == 0))
  }

  /** The clusters of the file. */
  ghost function Clusters(bpc: nat, s: Session): seq<nat>
    requires Valid(bpc, s)
  {
    if s.entry.first == 0 then [] else s.chains[s.entry.first]
  }

  /** A first call on an empty file finds clusters for all its bytes. */
  ghost predicate CanStart(bpc: nat, s: Session, len: nat)
    requires Valid(bpc, s)
  {
    s.entry.first == 0 ==> Taken(NumCluster(len, bpc)) <= |FreeFrom(s.disk.fat, FIRST_CLUSTER)|
  }

  /** The session when the writer has a cluster. */
  ghost function Started(bpc: nat, s: Session, len: nat): Session
    requires Valid(bpc, s) && CanStart(bpc, s, len)
  {
    if s.entry.first != 0 then
      s.(cursor := s.cursor.(cluster := s.chains[s.entry.first][s.k]))
    else
      var n := NumCluster(len, bpc);
      var cs := LowestFree(s.disk.fat, Taken(n));
      Session(s.disk.(fat := Allocated(s.disk.fat, n)), s.chains[cs[0] := cs], s.entry.(first := cs[0]),
              s.cursor.(cluster := cs[0]), 0)
  }

  /** A session whose writer stands in a cluster of its chain. */
  ghost predicate Ready(bpc: nat, t: Session) {
    && Place(bpc, t.disk, t.chains, t.entry.first, t.k)
    && t.cursor.cluster == t.chains[t.entry.first][t.k]
    && t.cursor.clusterOff <= bpc
    && t.entry.first != 0
  }

  lemma ReadyInTable(bpc: nat, t: Session)
    requires Ready(bpc, t)
    ensures Valid(bpc, t) && 0 < t.cursor.cluster < |t.disk.fat|
  {
    assert IsChain(t.disk.fat, t.chains[t.entry.first]);
  }

  lemma StartMakesReady(bpc: nat, s: Session, len: nat)
    requires Valid(bpc, s) && CanStart(bpc, s, len)
    ensures var t := Started(bpc, s, len);
            && Ready(bpc, t)
            && t.cursor == s.cursor.(cluster := t.cursor.cluster)
            && t.disk.data == s.disk.data
            && |t.disk.fat| == |s.disk.fat|
            && t.entry.size == s.entry.size
  {
    if s.entry.first == 0 {
      var n := NumCluster(len, bpc);
      AllocateKeepsChains(s.disk.fat, s.chains, n);
      LowestFreeFacts(s.disk.fat, Taken(n));
    } else {
      assert IsChain(s.disk.fat, s.chains[s.entry.first]);
    }
  }

  /** Clusters that a call adds to its chain. */
  ghost function Needs(bpc: nat, t: Session, len: nat): nat
    requires Ready(bpc, t)
  {
    Needed(|t.chains[t.entry.first]|, t.k, CallRounds(bpc, t.cursor.clusterOff, len))
  }

  /** The session after the loop of a call. */
  ghost function Stepped(bpc: nat, t: Session, buf: nat -> Byte, len: nat): Session
    requires Ready(bpc, t) && Needs(bpc, t, len) <= |FreeFrom(t.disk.fat, FIRST_CLUSTER)|
  {
    ReadyInTable(bpc, t);
    var h, off := t.entry.first, t.cursor.clusterOff;
    WriteCall(bpc, t.disk, t.chains, h, t.k, off, buf, len);
    var r := WriteLoop(bpc, t.disk, t.cursor.cluster, off, buf, len, 0);
    var end := t.cursor.off + r.total;
    Session(r.disk, GrownBy(t.disk.fat, t.chains, h, Needs(bpc, t, len)), t.entry.(size := end % 0x1_0000_0000),
            Cursor(end, r.cluster, r.off), EndPlace(|t.chains[h]|, t.k, CallRounds(bpc, off, len)))
  }

  lemma ReadyStep(bpc: nat, t: Session, buf: nat -> Byte, len: nat)
    requires Ready(bpc, t)
    ensures t.cursor.cluster < |t.disk.fat|
    ensures var r := WriteFrom(bpc, t.disk, t.entry, t.cursor, buf, len);
            if Needs(bpc, t, len) <= |FreeFrom(t.disk.fat, FIRST_CLUSTER)| then
              var t' := Stepped(bpc, t, buf, len);
              r == Wrote(t'.disk, t'.entry, t'.cursor, CallTotal(bpc, t.cursor.clusterOff, len)) && Ready(bpc, t')
            else r == NoFreeCluster
  {
    hide Ready, Needed, EndPlace, CallTotal, Chains, FreeFrom, GrownBy;
    ReadyInTable(bpc, t);
    WriteCall(bpc, t.disk, t.chains, t.entry.first, t.k, t.cursor.clusterOff, buf, len);
    if Needs(bpc, t, len) <= |FreeFrom(t.disk.fat, FIRST_CLUSTER)| {
      SteppedIsReady(bpc, t, buf, len);
    }
  }

  lemma SteppedIsReady(bpc: nat, t: Session, buf: nat -> Byte, len: nat)
    requires Ready(bpc, t) && Needs(bpc, t, len) <= |FreeFrom(t.disk.fat, FIRST_CLUSTER)|
    ensures Ready(bpc, Stepped(bpc, t, buf, len))
  {
    ReadyInTable(bpc, t);
    WriteCall(bpc, t.disk, t.chains, t.entry.first, t.k, t.cursor.clusterOff, buf, len);
    hide Needed, EndPlace, CallTotal, Chains, FreeFrom, GrownBy, WriteLoop, CallRounds;
  }

  /** The volume has the free clusters that a call takes. */
  ghost predicate Enough(bpc: nat, s: Session, len: nat)
    requires Valid(bpc, s)
  {
    CanStart(bpc, s, len) &&
    var t := Started(bpc, s, len);
    StartMakesReady(bpc, s, len);
    Needs(bpc, t, len) <= |FreeFrom(t.disk.fat, FIRST_CLUSTER)|
  }

  /** The session after a call. */
  ghost function After(bpc: nat, s: Session, buf: nat -> Byte, len: nat): Session
    requires Valid(bpc, s) && Enough(bpc, s, len)
  {
    StartMakesReady(bpc, s, len);
    Stepped(bpc, Started(bpc, s, len), buf, len)
  }

  lemma StartWrites(bpc: nat, s: Session, buf: nat -> Byte, len: nat)
    requires Valid(bpc, s)
    ensures s.entry.first < |s.disk.fat| && s.cursor.cluster < |s.disk.fat|
    ensures var r := Write(bpc, s.disk, s.entry, s.cursor, buf, len);
            if CanStart(bpc, s, len) then
              var t := Started(bpc, s, len);
              && WellFormed(bpc, t.disk) && t.cursor.cluster < |t.disk.fat| && t.cursor.clusterOff <= bpc
              && r == WriteFrom(bpc, t.disk, t.entry, t.cursor, buf, len)
            else r == NoFreeCluster
  {
    hide WriteFrom;
    if s.entry.first != 0 {
      assert IsChain(s.disk.fat, s.chains[s.entry.first]);
    }
    if CanStart(bpc, s, len) {
      StartMakesReady(bpc, s, len);
      ReadyInTable(bpc, Started(bpc, s, len));
    }
  }

  /** Every call either runs past the table or makes its session step, and returns CallTotal. */
  lemma SessionStep(bpc: nat, s: Session, buf: nat -> Byte, len: nat)
    requires Valid(bpc, s)
    ensures s.entry.first < |s.disk.fat| && s.cursor.cluster < |s.disk.fat|
    ensures var r := Write(bpc, s.disk, s.entry, s.cursor, buf, len);
            if Enough(bpc, s, len) then
              var s' := After(bpc, s, buf, len);
              && r == Wrote(s'.disk, s'.entry, s'.cursor, CallTotal(bpc, s.cursor.clusterOff, len))
              && Valid(bpc, s')
            else r == NoFreeCluster
  {
    StartWrites(bpc, s, buf, len);
    if CanStart(bpc, s, len) {
      hide Write, WriteFrom, Started, Ready, Stepped;
      StartMakesReady(bpc, s, len);
      var t := Started(bpc, s, len);
      ReadyStep(bpc, t, buf, len);
      if Enough(bpc, s, len) {
        ReadyInTable(bpc, Stepped(bpc, t, buf, len));
      }
    }
  }

  // ---------------------------------------------------------------- the chain always covers the size

  /** The writer is at least as far in the chain as the bytes it has counted. */
  ghost predicate Ahead(bpc: nat, s: Session) {
    s.cursor.off <= s.k * bpc + s.cursor.clusterOff
  }

  lemma RoundsCovered(q: nat, w: nat, bpc: nat, k: nat, e: nat)
    requires q > 0 && w <= bpc && k + q <= e
    ensures k * bpc + bpc + q * w <= e * bpc + w
  {
    MulLe(k + q, e, bpc);
    MulLe(w, bpc, q - 1);
    assert (k + q) * bpc == k * bpc + (q - 1) * bpc + bpc;
    assert q * w == (q - 1) * w + w;
  }

  /** Counted bytes never outrun the clusters passed. */
  lemma CallStaysAhead(bpc: nat, off: nat, len: nat, size: nat, k: nat, off': nat)
    requires bpc > 0 && off <= bpc && k < size
    requires var q := CallRounds(bpc, off, len);
             && (q > 0 ==> off' == Min(len, bpc))
             && (q == 0 && off < bpc ==> off' == off + len)
             && (q == 0 && off == bpc ==> off' == bpc)
    ensures k * bpc + off + CallTotal(bpc, off, len) <= EndPlace(size, k, CallRounds(bpc, off, len)) * bpc + off'
  {
    var q, e := CallRounds(bpc, off, len), EndPlace(size, k, CallRounds(bpc, off, len));
    NumClusterStep(len, bpc);
    EndIsFar(size, k, q);
    hide NumCluster, EndPlace;
    if q > 0 {
      RoundsCovered(q, Min(len, bpc), bpc, k, e);
    } else {
      MulLe(k, e, bpc);
    }
  }

  lemma EndIsFar(size: nat, k: nat, q: nat)
    requires k < size
    ensures k + q <= EndPlace(size, k, q) < size + Needed(size, k, q)
  {
    TriangleGrows(Lacking(size, k, q));
  }

  lemma StepStaysAhead(bpc: nat, t: Session, buf: nat -> Byte, len: nat)
    requires Ready(bpc, t) && Ahead(bpc, t) && Needs(bpc, t, len) <= |FreeFrom(t.disk.fat, FIRST_CLUSTER)|
    ensures Ahead(bpc, Stepped(bpc, t, buf, len))
  {
    ReadyInTable(bpc, t);
    var h, off := t.entry.first, t.cursor.clusterOff;
    WriteCall(bpc, t.disk, t.chains, h, t.k, off, buf, len);
    var r := WriteLoop(bpc, t.disk, t.cursor.cluster, off, buf, len, 0);
    CallStaysAhead(bpc, off, len, |t.chains[h]|, t.k, r.off);
  }

  lemma AheadFits(bpc: nat, s: Session)
    requires Ready(bpc, s) && Ahead(bpc, s)
    ensures s.cursor.off <= |s.chains[s.entry.first]| * bpc
  {
    MulLe(s.k + 1, |s.chains[s.entry.first]|, bpc);
    assert (s.k + 1) * bpc == s.k * bpc + bpc;
  }

  /** The chain holds at least as many bytes as the size field says. */
  ghost predicate Covered(bpc: nat, s: Session) {
    && s.entry.first in s.chains
    && s.entry.size <= s.cursor.off <= |s.chains[s.entry.first]| * bpc
  }

  lemma StepCovers(bpc: nat, t: Session, buf: nat -> Byte, len: nat)
    requires Ready(bpc, t) && Ahead(bpc, t) && Needs(bpc, t, len) <= |FreeFrom(t.disk.fat, FIRST_CLUSTER)|
    ensures var s' := Stepped(bpc, t, buf, len);
            Valid(bpc, s') && Ahead(bpc, s') && Covered(bpc, s')
  {
    StepCounts(bpc, t, buf, len);
    StepStaysAhead(bpc, t, buf, len);
    ReadyStep(bpc, t, buf, len);
    hide Stepped, Needs, WriteFrom;
    var s' := Stepped(bpc, t, buf, len);
    ReadyInTable(bpc, s');
    AheadFits(bpc, s');
  }

  /** After any call that found its clusters the chain covers the size. */
  lemma ChainCoversSize(bpc: nat, s: Session, buf: nat -> Byte, len: nat)
    requires Valid(bpc, s) && Ahead(bpc, s) && Enough(bpc, s, len)
    ensures var s' := After(bpc, s, buf, len);
            Valid(bpc, s') && Ahead(bpc, s') && Covered(bpc, s')
  {
    StartMakesReady(bpc, s, len);
    var t := Started(bpc, s, len);
    assert Ahead(bpc, t);
    hide Stepped, Covered, Ahead, Valid, Ready;
    StepCovers(bpc, t, buf, len);
  }

  /** Calls one after the other, each of which finds its clusters, whether or not it leaves a gap. */
  ghost predicate Possible(bpc: nat, s: Session, calls: seq<Call>)
    requires Valid(bpc, s) && Ahead(bpc, s)
    decreases |calls|
  {
    calls == [] ||
    (&& Enough(bpc, s, calls[0].len)
     && (ChainCoversSize(bpc, s, calls[0].buf, calls[0].len);
         Possible(bpc, After(bpc, s, calls[0].buf, calls[0].len), calls[1..])))
  }

  ghost function AfterAll(bpc: nat, s: Session, calls: seq<Call>): Session
    requires Valid(bpc, s) && Ahead(bpc, s) && Possible(bpc, s, calls)
    decreases |calls|
  {
    if calls == [] then s
    else
      ChainCoversSize(bpc, s, calls[0].buf, calls[0].len);
      AfterAll(bpc, After(bpc, s, calls[0].buf, calls[0].len), calls[1..])
  }

  lemma {:induction false} RunCoversSize(bpc: nat, s: Session, calls: seq<Call>)
    requires Valid(bpc, s) && Ahead(bpc, s) && Possible(bpc, s, calls) && (calls == [] ==> Covered(bpc, s))
    ensures Covered(bpc, AfterAll(bpc, s, calls))
    decreases |calls|
  {
    hide Valid, Ahead, Covered, Enough, After;
    if calls != [] {
      ChainCoversSize(bpc, s, calls[0].buf, calls[0].len);
      RunCoversSize(bpc, After(bpc, s, calls[0].buf, calls[0].len), calls[1..]);
    }
  }

  /** After any calls on a fresh descriptor, at least one, the chain holds at least as many bytes as the size says. */
  lemma ChainAlwaysCoversSize(bpc: nat, s: Session, calls: seq<Call>)
    requires Valid(bpc, s) && s.cursor == FRESH && calls != [] && Possible(bpc, s, calls)
    ensures Covered(bpc, AfterAll(bpc, s, calls))
  {
    RunCoversSize(bpc, s, calls);
  }

  // ---------------------------------------------------------------- other files

  /** Every other chain and the bytes in it are as before. */
  ghost predicate OthersKept(s: Session, s': Session, h: nat) {
    && |s'.disk.data| == |s.disk.data|
    && forall g | g in s.chains && g != h ::
         && g in s'.chains
         && s'.chains[g] == s.chains[g]
         && forall c | c in s.chains[g] && c < |s.disk.data| :: s'.disk.data[c] == s.disk.data[c]
  }

  lemma StepKeepsOthers(bpc: nat, t: Session, buf: nat -> Byte, len: nat)
    requires Ready(bpc, t) && Needs(bpc, t, len) <= |FreeFrom(t.disk.fat, FIRST_CLUSTER)|
    ensures OthersKept(t, Stepped(bpc, t, buf, len), t.entry.first)
  {
    ReadyInTable(bpc, t);
    var h := t.entry.first;
    WriteCall(bpc, t.disk, t.chains, h, t.k, t.cursor.clusterOff, buf, len);
    var t' := Stepped(bpc, t, buf, len);
    forall g, c | g in t.chains && g != h && c in t.chains[g] && c < |t.disk.data|
      ensures t'.disk.data[c] == t.disk.data[c]
    {
      assert c in t'.chains[g];
    }
  }

  /** Writing one file changes no other chain and no byte of one. */
  lemma WriteKeepsOthers(bpc: nat, s: Session, buf: nat -> Byte, len: nat)
    requires Valid(bpc, s) && Enough(bpc, s, len)
    ensures OthersKept(s, After(bpc, s, buf, len), s.entry.first)
  {
    StartMakesReady(bpc, s, len);
    var t := Started(bpc, s, len);
    StepKeepsOthers(bpc, t, buf, len);
    if s.entry.first == 0 {
      AllocateKeepsChains(s.disk.fat, s.chains, NumCluster(len, bpc));
    }
  }

  // ---------------------------------------------------------------- what the file holds

  lemma ValidInTable(bpc: nat, s: Session)
    requires Valid(bpc, s)
    ensures forall c | c in Clusters(bpc, s) :: c < |s.disk.data|
  {
    if s.entry.first != 0 {
      assert IsChain(s.disk.fat, s.chains[s.entry.first]);
    }
  }

  /** The bytes in front of the writer. */
  ghost function Text(bpc: nat, s: Session): seq<Byte>
    requires Valid(bpc, s)
  {
    ValidInTable(bpc, s);
    if s.entry.first == 0 then [] else Upto(s.disk.data, s.chains[s.entry.first], s.k, s.cursor.clusterOff)
  }

  /** At most one cluster's worth is left whenever the writer reaches the end of the chain. */
  ghost predicate Smooth(bpc: nat, s: Session, len: nat)
    requires Valid(bpc, s) && CanStart(bpc, s, len)
  {
    StartMakesReady(bpc, s, len);
    var t := Started(bpc, s, len);
    Lacking(|t.chains[t.entry.first]|, t.k, CallRounds(bpc, t.cursor.clusterOff, len)) <= 1
  }

  lemma StepAppends(bpc: nat, t: Session, buf: nat -> Byte, len: nat)
    requires Ready(bpc, t) && Needs(bpc, t, len) <= |FreeFrom(t.disk.fat, FIRST_CLUSTER)|
    requires Lacking(|t.chains[t.entry.first]|, t.k, CallRounds(bpc, t.cursor.clusterOff, len)) <= 1
    ensures Valid(bpc, t) && Valid(bpc, Stepped(bpc, t, buf, len))
    ensures Text(bpc, Stepped(bpc, t, buf, len))
              == Text(bpc, t) + Bytes(buf, 0, CallTotal(bpc, t.cursor.clusterOff, len))
  {
    ReadyInTable(bpc, t);
    ReadyStep(bpc, t, buf, len);
    var t' := Stepped(bpc, t, buf, len);
    ReadyInTable(bpc, t');
    WriteCall(bpc, t.disk, t.chains, t.entry.first, t.k, t.cursor.clusterOff, buf, len);
    hide WriteLoop, Chains, FreeFrom, Lacking, Needed, EndPlace, CallTotal, CallRounds;
  }

  /** A smooth call puts its bytes directly behind those of the calls before. */
  lemma WriteAppends(bpc: nat, s: Session, buf: nat -> Byte, len: nat)
    requires Valid(bpc, s) && Enough(bpc, s, len) && Smooth(bpc, s, len)
    ensures Valid(bpc, After(bpc, s, buf, len))
    ensures Text(bpc, After(bpc, s, buf, len)) == Text(bpc, s) + Bytes(buf, 0, CallTotal(bpc, s.cursor.clusterOff, len))
  {
    StartMakesReady(bpc, s, len);
    StepAppends(bpc, Started(bpc, s, len), buf, len);
    hide Stepped;
    StartKeepsText(bpc, s, len);
  }

  lemma StartKeepsText(bpc: nat, s: Session, len: nat)
    requires Valid(bpc, s) && CanStart(bpc, s, len)
    ensures Valid(bpc, Started(bpc, s, len))
    ensures Text(bpc, Started(bpc, s, len)) == Text(bpc, s)
  {
    StartMakesReady(bpc, s, len);
    var t := Started(bpc, s, len);
    ReadyInTable(bpc, t);
    if s.entry.first == 0 {
      assert t.chains[t.entry.first][..0] == [];
    }
  }

  // ---------------------------------------------------------------- runs of calls

  /** One Write: the memory its buffer points at, and the length. */
  datatype Call = Call(buf: nat -> Byte, len: nat)

  ghost function Concat(calls: seq<Call>): seq<Byte> {
    if calls == [] then [] else Bytes(calls[0].buf, 0, calls[0].len) + Concat(calls[1..])
  }

  /** Every call finds its clusters, is smooth and returns the length it was given. */
  ghost predicate GoodRun(bpc: nat, s: Session, calls: seq<Call>)
    requires Valid(bpc, s)
    decreases |calls|
  {
    calls == [] ||
    (&& Enough(bpc, s, calls[0].len)
     && Smooth(bpc, s, calls[0].len)
     && CallTotal(bpc, s.cursor.clusterOff, calls[0].len) == calls[0].len
     && (WriteAppends(bpc, s, calls[0].buf, calls[0].len);
         GoodRun(bpc, After(bpc, s, calls[0].buf, calls[0].len), calls[1..])))
  }

  ghost function Final(bpc: nat, s: Session, calls: seq<Call>): Session
    requires Valid(bpc, s) && GoodRun(bpc, s, calls)
    decreases |calls|
  {
    if calls == [] then s
    else
      WriteAppends(bpc, s, calls[0].buf, calls[0].len);
      Final(bpc, After(bpc, s, calls[0].buf, calls[0].len), calls[1..])
  }

  /** The bytes counted are those in front of the writer. */
  ghost predicate InStep(bpc: nat, s: Session) {
    Valid(bpc, s) && s.cursor.off == |Text(bpc, s)|
  }

  lemma FreshIsInStep(bpc: nat, s: Session)
    requires Valid(bpc, s) && s.cursor == FRESH
    ensures InStep(bpc, s) && Text(bpc, s) == []
  {
    if s.entry.first != 0 {
      ReadyInTableOrFresh(bpc, s);
    }
  }

  lemma ReadyInTableOrFresh(bpc: nat, s: Session)
    requires Valid(bpc, s) && s.cursor == FRESH && s.entry.first != 0
    ensures s.k == 0
  {
    assert IsChain(s.disk.fat, s.chains[s.entry.first]);
  }

  ghost predicate Counted(s: Session, s': Session, n: nat) {
    && s'.cursor.off == s.cursor.off + n
    && s'.entry.size == s'.cursor.off % 0x1_0000_0000
    && s'.entry.first != 0
  }

  lemma StepCounts(bpc: nat, t: Session, buf: nat -> Byte, len: nat)
    requires Ready(bpc, t) && Needs(bpc, t, len) <= |FreeFrom(t.disk.fat, FIRST_CLUSTER)|
    ensures Counted(t, Stepped(bpc, t, buf, len), CallTotal(bpc, t.cursor.clusterOff, len))
  {
    hide WriteLoop, Chains, FreeFrom, CallTotal, EndPlace, Needed;
    ReadyStep(bpc, t, buf, len);

  }

  /** What a call adds to the writer's count, and the size it leaves in the entry. */
  lemma AfterCounts(bpc: nat, s: Session, buf: nat -> Byte, len: nat)
    requires Valid(bpc, s) && Enough(bpc, s, len)
    ensures Counted(s, After(bpc, s, buf, len), CallTotal(bpc, s.cursor.clusterOff, len))
  {
    StartMakesReady(bpc, s, len);
    hide Stepped, CallTotal;
    StepCounts(bpc, Started(bpc, s, len), buf, len);
  }

  lemma GoodStep(bpc: nat, s: Session, buf: nat -> Byte, len: nat)
    requires InStep(bpc, s) && Enough(bpc, s, len) && Smooth(bpc, s, len)
    requires CallTotal(bpc, s.cursor.clusterOff, len) == len
    ensures InStep(bpc, After(bpc, s, buf, len))
    ensures Text(bpc, After(bpc, s, buf, len)) == Text(bpc, s) + Bytes(buf, 0, len)
    ensures Counted(s, After(bpc, s, buf, len), len)
  {
    WriteAppends(bpc, s, buf, len);
    AfterCounts(bpc, s, buf, len);
  }

  /** The writer ends behind exactly the bytes of all calls. */
  lemma {:induction false} RunAppends(bpc: nat, s: Session, calls: seq<Call>)
    requires InStep(bpc, s) && GoodRun(bpc, s, calls)
    ensures InStep(bpc, Final(bpc, s, calls))
    ensures Text(bpc, Final(bpc, s, calls)) == Text(bpc, s) + Concat(calls)
    ensures calls != [] ==> Counted(s, Final(bpc, s, calls), |Concat(calls)|)
    decreases |calls|
  {
    hide After, Enough, Smooth, Valid, Text, CallTotal;
    if calls != [] {
      var buf, len := calls[0].buf, calls[0].len;
      GoodStep(bpc, s, buf, len);
      var s1, rest := After(bpc, s, buf, len), calls[1..];
      RunAppends(bpc, s1, rest);
      assert Text(bpc, s) + Bytes(buf, 0, len) + Concat(rest) == Text(bpc, s) + (Bytes(buf, 0, len) + Concat(rest));
      assert rest == [] ==> Final(bpc, s1, rest) == s1;
    } else {
      assert Text(bpc, s) + [] == Text(bpc, s);
    }
  }

  // ---------------------------------------------------------------- reading back

  /** The bytes of a file: its chain cut at the size. */
  ghost function FileBytes(bpc: nat, s: Session): (r: seq<Byte>)
    requires Valid(bpc, s)
  {
    ValidInTable(bpc, s);
    var all := Flat(s.disk.data, Clusters(bpc, s));
    all[..Min(s.entry.size, |all|)]
  }

  /**
   * Written is read: after a good run of calls on a fresh descriptor the file consists of the
   * buffers of the calls, one behind the other, if together they fit the size field.
   */
  lemma WrittenIsRead(bpc: nat, s: Session, calls: seq<Call>)
    requires Valid(bpc, s) && s.cursor == FRESH && calls != [] && GoodRun(bpc, s, calls)
    requires |Concat(calls)| < 0x1_0000_0000
    ensures Valid(bpc, Final(bpc, s, calls))
    ensures FileBytes(bpc, Final(bpc, s, calls)) == Concat(calls)
    ensures Final(bpc, s, calls).entry.size == |Concat(calls)|
  {
    FreshIsInStep(bpc, s);
    hide Text, GoodRun, Final, Concat;
    RunAppends(bpc, s, calls);
    assert [] + Concat(calls) == Concat(calls);
    hide FileBytes, Valid, InStep, Counted;
    TextIsFile(bpc, s, Final(bpc, s, calls), |Concat(calls)|);
  }

  lemma CutAtSize(all: seq<Byte>, text: seq<Byte>, size: nat)
    requires |text| == size <= |all| && text == all[..size]
    ensures all[..Min(size, |all|)] == text
  {
  }

  /** What stands in front of the writer is the beginning of the chain. */
  lemma TextIsPrefix(bpc: nat, s: Session)
    requires Valid(bpc, s) && s.entry.first != 0
    ensures forall i | 0 <= i < |Clusters(bpc, s)| :: Clusters(bpc, s)[i] < |s.disk.data|
    ensures |Text(bpc, s)| <= |Flat(s.disk.data, Clusters(bpc, s))|
    ensures Text(bpc, s) == Flat(s.disk.data, Clusters(bpc, s))[..|Text(bpc, s)|]
  {
    hide Flat, Upto, Chains;
    ValidInTable(bpc, s);
    assert forall i | 0 <= i < |Clusters(bpc, s)| :: Clusters(bpc, s)[i] in Clusters(bpc, s);
    UptoIsPrefix(bpc, s.disk.data, s.chains[s.entry.first], s.k, s.cursor.clusterOff);
  }

  lemma TextIsFile(bpc: nat, s: Session, s': Session, n: nat)
    requires InStep(bpc, s') && Counted(s, s', n) && s.cursor.off + n < 0x1_0000_0000
    ensures FileBytes(bpc, s') == Text(bpc, s')
    ensures s'.entry.size == s.cursor.off + n
  {
    hide Flat, Text, Chains, Clusters, WellFormed;
    TextIsPrefix(bpc, s');
    CutAtSize(Flat(s'.disk.data, Clusters(bpc, s')), Text(bpc, s'), s'.entry.size);
  }

  /** What one Read at a position returns: the next bytes, cut at the end of the file. */
  function ReadAt(content: seq<Byte>, pos: nat, len: nat): seq<Byte>
    requires pos <= |content|
  {
    content[pos..pos + Min(len, |content| - pos)]
  }

  /** The results of several Reads, one behind the other. */
  function ReadAll(content: seq<Byte>, pos: nat, lens: seq<nat>): seq<Byte>
    requires pos <= |content|
    decreases |lens|
  {
    if lens == [] then []
    else
      var r := ReadAt(content, pos, lens[0]);
      r + ReadAll(content, pos + |r|, lens[1..])
  }

  function Sum(lens: seq<nat>): nat {
    if lens == [] then 0 else lens[0] + Sum(lens[1..])
  }

  /** However the reader cuts it, it gets the next Sum(lens) bytes of the file, or all that are left. */
  lemma {:induction false} ReadsAreConsecutive(content: seq<Byte>, pos: nat, lens: seq<nat>)
    requires pos <= |content|
    ensures ReadAll(content, pos, lens) == ReadAt(content, pos, Sum(lens))
    decreases |lens|
  {
    if lens != [] {
      hide ReadAt;
      var len, rest := lens[0], lens[1..];
      ReadsJoin(content, pos, len, Sum(rest));
      var next := pos + |ReadAt(content, pos, len)|;
      ReadsAreConsecutive(content, next, rest);
      assert ReadAll(content, pos, lens) == ReadAt(content, pos, len) + ReadAll(content, next, rest);
    }
  }

  lemma ReadsJoin(content: seq<Byte>, pos: nat, a: nat, b: nat)
    requires pos <= |content|
    ensures var r := ReadAt(content, pos, a);
            pos + |r| <= |content| && r + ReadAt(content, pos + |r|, b) == ReadAt(content, pos, a + b)
  {
  }

  /** The round trip: any Reads of a fresh descriptor that ask for enough return the concatenated buffers. */
  lemma RoundTrip(bpc: nat, s: Session, calls: seq<Call>, lens: seq<nat>)
    requires Valid(bpc, s) && s.cursor == FRESH && calls != [] && GoodRun(bpc, s, calls)
    requires |Concat(calls)| < 0x1_0000_0000 && Sum(lens) >= |Concat(calls)|
    ensures Valid(bpc, Final(bpc, s, calls))
    ensures ReadAll(FileBytes(bpc, Final(bpc, s, calls)), 0, lens) == Concat(calls)
  {
    hide Valid;
    WrittenIsRead(bpc, s, calls);
    ReadsAreConsecutive(FileBytes(bpc, Final(bpc, s, calls)), 0, lens);
  }

  // ---------------------------------------------------------------- when a call is smooth

  /** A first call on an empty file is smooth: it allocates all its clusters at once and walks through them. */
  lemma FirstCallIsSmooth(bpc: nat, s: Session, len: nat)
    requires Valid(bpc, s) && CanStart(bpc, s, len) && s.entry.first == 0
    ensures Smooth(bpc, s, len)
  {
    NumClusterStep(len, bpc);
    StartMakesReady(bpc, s, len);
  }

  lemma NumClusterAtMost(bytes: nat, a: nat, bpc: nat)
    requires bpc > 0
    ensures NumCluster(bytes, bpc) <= a <==> bytes <= a * bpc
  {
    NumClusterCovers(bytes, bpc);
    var n := NumCluster(bytes, bpc);
    if n <= a {
      MulLe(n, a, bpc);
    } else {
      MulLe(a + 1, n, bpc);
      assert (a + 1) * bpc == a * bpc + bpc;
    }
  }

  /**
   * What a caller can check before: a call on a file with clusters is smooth exactly if it ends at
   * most one cluster behind the end of the chain.
   */
  lemma SmoothIff(bpc: nat, s: Session, len: nat)
    requires Valid(bpc, s) && s.entry.first != 0 && s.cursor.off == s.k * bpc + s.cursor.clusterOff
    ensures Smooth(bpc, s, len) <==> s.cursor.off + len <= (|s.chains[s.entry.first]| + 1) * bpc
  {
    StartMakesReady(bpc, s, len);
    LackingAtMostOne(bpc, |s.chains[s.entry.first]|, s.k, s.cursor.clusterOff, len);
  }

  lemma LackingAtMostOne(bpc: nat, size: nat, k: nat, off: nat, len: nat)
    requires bpc > 0 && k < size && off <= bpc
    ensures Lacking(size, k, CallRounds(bpc, off, len)) <= 1 <==> k * bpc + off + len <= (size + 1) * bpc
  {
    var a := size - k;
    var full := if off == bpc then len else if len <= bpc - off then 0 else len - (bpc - off);
    NumClusterStep(full, bpc);
    NumClusterAtMost(full, a, bpc);
    hide NumCluster;
    assert (size + 1) * bpc == k * bpc + a * bpc + bpc;
    MulLe(0, a, bpc);
  }

  /** A session in step stands where SmoothIff wants it. */
  lemma InStepPosition(bpc: nat, s: Session)
    requires InStep(bpc, s) && s.entry.first != 0
    ensures s.cursor.off == s.k * bpc + s.cursor.clusterOff
  {
    ValidInTable(bpc, s);
    UptoIsPrefix(bpc, s.disk.data, s.chains[s.entry.first], s.k, s.cursor.clusterOff);
  }

  /** How many clusters of the chain a call passes without writing them. */
  lemma SkippedCount(size: nat, k: nat, q: nat)
    requires k < size
    ensures var m := Lacking(size, k, q);
            EndPlace(size, k, q) - (k + q) == if m == 0 then 0 else Triangle(m - 1)
  {
  }

  /**
   * A call that lacks m clusters makes the chain m(m+1)/2 clusters longer, and its writer ends m(m-1)/2 clusters
   * further than those it went through.
   */
  lemma LongCall(bpc: nat, t: Session, buf: nat -> Byte, len: nat)
    requires Ready(bpc, t) && Needs(bpc, t, len) <= |FreeFrom(t.disk.fat, FIRST_CLUSTER)|
    ensures var t', h, size := Stepped(bpc, t, buf, len), t.entry.first, |t.chains[t.entry.first]|;
            var q := CallRounds(bpc, t.cursor.clusterOff, len);
            var m := Lacking(size, t.k, q);
            && h in t'.chains && 2 * (|t'.chains[h]| - size) == m * (m + 1)
            && 2 * (t'.k - (t.k + q)) == m * (m - 1)
  {
    hide WriteLoop, Chains, FreeFrom, CallRounds, CallTotal, Triangle;
    var h := t.entry.first;
    var q := CallRounds(bpc, t.cursor.clusterOff, len);
    var m := Lacking(|t.chains[h]|, t.k, q);
    TriangleIs(m);
    SkippedCount(|t.chains[h]|, t.k, q);
    if m > 0 {
      TriangleIs(m - 1);
    }
  }

  /**
   * A call that is not smooth cannot be read back: behind the old end of the chain the file goes on
   * with what the lowest free cluster held before, whatever the buffer says.
   */
  lemma UnsmoothLeavesStaleBytes(bpc: nat, s: Session, buf: nat -> Byte, len: nat)
    requires Valid(bpc, s) && s.entry.first != 0 && Enough(bpc, s, len) && !Smooth(bpc, s, len)
    ensures Valid(bpc, After(bpc, s, buf, len))
    ensures |FreeFrom(s.disk.fat, FIRST_CLUSTER)| > 0
    ensures var s', n := After(bpc, s, buf, len), |s.chains[s.entry.first]|;
            var c := FreeFrom(s.disk.fat, FIRST_CLUSTER)[0];
            && c < |s.disk.data| == |s'.disk.data|
            && n < |Clusters(bpc, s')|
            && Clusters(bpc, s')[n] == c
            && s'.disk.data[c] == s.disk.data[c]
  {
    StartMakesReady(bpc, s, len);
    var t := Started(bpc, s, len);
    StepLeavesStale(bpc, t, buf, len);
  }

  lemma StepLeavesStale(bpc: nat, t: Session, buf: nat -> Byte, len: nat)
    requires Ready(bpc, t) && Needs(bpc, t, len) <= |FreeFrom(t.disk.fat, FIRST_CLUSTER)|
    requires Lacking(|t.chains[t.entry.first]|, t.k, CallRounds(bpc, t.cursor.clusterOff, len)) > 1
    ensures |FreeFrom(t.disk.fat, FIRST_CLUSTER)| > 0
    ensures var t', h, n := Stepped(bpc, t, buf, len), t.entry.first, |t.chains[t.entry.first]|;
            var c := FreeFrom(t.disk.fat, FIRST_CLUSTER)[0];
            && Valid(bpc, t')
            && t'.entry.first == h
            && c < |t.disk.data| == |t'.disk.data|
            && n < |t'.chains[h]|
            && t'.chains[h][n] == c
            && t'.disk.data[c] == t.disk.data[c]
  {
    ReadyInTable(bpc, t);
    var h, k, off := t.entry.first, t.k, t.cursor.clusterOff;
    var cs, q := t.chains[h], CallRounds(bpc, off, len);
    ReadyStep(bpc, t, buf, len);
    ReadyInTable(bpc, Stepped(bpc, t, buf, len));
    TriangleGrows(Lacking(|cs|, k, q));
    AddedAt(t.disk.fat, t.chains, h, Needed(|cs|, k, q), 0);
    var part := Part(bpc, t.disk, cs[k], off, buf, len);
    LoopPart(bpc, t.disk, cs[k], off, buf, len);
    PartAppends(bpc, t.disk, t.chains, h, k, off, buf, len);
    PartRounds(bpc, t.disk, cs[k], off, buf, len);
    SkippedClustersAreStale(bpc, part.disk, t.chains, h, k, buf, len, part.total, 0);
    PartMissesFree(bpc, t.disk, t.chains, h, k, off, buf, len);
  }

  lemma PartMissesFree(bpc: nat, d: Disk, chains: map<nat, seq<nat>>, h: nat, k: nat, off: nat, buf: nat -> Byte,
                       len: nat)
    requires Place(bpc, d, chains, h, k) && off <= bpc && |FreeFrom(d.fat, FIRST_CLUSTER)| > 0
    ensures chains[h][k] < |d.fat|
    ensures var c, data' := FreeFrom(d.fat, FIRST_CLUSTER)[0], Part(bpc, d, chains[h][k], off, buf, len).disk.data;
            c < |d.data| == |data'| && data'[c] == d.data[c]
  {
    FreeIsInNoChain(d.fat, chains, h, chains[h][k]);
    FreeFromIsExact(d.fat, FIRST_CLUSTER);
    assert FreeFrom(d.fat, FIRST_CLUSTER)[0] in FreeFrom(d.fat, FIRST_CLUSTER);
  }

  // ---------------------------------------------------------------- the round trip of one call, exactly

  /** After a call the file reads as these bytes. */
  ghost predicate Reads(bpc: nat, s: Session, content: seq<Byte>) {
    Valid(bpc, s) && FileBytes(bpc, s) == content
  }

  lemma InStepIsAhead(bpc: nat, s: Session)
    requires InStep(bpc, s)
    ensures Ahead(bpc, s)
  {
    if s.entry.first != 0 {
      InStepPosition(bpc, s);
    }
  }

  /** The file has as many bytes as the writer counted, also when it counted more than it was given. */
  lemma AfterLength(bpc: nat, s: Session, buf: nat -> Byte, len: nat)
    requires InStep(bpc, s) && Enough(bpc, s, len)
    requires s.cursor.off + CallTotal(bpc, s.cursor.clusterOff, len) < 0x1_0000_0000
    ensures var s' := After(bpc, s, buf, len);
            Valid(bpc, s') && s'.entry.size == |FileBytes(bpc, s')|
                == s.cursor.off + CallTotal(bpc, s.cursor.clusterOff, len)
  {
    hide Stepped, Started, NumCluster;
    InStepIsAhead(bpc, s);
    hide After, Enough, InStep, CallTotal, Ahead;
    AfterCounts(bpc, s, buf, len);
    ChainCoversSize(bpc, s, buf, len);
    var s' := After(bpc, s, buf, len);
    ValidInTable(bpc, s');
    hide Flat, Chains;
    FlatLength(s'.disk.data, Clusters(bpc, s'), bpc);
  }

  /** Where the first byte of a cluster stands in the chain. */
  lemma ChainByteAt(bpc: nat, data: seq<seq<Byte>>, cs: seq<nat>, n: nat, at: nat)
    requires n < |cs| && (forall i | 0 <= i < |cs| :: cs[i] < |data|)
             && (forall c | 0 <= c < |data| :: |data[c]| == bpc)
    requires at == Strides(n, bpc) && bpc > 0
    ensures at < |Flat(data, cs)| && Flat(data, cs)[at] == data[cs[n]][0]
  {
    FlatLength(data, cs[..n], bpc);
    FlatAt(data, cs, n);
    hide Flat;
    var rest :| Flat(data, cs) == Flat(data, cs[..n]) + data[cs[n]] + rest;
  }

  /** And in the file. */
  lemma FileByteAt(bpc: nat, s: Session, n: nat, at: nat)
    requires Valid(bpc, s) && n < |Clusters(bpc, s)| && at == Strides(n, bpc) && at < s.entry.size && bpc > 0
    ensures Clusters(bpc, s)[n] < |s.disk.data| && |s.disk.data[Clusters(bpc, s)[n]]| == bpc
    ensures at < |FileBytes(bpc, s)| && FileBytes(bpc, s)[at] == s.disk.data[Clusters(bpc, s)[n]][0]
  {
    hide Flat, Chains, Strides;
    ValidInTable(bpc, s);
    assert forall i | 0 <= i < |Clusters(bpc, s)| :: Clusters(bpc, s)[i] in Clusters(bpc, s);
    ChainByteAt(bpc, s.disk.data, Clusters(bpc, s), n, at);
  }

  /** A call that is not smooth ends more than a cluster behind the old end of the chain. */
  lemma UnsmoothEndsFar(bpc: nat, s: Session, len: nat)
    requires InStep(bpc, s) && s.entry.first != 0 && CanStart(bpc, s, len) && !Smooth(bpc, s, len)
    ensures bpc > 0
    ensures var n := |s.chains[s.entry.first]|;
            s.cursor.off <= n * bpc && (n + 1) * bpc < s.cursor.off + CallTotal(bpc, s.cursor.clusterOff, len)
            && (n + 1) * bpc < s.cursor.off + len
  {
    hide Smooth, CallTotal, Text, Chains;
    InStepPosition(bpc, s);
    SmoothIff(bpc, s, len);
    ExactIff(bpc, s.cursor.clusterOff, len);
    var n := |s.chains[s.entry.first]|;
    MulLe(s.k + 1, n, bpc);
    assert (s.k + 1) * bpc == s.k * bpc + bpc;
  }

  /** The file goes beyond its n-th cluster, which begins with the first of these stale bytes. */
  ghost predicate ReadsStale(bpc: nat, s: Session, n: nat, stale: seq<Byte>) {
    && Valid(bpc, s) && bpc > 0 && |stale| == bpc
    && n * bpc < (n + 1) * bpc < s.entry.size == |FileBytes(bpc, s)|
    && FileBytes(bpc, s)[n * bpc] == stale[0]
  }

  /**
   * So the stale cluster lies in the file: its first byte is read at the old end of the chain, whatever was written.
   */
  lemma StaleByteIsRead(bpc: nat, s: Session, buf: nat -> Byte, len: nat)
    requires InStep(bpc, s) && s.entry.first != 0 && Enough(bpc, s, len) && !Smooth(bpc, s, len)
    requires s.cursor.off + CallTotal(bpc, s.cursor.clusterOff, len) < 0x1_0000_0000
    ensures |FreeFrom(s.disk.fat, FIRST_CLUSTER)| > 0 && FreeFrom(s.disk.fat, FIRST_CLUSTER)[0] < |s.disk.data|
    ensures s.entry.first in s.chains
    ensures ReadsStale(bpc, After(bpc, s, buf, len), |s.chains[s.entry.first]|,
                       s.disk.data[FreeFrom(s.disk.fat, FIRST_CLUSTER)[0]])
  {
    hide After, Smooth, CallTotal, Chains, FreeFrom, FileBytes, Text, Enough;
    var s', n := After(bpc, s, buf, len), |s.chains[s.entry.first]|;
    UnsmoothEndsFar(bpc, s, len);
    UnsmoothLeavesStaleBytes(bpc, s, buf, len);
    AfterLength(bpc, s, buf, len);
    assert (n + 1) * bpc == n * bpc + bpc;
    FileByteAt(bpc, s', n, n * bpc);
  }

  /** A buffer whose bytes all differ from a given one. */
  function Other(b: Byte): nat -> Byte {
    if b == 0 then (i: nat) => 1 else (i: nat) => 0
  }

  /** A call that is not smooth loses some buffer. */
  lemma UnsmoothLoses(bpc: nat, s: Session, len: nat)
    requires InStep(bpc, s) && s.entry.first != 0 && Enough(bpc, s, len) && !Smooth(bpc, s, len)
    requires s.cursor.off + CallTotal(bpc, s.cursor.clusterOff, len) < 0x1_0000_0000
    ensures exists buf :: !Reads(bpc, After(bpc, s, buf, len), Text(bpc, s) + Bytes(buf, 0, len))
  {
    hide After, Smooth, CallTotal, Chains, FreeFrom, FileBytes, Text, Enough;
    UnsmoothEndsFar(bpc, s, len);
    var n, none := |s.chains[s.entry.first]|, (i: nat) => 0 as Byte;
    StaleByteIsRead(bpc, s, none, len);
    var b := s.disk.data[FreeFrom(s.disk.fat, FIRST_CLUSTER)[0]][0];
    var buf := Other(b);
    StaleByteIsRead(bpc, s, buf, len);
    var expected := Text(bpc, s) + Bytes(buf, 0, len);
    assert (n + 1) * bpc == n * bpc + bpc;
    assert expected[n * bpc] == buf(n * bpc - s.cursor.off) != b;
    assert !Reads(bpc, After(bpc, s, buf, len), expected);
  }

  lemma FirstIsSmooth(bpc: nat, s: Session, len: nat)
    requires Valid(bpc, s) && Enough(bpc, s, len) && s.entry.first == 0
    ensures Smooth(bpc, s, len)
  {
    FirstCallIsSmooth(bpc, s, len);
  }

  /**
   * Behind calls that could be read back, the next one can, whatever its buffer holds, if and only if it is smooth
   * and returns the length it was given.
   */
  lemma CallRoundTripsIff(bpc: nat, s: Session, len: nat)
    requires InStep(bpc, s) && Enough(bpc, s, len)
    requires s.cursor.off + CallTotal(bpc, s.cursor.clusterOff, len) < 0x1_0000_0000
    ensures (forall buf :: Reads(bpc, After(bpc, s, buf, len), Text(bpc, s) + Bytes(buf, 0, len)))
       <==> Smooth(bpc, s, len) && CallTotal(bpc, s.cursor.clusterOff, len) == len
  {
    hide After, Smooth, CallTotal, Chains, FreeFrom, FileBytes, Text, Needs;
    if !Smooth(bpc, s, len) {
      if s.entry.first == 0 {
        FirstIsSmooth(bpc, s, len);
      } else {
        UnsmoothLoses(bpc, s, len);
      }
    } else if CallTotal(bpc, s.cursor.clusterOff, len) != len {
      var buf := Other(0);
      AfterLength(bpc, s, buf, len);
      assert !Reads(bpc, After(bpc, s, buf, len), Text(bpc, s) + Bytes(buf, 0, len));
    } else {
      forall buf
        ensures Reads(bpc, After(bpc, s, buf, len), Text(bpc, s) + Bytes(buf, 0, len))
      {
        GoodStep(bpc, s, buf, len);
        TextIsFile(bpc, s, After(bpc, s, buf, len), len);
      }
    }
  }

  // ---------------------------------------------------------------- inputs that fail

  /** With clusters of 512 bytes, a write of 513 bytes to the start of a file returns 1024. */
  lemma InexactCall()
    ensures CallTotal(512, 0, 513) == 1024
  {
  }

  /** A first write of 512 bytes to an empty file fills one cluster of 512 bytes. */
  lemma FirstCluster(s: Session, buf: nat -> Byte)
    requires Valid(512, s) && s.entry.first == 0 && Enough(512, s, 512)
    ensures var s' := After(512, s, buf, 512);
            && Valid(512, s') && s'.entry.first in s'.chains && |s'.chains[s'.entry.first]| == 1
            && s'.cursor.off == 512 && s'.cursor.clusterOff == 512 && s'.k == 0
  {
    StartMakesReady(512, s, 512);
    var t := Started(512, s, 512);
    assert CallRounds(512, 0, 512) == 0;
    ReadyStep(512, t, buf, 512);
    WriteCall(512, t.disk, t.chains, t.entry.first, 0, 0, buf, 512);
    ReadyInTable(512, Stepped(512, t, buf, 512));
    hide WriteLoop, Chains, FreeFrom;
  }

  /** With clusters of 512 bytes, a second write of 512 bytes leaves no gap behind the first, one of 513 bytes does. */
  lemma UnsmoothCall(s: Session, buf: nat -> Byte)
    requires Valid(512, s) && s.entry.first == 0 && Enough(512, s, 512)
    ensures Valid(512, After(512, s, buf, 512)) && After(512, s, buf, 512).entry.first != 0
    ensures !Smooth(512, After(512, s, buf, 512), 513) && Smooth(512, After(512, s, buf, 512), 512)
  {
    hide After, Enough;
    var s' := After(512, s, buf, 512);
    FirstCluster(s, buf);
    AfterCounts(512, s, buf, 512);
    hide Chains;
    SmoothIff(512, s', 513);
    SmoothIff(512, s', 512);
  }
}
