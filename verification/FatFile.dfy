/**
 * What reading and writing do to the clusters of a file (kernel/fat.cpp), on volume values.
 * The class in FatVolume.dfy is proved against these functions.
 */
module FatFile {
  import opened Division
  import opened FatChains
  import Words

  type Byte = Words.Byte

  /** The table and the contents of every cluster. */
  datatype Disk = Disk(fat: seq<nat>, data: seq<seq<Byte>>)

  ghost predicate WellFormed(bpc: nat, d: Disk) {
    && bpc > 0
    && ValidFat(d.fat)
    && |d.data| == |d.fat|
    && forall c | 0 <= c < |d.data| :: |d.data[c]| == bpc
  }

  // ---------------------------------------------------------------- the bytes of a chain

  /** The contents of some clusters, one behind the other. */
  ghost function Flat<T>(data: seq<seq<T>>, cs: seq<nat>): seq<T>
    requires forall i | 0 <= i < |cs| :: cs[i] < |data|
  {
    if cs == [] then [] else Flat(data, cs[..|cs| - 1]) + data[Last(cs)]
  }

  lemma FlatStep<T>(data: seq<seq<T>>, cs: seq<nat>, c: nat)
    requires c < |data| && forall i | 0 <= i < |cs| :: cs[i] < |data|
    ensures Flat(data, []) == []
    ensures Flat(data, cs + [c]) == Flat(data, cs) + data[c]
  {
    assert (cs + [c])[..|cs + [c]| - 1] == cs;
  }

  lemma Associate<T>(a: seq<T>, b: seq<T>, c: seq<T>)
    ensures a + b + c == a + (b + c)
  {
  }

  lemma {:induction false} FlatAppend<T>(data: seq<seq<T>>, cs: seq<nat>, ds: seq<nat>)
    requires forall i | 0 <= i < |cs| :: cs[i] < |data|
    requires forall i | 0 <= i < |ds| :: ds[i] < |data|
    ensures Flat(data, cs + ds) == Flat(data, cs) + Flat(data, ds)
    decreases |ds|
  {
    if ds == [] {
      assert cs + ds == cs;
    } else {
      hide Flat;
      var init, last := ds[..|ds| - 1], Last(ds);
      FlatAppend(data, cs, init);
      FlatStep(data, cs + init, last);
      FlatStep(data, init, last);
      assert ds == init + [last] && cs + ds == cs + init + [last];
      Associate(Flat(data, cs), Flat(data, init), data[last]);
    }
  }

  /** Cluster k of a chain holds the bytes behind those of the first k clusters. */
  lemma FlatAt<T>(data: seq<seq<T>>, cs: seq<nat>, k: nat)
    requires k < |cs| && forall i | 0 <= i < |cs| :: cs[i] < |data|
    ensures Flat(data, cs[..k + 1]) == Flat(data, cs[..k]) + data[cs[k]]
    ensures exists rest :: Flat(data, cs) == Flat(data, cs[..k]) + data[cs[k]] + rest
  {
    assert cs[..k + 1][..k] == cs[..k];
    FlatAppend(data, cs[..k + 1], cs[k + 1..]);
    assert cs == cs[..k + 1] + cs[k + 1..];
    var rest := Flat(data, cs[k + 1..]);
    assert Flat(data, cs) == Flat(data, cs[..k]) + data[cs[k]] + rest;
  }

  lemma {:induction false} FlatLength<T>(data: seq<seq<T>>, cs: seq<nat>, bpc: nat)
    requires forall i | 0 <= i < |cs| :: cs[i] < |data|
    requires forall c | 0 <= c < |data| :: |data[c]| == bpc
    ensures |Flat(data, cs)| == |cs| * bpc
    decreases |cs|
  {
    if cs != [] {
      FlatLength(data, cs[..|cs| - 1], bpc);
      assert |cs| * bpc == (|cs| - 1) * bpc + bpc;
    }
  }

  lemma {:induction false} FlatKept<T>(data: seq<seq<T>>, data': seq<seq<T>>, cs: seq<nat>)
    requires |data'| == |data| && forall i | 0 <= i < |cs| :: cs[i] < |data| && data'[cs[i]] == data[cs[i]]
    ensures Flat(data', cs) == Flat(data, cs)
    decreases |cs|
  {
    if cs != [] {
      FlatKept(data, data', cs[..|cs| - 1]);
    }
  }

  /** The bytes of a chain in front of offset off in its cluster k. */
  ghost function Upto(data: seq<seq<Byte>>, cs: seq<nat>, k: nat, off: nat): seq<Byte>
    requires forall i | 0 <= i < |cs| :: cs[i] < |data|
    requires k < |cs| && off <= |data[cs[k]]|
  {
    Flat(data, cs[..k]) + data[cs[k]][..off]
  }

  /** They are a prefix of the whole chain, k clusters and off bytes long. */
  lemma UptoIsPrefix(bpc: nat, data: seq<seq<Byte>>, cs: seq<nat>, k: nat, off: nat)
    requires forall i | 0 <= i < |cs| :: cs[i] < |data|
    requires forall c | 0 <= c < |data| :: |data[c]| == bpc
    requires k < |cs| && off <= bpc
    ensures |Upto(data, cs, k, off)| == k * bpc + off <= |Flat(data, cs)|
    ensures Upto(data, cs, k, off) == Flat(data, cs)[..k * bpc + off]
  {
    FlatLength(data, cs[..k], bpc);
    FlatAt(data, cs, k);
    var rest :| Flat(data, cs) == Flat(data, cs[..k]) + data[cs[k]] + rest;
    assert data[cs[k]] == data[cs[k]][..off] + data[cs[k]][off..];
  }

  /** Bytes [from, to) of the memory that a buffer pointer points at. */
  function Bytes(buf: nat -> Byte, from: nat, to: nat): (r: seq<Byte>)
    requires from <= to
    ensures |r| == to - from
  {
    seq(to - from, i requires 0 <= i < to - from => buf(from + i))
  }

  lemma BytesConcat(buf: nat -> Byte, from: nat, mid: nat, to: nat)
    requires from <= mid <= to
    ensures Bytes(buf, from, mid) + Bytes(buf, mid, to) == Bytes(buf, from, to)
  {
  }

  /** A cluster after n bytes of the buffer were copied to offset off. */
  function Patched(sec: seq<Byte>, off: nat, buf: nat -> Byte, from: nat, n: nat): (r: seq<Byte>)
    requires off + n <= |sec|
    ensures |r| == |sec|
  {
    sec[..off] + Bytes(buf, from, from + n) + sec[off + n..]
  }

  // ---------------------------------------------------------------- clusters for a number of bytes

  function NumCluster(bytes: nat, bpc: nat): nat
    requires bpc > 0
  {
    (bytes + bpc - 1) / bpc
  }

  lemma DivideOneMore(x: nat, b: nat)
    requires b > 0
    ensures (x + b) / b == x / b + 1
  {
    var q, r := x / b, x % b;
    Divide(q + 1, r, b);
    assert (q + 1) * b + r == x + b;
  }

  /** One cluster for each started run of bpc bytes. */
  lemma NumClusterStep(bytes: nat, bpc: nat)
    requires bpc > 0
    ensures bytes == 0 ==> NumCluster(bytes, bpc) == 0
    ensures 0 < bytes <= bpc ==> NumCluster(bytes, bpc) == 1
    ensures bytes >= bpc ==> NumCluster(bytes, bpc) == 1 + NumCluster(bytes - bpc, bpc)
    ensures bytes > 0 ==> NumCluster(bytes, bpc) > 0
  {
    if 0 < bytes {
      DivideOneMore(bytes - 1, bpc);
    }
  }

  // ---------------------------------------------------------------- the write loop

  datatype Rolled = Rolled(fat: seq<nat>, cluster: nat, off: nat) | NoCluster

  /** The writer's cluster after the check for a full one: the same, the next one, or the last of a new run. */
  ghost function RollOver(bpc: nat, fat: seq<nat>, cluster: nat, off: nat, left: nat): (r: Rolled)
    requires bpc > 0 && cluster < |fat| && off <= bpc && left > 0
    ensures r.Rolled? ==> |r.fat| == |fat| && r.cluster < |fat| && r.off < bpc
  {
    if off != bpc then Rolled(fat, cluster, off)
    else if !IsEndOfClusterchain(fat[cluster]) then
      if fat[cluster] < |fat| then Rolled(fat, fat[cluster], 0) else NoCluster
    else
      var n := NumCluster(left, bpc);
      NumClusterStep(left, bpc);
      if n <= |FreeFrom(fat, FIRST_CLUSTER)| then
        LowestFreeFacts(fat, n);
        Rolled(Extended(fat, cluster, n), Last(LowestFree(fat, n)), 0)
      else NoCluster
  }

  /** PastTable: the scan for free clusters runs past the end of the table. */
  datatype WriteResult = Written(disk: Disk, cluster: nat, off: nat, total: nat) | PastTable

  ghost function WriteLoop(bpc: nat, d: Disk, cluster: nat, off: nat, buf: nat -> Byte, len: nat,
                           total: nat): WriteResult
    requires WellFormed(bpc, d) && cluster < |d.fat| && off <= bpc
    decreases if total < len then len - total else 0
  {
    if total >= len then Written(d, cluster, off, total)
    else match RollOver(bpc, d.fat, cluster, off, len - total)
      case NoCluster => PastTable
      case Rolled(fat1, c1, off1) =>
        var n := Min(len, bpc - off1);
        var d1 := Disk(fat1, d.data[c1 := Patched(d.data[c1], off1, buf, total, n)]);
        WriteLoop(bpc, d1, c1, off1 + n, buf, len, total + n)
  }

  // ---------------------------------------------------------------- a writer on a chain

  /** The chains after the n lowest free clusters were added to chain h. */
  ghost function GrownBy(fat: seq<nat>, chains: map<nat, seq<nat>>, h: nat, n: nat): map<nat, seq<nat>>
    requires h in chains && n <= |FreeFrom(fat, FIRST_CLUSTER)|
  {
    chains[h := chains[h] + LowestFree(fat, n)]
  }

  /** The volume consists of these chains and a writer stands in cluster k of chain h. */
  ghost predicate Place(bpc: nat, d: Disk, chains: map<nat, seq<nat>>, h: nat, k: nat) {
    && WellFormed(bpc, d)
    && Chains(d.fat, chains)
    && h in chains
    && k < |chains[h]|
  }

  /** The contents differ at most in clusters behind number k of the chain. */
  ghost predicate OnlyBehind(data: seq<seq<Byte>>, data': seq<seq<Byte>>, cs: seq<nat>, k: int)
    requires -1 <= k
  {
    && |data'| == |data|
    && forall c | 0 <= c < |data| && data'[c] != data[c] :: exists i :: k < i < |cs| && cs[i] == c
  }

  /**
   * The writer went on from cluster k to cluster k' of chain h, to which the n lowest free clusters
   * were added; no cluster was written but those behind k.
   */
  ghost predicate Advanced(bpc: nat, d: Disk, chains: map<nat, seq<nat>>, h: nat, k: nat, n: nat, k': nat,
                           r: WriteResult) {
    && h in chains
    && k <= k'
    && n <= |FreeFrom(d.fat, FIRST_CLUSTER)|
    && r.Written?
    && r.off <= bpc
    && var chains' := GrownBy(d.fat, chains, h, n);
    && Place(bpc, r.disk, chains', h, k')
    && r.cluster == chains'[h][k']
    && |r.disk.fat| == |d.fat| == |d.data|
    && FreeFrom(r.disk.fat, FIRST_CLUSTER) == FreeFrom(d.fat, FIRST_CLUSTER)[n..]
    && OnlyBehind(d.data, r.disk.data, chains'[h], k)
  }

  lemma GrownTwice(fat: seq<nat>, chains: map<nat, seq<nat>>, h: nat, n: nat, fat1: seq<nat>, n2: nat)
    requires h in chains && n <= |FreeFrom(fat, FIRST_CLUSTER)|
    requires FreeFrom(fat1, FIRST_CLUSTER) == FreeFrom(fat, FIRST_CLUSTER)[n..]
    requires n2 <= |FreeFrom(fat1, FIRST_CLUSTER)|
    ensures GrownBy(fat1, GrownBy(fat, chains, h, n), h, n2) == GrownBy(fat, chains, h, n + n2)
    ensures FreeFrom(fat1, FIRST_CLUSTER)[n2..] == FreeFrom(fat, FIRST_CLUSTER)[n + n2..]
  {
    var free := FreeFrom(fat, FIRST_CLUSTER);
    assert free[..n + n2] == free[..n] + free[n..][..n2];
    assert free[n..][n2..] == free[n + n2..];
    var cs, more, rest := chains[h], LowestFree(fat, n), LowestFree(fat1, n2);
    assert (cs + more) + rest == cs + (more + rest);
    SetTwice(chains, h, cs + more, cs + (more + rest));
  }

  lemma OnlyBehindTwice(data: seq<seq<Byte>>, data1: seq<seq<Byte>>, data2: seq<seq<Byte>>,
                        cs1: seq<nat>, cs2: seq<nat>, k: int, k1: int)
    requires -1 <= k <= k1
    requires OnlyBehind(data, data1, cs1, k) && OnlyBehind(data1, data2, cs2, k1)
    requires cs1 <= cs2
    ensures OnlyBehind(data, data2, cs2, k)
  {
    forall c | 0 <= c < |data| && data2[c] != data[c]
      ensures exists i :: k < i < |cs2| && cs2[i] == c
    {
      if data1[c] != data[c] {
        var i :| k < i < |cs1| && cs1[i] == c;
        assert cs2[i] == c;
      }
    }
  }

  lemma AdvanceTwice(bpc: nat, d: Disk, chains: map<nat, seq<nat>>, h: nat, k: nat, n: nat, k1: nat, r1: WriteResult,
                     n2: nat, k2: nat, r2: WriteResult)
    requires Advanced(bpc, d, chains, h, k, n, k1, r1)
    requires Advanced(bpc, r1.disk, GrownBy(d.fat, chains, h, n), h, k1, n2, k2, r2)
    ensures Advanced(bpc, d, chains, h, k, n + n2, k2, r2)
    ensures GrownBy(d.fat, chains, h, n + n2) == GrownBy(r1.disk.fat, GrownBy(d.fat, chains, h, n), h, n2)
  {
    GrownTwice(d.fat, chains, h, n, r1.disk.fat, n2);
    OnlyBehindTwice(d.data, r1.disk.data, r2.disk.data, GrownBy(d.fat, chains, h, n)[h],
                    GrownBy(d.fat, chains, h, n + n2)[h],
                    k, k1);
  }

  // ---------------------------------------------------------------- one round: a full cluster is left behind

  /** The cluster after one round that started at a full cluster, when it rolled over to cluster c1. */
  ghost function Round(bpc: nat, d: Disk, fat1: seq<nat>, c1: nat, buf: nat -> Byte, len: nat,
                       total: nat): (r: WriteResult)
    requires WellFormed(bpc, d) && |fat1| == |d.fat| && c1 < |d.fat|
    ensures r.Written? && WellFormed(bpc, r.disk) && r.disk.fat == fat1 && r.cluster == c1
    ensures r.off == Min(len, bpc) && r.total == total + r.off
  {
    var n := Min(len, bpc);
    Written(Disk(fat1, d.data[c1 := Patched(d.data[c1], 0, buf, total, n)]), c1, n, total + n)
  }

  lemma LoopRound(bpc: nat, d: Disk, cluster: nat, fat1: seq<nat>, c1: nat, buf: nat -> Byte, len: nat, total: nat)
    requires WellFormed(bpc, d) && cluster < |d.fat| && total < len
    requires RollOver(bpc, d.fat, cluster, bpc, len - total) == Rolled(fat1, c1, 0)
    ensures var r := Round(bpc, d, fat1, c1, buf, len, total);
            WriteLoop(bpc, d, cluster, bpc, buf, len, total)
                == WriteLoop(bpc, r.disk, r.cluster, r.off, buf, len, r.total)
  {
    hide Min;
  }

  lemma RoundAdvances(bpc: nat, d: Disk, chains: map<nat, seq<nat>>, h: nat, k: nat, n: nat, k1: nat, fat1: seq<nat>,
                      buf: nat -> Byte, len: nat, total: nat)
    requires WellFormed(bpc, d) && |fat1| == |d.fat| && h in chains && n <= |FreeFrom(d.fat, FIRST_CLUSTER)|
    requires Chains(fat1, GrownBy(d.fat, chains, h, n))
    requires k < k1 < |GrownBy(d.fat, chains, h, n)[h]|
    requires FreeFrom(fat1, FIRST_CLUSTER) == FreeFrom(d.fat, FIRST_CLUSTER)[n..]
    ensures GrownBy(d.fat, chains, h, n)[h][k1] < |d.fat|
    ensures Advanced(bpc, d, chains, h, k, n, k1,
                     Round(bpc, d, fat1, GrownBy(d.fat, chains, h, n)[h][k1], buf, len, total))
  {
    var cs := GrownBy(d.fat, chains, h, n)[h];
    assert IsChain(fat1, cs);
    var r := Round(bpc, d, fat1, cs[k1], buf, len, total);
    hide Chains, FreeFrom, GrownBy;
    forall c | 0 <= c < |d.data| && r.disk.data[c] != d.data[c]
      ensures exists i :: k < i < |cs| && cs[i] == c
    {
      assert cs[k1] == c;
    }
  }

  /** Inside the chain the writer goes to the next cluster. */
  lemma WalkRound(bpc: nat, d: Disk, chains: map<nat, seq<nat>>, h: nat, k: nat, buf: nat -> Byte, len: nat, total: nat)
    requires Place(bpc, d, chains, h, k) && k + 1 < |chains[h]| && total < len
    ensures chains[h][k + 1] < |d.fat|
    ensures var r := Round(bpc, d, d.fat, chains[h][k + 1], buf, len, total);
            && Advanced(bpc, d, chains, h, k, 0, k + 1, r)
            && WriteLoop(bpc, d, chains[h][k], bpc, buf, len, total)
                 == WriteLoop(bpc, r.disk, r.cluster, r.off, buf, len, r.total)
  {
    var cs := chains[h];
    assert IsChain(d.fat, cs);
    assert d.fat[cs[k]] == cs[k + 1];
    LoopRound(bpc, d, cs[k], d.fat, cs[k + 1], buf, len, total);
    hide WriteLoop, Chains;
    assert cs + LowestFree(d.fat, 0) == cs;
    assert GrownBy(d.fat, chains, h, 0) == chains;
    RoundAdvances(bpc, d, chains, h, k, 0, k + 1, d.fat, buf, len, total);
  }

  /** What a writer that needs n clusters finds at the end of the chain. */
  lemma RollOverAtEnd(bpc: nat, d: Disk, chains: map<nat, seq<nat>>, h: nat, left: nat)
    requires h in chains && chains[h] != [] && Place(bpc, d, chains, h, |chains[h]| - 1) && left > 0
    ensures var n := NumCluster(left, bpc);
            && 0 < n
            && Last(chains[h]) < |d.fat|
            && RollOver(bpc, d.fat, Last(chains[h]), bpc, left)
               == if n <= |FreeFrom(d.fat, FIRST_CLUSTER)|
                  then Rolled(Extended(d.fat, Last(chains[h]), n), Last(LowestFree(d.fat, n)), 0)
                  else NoCluster
  {
    NumClusterStep(left, bpc);
    assert IsChain(d.fat, chains[h]);
  }

  /**
   * At the end of the chain it adds a cluster for every started run of bytes that is left, and goes to the last one.
   */
  lemma ExtendRound(bpc: nat, d: Disk, chains: map<nat, seq<nat>>, h: nat, buf: nat -> Byte, len: nat, total: nat)
    requires h in chains && chains[h] != [] && Place(bpc, d, chains, h, |chains[h]| - 1) && total < len
    requires NumCluster(len - total, bpc) <= |FreeFrom(d.fat, FIRST_CLUSTER)|
    ensures Last(chains[h]) < |d.fat| && 0 < NumCluster(len - total, bpc)
    ensures var k, n, r := |chains[h]| - 1, NumCluster(len - total, bpc),
              ExtendedRound(bpc, d, chains, h, buf, len, total);
            && Advanced(bpc, d, chains, h, k, n, k + n, r)
            && WriteLoop(bpc, d, Last(chains[h]), bpc, buf, len, total)
               == WriteLoop(bpc, r.disk, r.cluster, r.off, buf, len, r.total)
  {
    var cs, n := chains[h], NumCluster(len - total, bpc);
    RollOverAtEnd(bpc, d, chains, h, len - total);
    var fat1, c1 := Extended(d.fat, Last(cs), n), Last(LowestFree(d.fat, n));
    LoopRound(bpc, d, Last(cs), fat1, c1, buf, len, total);
    hide WriteLoop;
    ExtendKeepsChains(d.fat, chains, h, n);
    hide Chains, FreeFrom;
    var k1 := |cs| - 1 + n;
    assert GrownBy(d.fat, chains, h, n)[h][k1] == c1;
    RoundAdvances(bpc, d, chains, h, |cs| - 1, n, k1, fat1, buf, len, total);
  }

  ghost function ExtendedRound(bpc: nat, d: Disk, chains: map<nat, seq<nat>>, h: nat, buf: nat -> Byte, len: nat,
                               total: nat)
    : (r: WriteResult)
    requires h in chains && chains[h] != [] && Place(bpc, d, chains, h, |chains[h]| - 1) && total < len
    requires NumCluster(len - total, bpc) <= |FreeFrom(d.fat, FIRST_CLUSTER)|
    ensures r.Written? && WellFormed(bpc, r.disk) && |r.disk.fat| == |d.fat| && r.cluster < |d.fat|
    ensures r.off == Min(len, bpc) && r.total == total + r.off
  {
    var n := NumCluster(len - total, bpc);
    NumClusterStep(len - total, bpc);
    LowestFreeFacts(d.fat, n);
    Round(bpc, d, Extended(d.fat, Last(chains[h]), n), Last(LowestFree(d.fat, n)), buf, len, total)
  }

  // ---------------------------------------------------------------- all rounds

  function Triangle(m: nat): nat {
    if m == 0 then 0 else m + Triangle(m - 1)
  }

  lemma {:induction false} TriangleIs(m: nat)
    ensures 2 * Triangle(m) == m * (m + 1)
  {
    if m > 0 {
      TriangleIs(m - 1);
    }
  }

  /** The rounds still to come when total bytes are written and the cluster is full. */
  function RoundsLeft(bpc: nat, len: nat, total: nat): nat
    requires bpc > 0
  {
    if total < len then NumCluster(len - total, bpc) else 0
  }

  lemma RoundsStep(bpc: nat, len: nat, total: nat)
    requires bpc > 0 && total < len
    ensures RoundsLeft(bpc, len, total) == 1 + RoundsLeft(bpc, len, total + Min(len, bpc))
  {
    NumClusterStep(len - total, bpc);
  }

  /** How many of the rounds find no cluster behind number k of a chain of that length. */
  function Lacking(size: nat, k: nat, rounds: nat): nat
    requires k < size
  {
    if rounds > size - 1 - k then rounds - (size - 1 - k) else 0
  }

  /** Every round that finds the chain at its end adds a cluster for each round that is left, itself included. */
  function Needed(size: nat, k: nat, rounds: nat): nat
    requires k < size
  {
    Triangle(Lacking(size, k, rounds))
  }

  function EndPlace(size: nat, k: nat, rounds: nat): nat
    requires k < size
  {
    if Lacking(size, k, rounds) == 0 then k + rounds else size + Needed(size, k, rounds) - 1
  }

  /** The bytes of a number of rounds of w bytes each. */
  function Strides(rounds: nat, w: nat): nat {
    rounds * w
  }

  /** The outcome of the write loop from a full cluster on, whatever it finds. */
  ghost predicate Outcome(bpc: nat, d: Disk, chains: map<nat, seq<nat>>, h: nat, k: nat, rounds: nat, len: nat,
                          total: nat, r: WriteResult)
    requires h in chains && k < |chains[h]|
  {
    if Needed(|chains[h]|, k, rounds) <= |FreeFrom(d.fat, FIRST_CLUSTER)| then
      Arrived(bpc, d, chains, h, k, rounds, len, total, r)
    else
      r == PastTable
  }

  /** All rounds were made. */
  ghost predicate Arrived(bpc: nat, d: Disk, chains: map<nat, seq<nat>>, h: nat, k: nat, rounds: nat, len: nat,
                          total: nat, r: WriteResult)
    requires h in chains && k < |chains[h]|
  {
    && Advanced(bpc, d, chains, h, k, Needed(|chains[h]|, k, rounds), EndPlace(|chains[h]|, k, rounds), r)
    && r.total == total + Strides(rounds, Min(len, bpc))
    && r.off == if rounds == 0 then bpc else Min(len, bpc)
  }

  lemma {:induction false} Rounds(bpc: nat, d: Disk, chains: map<nat, seq<nat>>, h: nat, k: nat, buf: nat -> Byte,
                                  len: nat, total: nat)
    requires Place(bpc, d, chains, h, k)
    ensures chains[h][k] < |d.fat|
    ensures Outcome(bpc, d, chains, h, k, RoundsLeft(bpc, len, total), len, total,
                    WriteLoop(bpc, d, chains[h][k], bpc, buf, len, total))
    decreases RoundsLeft(bpc, len, total)
  {
    hide WriteLoop, Outcome, Round, ExtendedRound, Advanced, Needed, GrownBy;
    var q, cs := RoundsLeft(bpc, len, total), chains[h];
    assert IsChain(d.fat, cs);
    if total >= len {
      NoRounds(bpc, d, chains, h, k, buf, len, total);
    } else if k + 1 < |cs| {
      WalkRound(bpc, d, chains, h, k, buf, len, total);
      RestOfRounds(bpc, d, chains, h, k, 0, k + 1, Round(bpc, d, d.fat, cs[k + 1], buf, len, total), buf, len, total);
    } else if q <= |FreeFrom(d.fat, FIRST_CLUSTER)| {
      RollOverAtEnd(bpc, d, chains, h, len - total);
      ExtendRound(bpc, d, chains, h, buf, len, total);
      RestOfRounds(bpc, d, chains, h, k, q, k + q, ExtendedRound(bpc, d, chains, h, buf, len, total), buf, len, total);
    } else {
      NoClusterForRounds(bpc, d, chains, h, k, buf, len, total);
    }
  }

  lemma NoRounds(bpc: nat, d: Disk, chains: map<nat, seq<nat>>, h: nat, k: nat, buf: nat -> Byte, len: nat, total: nat)
    requires Place(bpc, d, chains, h, k) && total >= len
    ensures chains[h][k] < |d.fat|
    ensures Outcome(bpc, d, chains, h, k, 0, len, total, WriteLoop(bpc, d, chains[h][k], bpc, buf, len, total))
  {
    assert IsChain(d.fat, chains[h]);
    assert WriteLoop(bpc, d, chains[h][k], bpc, buf, len, total) == Written(d, chains[h][k], bpc, total);
    assert GrownBy(d.fat, chains, h, 0) == chains by {
      assert chains[h] + LowestFree(d.fat, 0) == chains[h];
    }
    assert OnlyBehind(d.data, d.data, chains[h], k);
  }

  /** At the end of the chain with too few free clusters for the bytes that are left, the scan runs past the table. */
  lemma NoClusterForRounds(bpc: nat, d: Disk, chains: map<nat, seq<nat>>, h: nat, k: nat, buf: nat -> Byte, len: nat,
                           total: nat)
    requires Place(bpc, d, chains, h, k) && total < len && k + 1 == |chains[h]|
    requires RoundsLeft(bpc, len, total) > |FreeFrom(d.fat, FIRST_CLUSTER)|
    ensures chains[h][k] < |d.fat|
    ensures Outcome(bpc, d, chains, h, k, RoundsLeft(bpc, len, total), len, total,
                    WriteLoop(bpc, d, chains[h][k], bpc, buf, len, total))
  {
    RollOverAtEnd(bpc, d, chains, h, len - total);
    TriangleGrows(RoundsLeft(bpc, len, total));
  }

  lemma {:induction false} TriangleGrows(m: nat)
    ensures Triangle(m) >= m
  {
    if m > 0 {
      TriangleGrows(m - 1);
    }
  }

  /** What one round and the rounds behind it need adds up. */
  lemma NeededStep(size: nat, k: nat, n: nat, k1: nat, q: nat)
    requires k < size && q > 0
    requires k + 1 < size ==> n == 0 && k1 == k + 1
    requires k + 1 == size ==> n == q && k1 == k + n
    ensures k1 < size + n
    ensures n + Needed(size + n, k1, q - 1) == Needed(size, k, q)
    ensures EndPlace(size + n, k1, q - 1) == EndPlace(size, k, q)
  {
  }

  /** What the sizes of things say after an advance. */
  lemma AdvancedSizes(bpc: nat, d: Disk, chains: map<nat, seq<nat>>, h: nat, k: nat, n: nat, k1: nat, r: WriteResult)
    requires Advanced(bpc, d, chains, h, k, n, k1, r) && h in chains
    ensures r.Written? && n <= |FreeFrom(d.fat, FIRST_CLUSTER)| && h in GrownBy(d.fat, chains, h, n)
    ensures |GrownBy(d.fat, chains, h, n)[h]| == |chains[h]| + n && k1 < |chains[h]| + n
    ensures |FreeFrom(r.disk.fat, FIRST_CLUSTER)| == |FreeFrom(d.fat, FIRST_CLUSTER)| - n
    ensures FreeFrom(r.disk.fat, FIRST_CLUSTER) == FreeFrom(d.fat, FIRST_CLUSTER)[n..]
  {
  }

  lemma StridesStep(q: nat, w: nat)
    requires q > 0
    ensures Strides(q, w) == w + Strides(q - 1, w)
  {
  }

  /** One round and the outcome of the rounds behind it make up the outcome of all. */
  lemma OutcomeTwice(bpc: nat, d: Disk, chains: map<nat, seq<nat>>, h: nat, k: nat, n: nat, k1: nat, r: WriteResult,
                     q: nat, len: nat, total: nat, r2: WriteResult)
    requires h in chains && k < |chains[h]| && q > 0
    requires Advanced(bpc, d, chains, h, k, n, k1, r)
    requires r.off == bpc == Min(len, bpc) && r.total == total + Min(len, bpc)
    requires k + 1 < |chains[h]| ==> n == 0 && k1 == k + 1
    requires k + 1 == |chains[h]| ==> n == q && k1 == k + n
    requires Outcome(bpc, r.disk, GrownBy(d.fat, chains, h, n), h, k1, q - 1, len, r.total, r2)
    ensures Outcome(bpc, d, chains, h, k, q, len, total, r2)
  {
    hide Needed, FreeFrom, Min, Advanced, GrownBy, Arrived;
    NeededStep(|chains[h]|, k, n, k1, q);
    AdvancedSizes(bpc, d, chains, h, k, n, k1, r);
    if Needed(|chains[h]| + n, k1, q - 1) <= |FreeFrom(r.disk.fat, FIRST_CLUSTER)| {
      ArrivedTwice(bpc, d, chains, h, k, n, k1, r, q, len, total, r2);
    }
  }

  lemma ArrivedTwice(bpc: nat, d: Disk, chains: map<nat, seq<nat>>, h: nat, k: nat, n: nat, k1: nat, r: WriteResult,
                     q: nat, len: nat, total: nat, r2: WriteResult)
    requires h in chains && k < |chains[h]| && q > 0
    requires Advanced(bpc, d, chains, h, k, n, k1, r)
    requires r.off == bpc == Min(len, bpc) && r.total == total + Min(len, bpc)
    requires k + 1 < |chains[h]| ==> n == 0 && k1 == k + 1
    requires k + 1 == |chains[h]| ==> n == q && k1 == k + n
    requires Arrived(bpc, r.disk, GrownBy(d.fat, chains, h, n), h, k1, q - 1, len, r.total, r2)
    ensures Arrived(bpc, d, chains, h, k, q, len, total, r2)
  {
    hide Strides, Needed, EndPlace, FreeFrom, Min, Advanced, GrownBy;
    NeededStep(|chains[h]|, k, n, k1, q);
    StridesStep(q, Min(len, bpc));
    AdvancedSizes(bpc, d, chains, h, k, n, k1, r);
    AdvanceTwice(bpc, d, chains, h, k, n, k1, r, Needed(|chains[h]| + n, k1, q - 1),
                 EndPlace(|chains[h]| + n, k1, q - 1), r2);
  }

  /** A round that is the last one is the outcome. */
  lemma OutcomeOnce(bpc: nat, d: Disk, chains: map<nat, seq<nat>>, h: nat, k: nat, n: nat, k1: nat, r: WriteResult,
                    len: nat, total: nat)
    requires h in chains && k < |chains[h]|
    requires Advanced(bpc, d, chains, h, k, n, k1, r)
    requires r.off == Min(len, bpc) && r.total == total + Min(len, bpc)
    requires k + 1 < |chains[h]| ==> n == 0 && k1 == k + 1
    requires k + 1 == |chains[h]| ==> n == 1 && k1 == k + n
    ensures Outcome(bpc, d, chains, h, k, 1, len, total, r)
  {
    NeededStep(|chains[h]|, k, n, k1, 1);
    hide Place, FreeFrom, OnlyBehind;
  }

  lemma {:induction false} RestOfRounds(bpc: nat, d: Disk, chains: map<nat, seq<nat>>, h: nat, k: nat, n: nat, k1: nat,
                                        r: WriteResult, buf: nat -> Byte, len: nat, total: nat)
    requires Place(bpc, d, chains, h, k) && total < len
    requires Advanced(bpc, d, chains, h, k, n, k1, r)
    requires r.off == Min(len, bpc) && r.total == total + Min(len, bpc)
    requires k + 1 < |chains[h]| ==> n == 0 && k1 == k + 1
    requires k + 1 == |chains[h]| ==> n == RoundsLeft(bpc, len, total) && k1 == k + n
    ensures Outcome(bpc, d, chains, h, k, RoundsLeft(bpc, len, total), len, total,
                    WriteLoop(bpc, r.disk, r.cluster, r.off, buf, len, r.total))
    decreases RoundsLeft(bpc, len, total), 0
  {
    hide Outcome;
    var q := RoundsLeft(bpc, len, total);
    RoundsStep(bpc, len, total);
    if r.off == bpc {
      Rounds(bpc, r.disk, GrownBy(d.fat, chains, h, n), h, k1, buf, len, r.total);
      OutcomeTwice(bpc, d, chains, h, k, n, k1, r, q, len, total,
                   WriteLoop(bpc, r.disk, r.cluster, r.off, buf, len, r.total));
    } else {
      OutcomeOnce(bpc, d, chains, h, k, n, k1, r, len, total);
    }
  }

  // ---------------------------------------------------------------- the bytes the rounds leave in the chain

  /** The writer's chain now holds the buffer's bytes behind what was in front of the writer. */
  ghost predicate Appended(bpc: nat, d: Disk, cs: seq<nat>, k: nat, off: nat, r: WriteResult, cs': seq<nat>, k': nat,
                           buf: nat -> Byte, from: nat) {
    && WellFormed(bpc, d)
    && (forall i | 0 <= i < |cs| :: cs[i] < |d.data|)
    && k < |cs|
    && off <= bpc
    && r.Written?
    && WellFormed(bpc, r.disk)
    && (forall i | 0 <= i < |cs'| :: cs'[i] < |r.disk.data|)
    && k' < |cs'|
    && r.off <= bpc
    && from <= r.total
    && Upto(r.disk.data, cs', k', r.off) == Upto(d.data, cs, k, off) + Bytes(buf, from, r.total)
  }

  lemma AppendTwice(bpc: nat, d: Disk, cs: seq<nat>, k: nat, off: nat, r1: WriteResult, cs1: seq<nat>, k1: nat,
                    r2: WriteResult, cs2: seq<nat>, k2: nat, buf: nat -> Byte, from: nat)
    requires Appended(bpc, d, cs, k, off, r1, cs1, k1, buf, from)
    requires Appended(bpc, r1.disk, cs1, k1, r1.off, r2, cs2, k2, buf, r1.total)
    ensures Appended(bpc, d, cs, k, off, r2, cs2, k2, buf, from)
  {
    BytesConcat(buf, from, r1.total, r2.total);
    assert Upto(r2.disk.data, cs2, k2, r2.off)
        == Upto(d.data, cs, k, off) + (Bytes(buf, from, r1.total) + Bytes(buf, r1.total, r2.total));
  }

  /** One round that goes on to the next cluster of the chain appends its bytes. */
  lemma RoundAppends(bpc: nat, d: Disk, cs: seq<nat>, k: nat, fat1: seq<nat>, cs1: seq<nat>, buf: nat -> Byte,
                     len: nat, total: nat)
    requires WellFormed(bpc, d) && |fat1| == |d.fat| && IsChain(fat1, cs1) && cs <= cs1 && k < |cs| && k + 1 < |cs1|
    ensures Appended(bpc, d, cs, k, bpc, Round(bpc, d, fat1, cs1[k + 1], buf, len, total), cs1, k + 1, buf, total)
  {
    var r := Round(bpc, d, fat1, cs1[k + 1], buf, len, total);
    FlatAt(d.data, cs, k);
    assert d.data[cs[k]][..bpc] == d.data[cs[k]];
    var before := cs1[..k + 1];
    assert before == cs[..k + 1];
    forall i | 0 <= i < |before|
      ensures before[i] < |d.data| && r.disk.data[before[i]] == d.data[before[i]]
    {
      ChainIsAcyclic(fat1, cs1, i, k + 1);
    }
    FlatKept(d.data, r.disk.data, before);
    assert r.disk.data[cs1[k + 1]][..r.off] == Bytes(buf, total, r.total);
  }

  /** All rounds from a full cluster k on appended their bytes. */
  ghost predicate AllAppended(bpc: nat, d: Disk, chains: map<nat, seq<nat>>, h: nat, k: nat, q: nat, r: WriteResult,
                              buf: nat -> Byte, from: nat)
    requires h in chains && k < |chains[h]|
  {
    var size := |chains[h]|;
    && Needed(size, k, q) <= |FreeFrom(d.fat, FIRST_CLUSTER)|
    && Appended(bpc, d, chains[h], k, bpc, r, GrownBy(d.fat, chains, h, Needed(size, k, q))[h], EndPlace(size, k, q),
                buf, from)
  }

  /** The rounds lack at most one cluster, and it is there. */
  ghost predicate NoGap(d: Disk, chains: map<nat, seq<nat>>, h: nat, k: nat, q: nat)
    requires h in chains && k < |chains[h]|
  {
    Lacking(|chains[h]|, k, q) <= 1 && Needed(|chains[h]|, k, q) <= |FreeFrom(d.fat, FIRST_CLUSTER)|
  }

  /** Rounds that lack at most one cluster leave no gap: their bytes stand one behind the other. */
  lemma {:induction false} RoundsAppend(bpc: nat, d: Disk, chains: map<nat, seq<nat>>, h: nat, k: nat, buf: nat -> Byte,
                                        len: nat, total: nat)
    requires Place(bpc, d, chains, h, k) && NoGap(d, chains, h, k, RoundsLeft(bpc, len, total))
    ensures chains[h][k] < |d.fat|
    ensures AllAppended(bpc, d, chains, h, k, RoundsLeft(bpc, len, total),
                        WriteLoop(bpc, d, chains[h][k], bpc, buf, len, total),
                        buf, total)
    decreases RoundsLeft(bpc, len, total)
  {
    hide Advanced;
    var q, cs := RoundsLeft(bpc, len, total), chains[h];
    assert IsChain(d.fat, cs);
    if total >= len {
      assert cs + LowestFree(d.fat, 0) == cs;
    } else {
      RoundsStep(bpc, len, total);
      if k + 1 < |cs| {
        WalkRound(bpc, d, chains, h, k, buf, len, total);
        assert cs + LowestFree(d.fat, 0) == cs;
        RoundAppends(bpc, d, cs, k, d.fat, cs, buf, len, total);
        hide WriteLoop, Round, Chains, FreeFrom, Appended, AllAppended;
        RestAppends(bpc, d, chains, h, k, 0, Round(bpc, d, d.fat, cs[k + 1], buf, len, total), buf, len, total);
      } else {
        ExtendRound(bpc, d, chains, h, buf, len, total);
        ExtendedRoundAppends(bpc, d, chains, h, buf, len, total);
        hide WriteLoop, ExtendedRound, Chains, FreeFrom, Appended, AllAppended;
        RestAppends(bpc, d, chains, h, k, 1, ExtendedRound(bpc, d, chains, h, buf, len, total), buf, len, total);
      }
    }
  }

  /** A round that adds a single cluster appends its bytes. */
  lemma ExtendedRoundAppends(bpc: nat, d: Disk, chains: map<nat, seq<nat>>, h: nat, buf: nat -> Byte, len: nat,
                             total: nat)
    requires h in chains && chains[h] != [] && Place(bpc, d, chains, h, |chains[h]| - 1) && total < len
    requires NumCluster(len - total, bpc) == 1 <= |FreeFrom(d.fat, FIRST_CLUSTER)|
    ensures Appended(bpc, d, chains[h], |chains[h]| - 1, bpc, ExtendedRound(bpc, d, chains, h, buf, len, total),
                     GrownBy(d.fat, chains, h, 1)[h], |chains[h]|, buf, total)
  {
    var cs, fat1, cs1 := chains[h], Extended(d.fat, Last(chains[h]), 1), GrownBy(d.fat, chains, h, 1)[h];
    ExtendKeepsChains(d.fat, chains, h, 1);
    assert Last(LowestFree(d.fat, 1)) == cs1[|cs|];
    RoundAppends(bpc, d, cs, |cs| - 1, fat1, cs1, buf, len, total);
  }

  /** What is left after a round has no gap either. */
  lemma NoGapStep(bpc: nat, d: Disk, chains: map<nat, seq<nat>>, h: nat, k: nat, n: nat, r: WriteResult, q: nat)
    requires h in chains && k < |chains[h]| && q > 0 && NoGap(d, chains, h, k, q)
    requires n == (if k + 1 < |chains[h]| then 0 else 1) && Advanced(bpc, d, chains, h, k, n, k + 1, r)
    ensures NoGap(r.disk, GrownBy(d.fat, chains, h, n), h, k + 1, q - 1)
  {
    NeededStep(|chains[h]|, k, n, k + 1, q);
  }

  /** One round, and the rounds behind it. */
  lemma AppendedStep(bpc: nat, d: Disk, chains: map<nat, seq<nat>>, h: nat, k: nat, n: nat, r: WriteResult, q: nat,
                     r2: WriteResult, buf: nat -> Byte, total: nat)
    requires h in chains && k < |chains[h]| && q > 0 && NoGap(d, chains, h, k, q)
    requires n == (if k + 1 < |chains[h]| then 0 else 1) && Advanced(bpc, d, chains, h, k, n, k + 1, r) && r.off == bpc
    requires Appended(bpc, d, chains[h], k, bpc, r, GrownBy(d.fat, chains, h, n)[h], k + 1, buf, total)
    requires AllAppended(bpc, r.disk, GrownBy(d.fat, chains, h, n), h, k + 1, q - 1, r2, buf, r.total)
    ensures AllAppended(bpc, d, chains, h, k, q, r2, buf, total)
  {
    hide FreeFrom, Advanced, Appended, Needed, EndPlace;
    NeededStep(|chains[h]|, k, n, k + 1, q);
    var chains1 := GrownBy(d.fat, chains, h, n);
    var need2 := Needed(|chains1[h]|, k + 1, q - 1);
    AdvancedSizes(bpc, d, chains, h, k, n, k + 1, r);
    NoGapStep(bpc, d, chains, h, k, n, r, q);
    GrownTwice(d.fat, chains, h, n, r.disk.fat, need2);
    AppendTwice(bpc, d, chains[h], k, bpc, r, chains1[h], k + 1, r2,
                GrownBy(r.disk.fat, chains1, h, need2)[h], EndPlace(|chains1[h]|, k + 1, q - 1), buf, total);
  }

  /** A round that is the last one. */
  lemma AppendedOnce(bpc: nat, d: Disk, chains: map<nat, seq<nat>>, h: nat, k: nat, n: nat, r: WriteResult,
                     buf: nat -> Byte, total: nat)
    requires h in chains && k < |chains[h]| && NoGap(d, chains, h, k, 1)
    requires n == (if k + 1 < |chains[h]| then 0 else 1)
    requires n <= |FreeFrom(d.fat, FIRST_CLUSTER)|
    requires Appended(bpc, d, chains[h], k, bpc, r, GrownBy(d.fat, chains, h, n)[h], k + 1, buf, total)
    ensures AllAppended(bpc, d, chains, h, k, 1, r, buf, total)
  {
    NeededStep(|chains[h]|, k, n, k + 1, 1);
    hide Appended, FreeFrom;
  }

  lemma {:induction false} RestAppends(bpc: nat, d: Disk, chains: map<nat, seq<nat>>, h: nat, k: nat, n: nat,
                                       r: WriteResult, buf: nat -> Byte, len: nat, total: nat)
    requires Place(bpc, d, chains, h, k) && total < len && n == (if k + 1 < |chains[h]| then 0 else 1)
    requires NoGap(d, chains, h, k, RoundsLeft(bpc, len, total))
    requires Advanced(bpc, d, chains, h, k, n, k + 1, r)
    requires r.off == Min(len, bpc) && r.total == total + Min(len, bpc)
    requires Appended(bpc, d, chains[h], k, bpc, r, GrownBy(d.fat, chains, h, n)[h], k + 1, buf, total)
    ensures AllAppended(bpc, d, chains, h, k, RoundsLeft(bpc, len, total),
                        WriteLoop(bpc, r.disk, r.cluster, r.off, buf, len, r.total), buf, total)
    decreases RoundsLeft(bpc, len, total), 0
  {
    hide NoGap, AllAppended, Appended, Chains, FreeFrom;
    var q := RoundsLeft(bpc, len, total);
    RoundsStep(bpc, len, total);
    if r.off == bpc {
      NoGapStep(bpc, d, chains, h, k, n, r, q);
      RoundsAppend(bpc, r.disk, GrownBy(d.fat, chains, h, n), h, k + 1, buf, len, r.total);
      AppendedStep(bpc, d, chains, h, k, n, r, q, WriteLoop(bpc, r.disk, r.cluster, r.off, buf, len, r.total), buf,
                   total);
    } else {
      AppendedOnce(bpc, d, chains, h, k, n, r, buf, total);
    }
  }

  // ---------------------------------------------------------------- a whole call

  /** Space left in the writer's cluster, once a full cluster was left behind. */
  function Room(bpc: nat, off: nat): nat
    requires off <= bpc
  {
    if off == bpc then bpc else bpc - off
  }

  /** The rounds of a call that starts at offset off of its cluster. */
  function CallRounds(bpc: nat, off: nat, len: nat): nat
    requires bpc > 0 && off <= bpc
  {
    if off == bpc then NumCluster(len, bpc)
    else if len <= bpc - off then 0
    else NumCluster(len - (bpc - off), bpc)
  }

  /** What the call returns. */
  function CallTotal(bpc: nat, off: nat, len: nat): nat
    requires bpc > 0 && off <= bpc
  {
    (if off == bpc then 0 else Min(len, bpc - off)) + Strides(CallRounds(bpc, off, len), Min(len, bpc))
  }

  lemma NumClusterOfMultiple(bytes: nat, bpc: nat)
    requires bpc > 0
    ensures NumCluster(bytes, bpc) * bpc == bytes <==> bytes % bpc == 0
  {
    var n := NumCluster(bytes, bpc);
    NumClusterCovers(bytes, bpc);
    Divide(n, 0, bpc);
    hide NumCluster;
    if bytes % bpc == 0 {
      DivisionIsUnique(n, 0, bytes / bpc, n * bpc - bytes, bpc);
    }
  }

  /** Bytes beyond the room of a call that starts in a full cluster, and of one that does not. */
  lemma FullClusterIsExactIff(bpc: nat, len: nat)
    requires bpc > 0 && len > bpc
    ensures Strides(NumCluster(len, bpc), bpc) == len <==> (len - bpc) % bpc == 0
    ensures Strides(NumCluster(len, bpc), bpc) >= len
  {
    NumClusterOfMultiple(len, bpc);
    NumClusterCovers(len, bpc);
    hide NumCluster;
    Divide(len / bpc - 1, len % bpc, bpc);
    assert len - bpc == (len / bpc - 1) * bpc + len % bpc;
  }

  lemma RestIsExactIff(bpc: nat, room: nat, len: nat)
    requires 0 < room <= bpc && len > room
    ensures room + Strides(NumCluster(len - room, bpc), Min(len, bpc)) == len <==> (len - room) % bpc == 0
    ensures room + Strides(NumCluster(len - room, bpc), Min(len, bpc)) >= len
  {
    var more := len - room;
    NumClusterStep(more, bpc);
    NumClusterOfMultiple(more, bpc);
    NumClusterCovers(more, bpc);
    hide NumCluster;
    if len < bpc {
      assert more % bpc == more;
    }
  }

  /** A call returns the length it was given exactly if that fits the room, or exceeds it by whole clusters. */
  lemma ExactIff(bpc: nat, off: nat, len: nat)
    requires bpc > 0 && off <= bpc
    ensures CallTotal(bpc, off, len) == len <==> len <= Room(bpc, off) || (len - Room(bpc, off)) % bpc == 0
    ensures CallTotal(bpc, off, len) >= len
  {
    hide NumCluster, Strides;
    if len <= Room(bpc, off) {
      FitsRoom(bpc, off, len);
    } else if off == bpc {
      FullClusterIsExactIff(bpc, len);
    } else {
      RestIsExactIff(bpc, bpc - off, len);
    }
  }

  lemma FitsRoom(bpc: nat, off: nat, len: nat)
    requires bpc > 0 && off <= bpc && len <= Room(bpc, off)
    ensures CallTotal(bpc, off, len) == len
  {
    NumClusterStep(len, bpc);
  }

  lemma NumClusterCovers(bytes: nat, bpc: nat)
    requires bpc > 0
    ensures bytes <= NumCluster(bytes, bpc) * bpc < bytes + bpc
  {
    var x := bytes + bpc - 1;
    var q, r := x / bpc, x % bpc;
    assert x == q * bpc + r;
  }

  /** The part of a call that fills the writer's own cluster. */
  ghost function Part(bpc: nat, d: Disk, cluster: nat, off: nat, buf: nat -> Byte, len: nat): (r: WriteResult)
    requires WellFormed(bpc, d) && cluster < |d.fat| && off <= bpc
    ensures r.Written? && WellFormed(bpc, r.disk) && r.disk.fat == d.fat && r.cluster == cluster
    ensures r.off == off + r.total <= bpc && r.total == if off == bpc then 0 else Min(len, bpc - off)
  {
    if off == bpc then Written(d, cluster, off, 0)
    else
      var n := Min(len, bpc - off);
      Written(d.(data := d.data[cluster := Patched(d.data[cluster], off, buf, 0, n)]), cluster, off + n, n)
  }

  lemma LoopPart(bpc: nat, d: Disk, cluster: nat, off: nat, buf: nat -> Byte, len: nat)
    requires WellFormed(bpc, d) && cluster < |d.fat| && off <= bpc
    ensures var r := Part(bpc, d, cluster, off, buf, len);
            WriteLoop(bpc, d, cluster, off, buf, len, 0) == WriteLoop(bpc, r.disk, cluster, r.off, buf, len, r.total)
  {
    var r := Part(bpc, d, cluster, off, buf, len);
    if off != bpc {
      if len == 0 {
        assert Patched(d.data[cluster], off, buf, 0, 0) == d.data[cluster];
        assert r.disk.data == d.data;
      }
    }
  }

  lemma PartAppends(bpc: nat, d: Disk, chains: map<nat, seq<nat>>, h: nat, k: nat, off: nat, buf: nat -> Byte, len: nat)
    requires Place(bpc, d, chains, h, k) && off <= bpc
    ensures chains[h][k] < |d.fat|
    ensures Place(bpc, Part(bpc, d, chains[h][k], off, buf, len).disk, chains, h, k)
    ensures Appended(bpc, d, chains[h], k, off, Part(bpc, d, chains[h][k], off, buf, len), chains[h], k, buf, 0)
  {
    var cs := chains[h];
    assert IsChain(d.fat, cs);
    var r := Part(bpc, d, cs[k], off, buf, len);
    forall i | 0 <= i < k
      ensures r.disk.data[cs[..k][i]] == d.data[cs[..k][i]]
    {
      ChainIsAcyclic(d.fat, cs, i, k);
    }
    FlatKept(d.data, r.disk.data, cs[..k]);
    if off != bpc {
      assert r.disk.data[cs[k]][..r.off] == d.data[cs[k]][..off] + Bytes(buf, 0, r.total);
    }
  }

  /** After a call that found enough free clusters. */
  ghost predicate CallDone(bpc: nat, d: Disk, chains: map<nat, seq<nat>>, h: nat, k: nat, off: nat, len: nat,
                           r: WriteResult)
    requires bpc > 0 && off <= bpc && h in chains && k < |chains[h]|
  {
    var size, q := |chains[h]|, CallRounds(bpc, off, len);
    var need, k' := Needed(size, k, q), EndPlace(size, k, q);
    && need <= |FreeFrom(d.fat, FIRST_CLUSTER)|
    && r.Written?
    && r.total == CallTotal(bpc, off, len)
    && r.off <= bpc
    && (q > 0 ==> r.off == Min(len, bpc))
    && (q == 0 && off < bpc ==> r.off == off + len)
    && (q == 0 && off == bpc ==> r.off == bpc)
    && var chains' := GrownBy(d.fat, chains, h, need);
    && Place(bpc, r.disk, chains', h, k')
    && r.cluster == chains'[h][k']
    && |r.disk.fat| == |d.fat| == |d.data|
    && FreeFrom(r.disk.fat, FIRST_CLUSTER) == FreeFrom(d.fat, FIRST_CLUSTER)[need..]
    && OnlyBehind(d.data, r.disk.data, chains'[h], k - 1)
  }

  lemma PartOnly(bpc: nat, d: Disk, cs: seq<nat>, k: nat, off: nat, buf: nat -> Byte, len: nat)
    requires WellFormed(bpc, d) && off <= bpc && k < |cs| && cs[k] < |d.fat|
    ensures OnlyBehind(d.data, Part(bpc, d, cs[k], off, buf, len).disk.data, cs, k - 1)
  {
    var data' := Part(bpc, d, cs[k], off, buf, len).disk.data;
    forall c | 0 <= c < |d.data| && data'[c] != d.data[c]
      ensures exists i :: k - 1 < i < |cs| && cs[i] == c
    {
      assert cs[k] == c;
    }
  }

  lemma PartRounds(bpc: nat, d: Disk, cluster: nat, off: nat, buf: nat -> Byte, len: nat)
    requires WellFormed(bpc, d) && cluster < |d.fat| && off <= bpc
    ensures var r := Part(bpc, d, cluster, off, buf, len);
            && RoundsLeft(bpc, len, r.total) == CallRounds(bpc, off, len)
            && (r.off < bpc ==> r.total == len && CallRounds(bpc, off, len) == 0)
  {
    NumClusterStep(len, bpc);
  }

  lemma CallDoneFrom(bpc: nat, d: Disk, chains: map<nat, seq<nat>>, h: nat, k: nat, off: nat, len: nat,
                     part: WriteResult, r: WriteResult)
    requires Place(bpc, d, chains, h, k) && off <= bpc && part.Written?
    requires WellFormed(bpc, part.disk) && part.disk.fat == d.fat && part.cluster == chains[h][k]
    requires part.off == off + part.total <= bpc && part.total == if off == bpc then 0 else Min(len, bpc - off)
    requires OnlyBehind(d.data, part.disk.data, chains[h], k - 1)
    requires var q := CallRounds(bpc, off, len);
             && (part.off < bpc ==> part.total == len && q == 0 && r == part)
             && (part.off == bpc ==> Outcome(bpc, part.disk, chains, h, k, q, len, part.total, r))
    requires Needed(|chains[h]|, k, CallRounds(bpc, off, len)) <= |FreeFrom(d.fat, FIRST_CLUSTER)|
    ensures CallDone(bpc, d, chains, h, k, off, len, r)
  {
    var cs, q := chains[h], CallRounds(bpc, off, len);
    var need := Needed(|cs|, k, q);
    var chains' := GrownBy(d.fat, chains, h, need);
    if part.off == bpc {
      OnlyBehindTwice(d.data, part.disk.data, r.disk.data, cs, chains'[h], k - 1, k);
    } else {
      assert cs + LowestFree(d.fat, 0) == cs;
      assert chains' == chains;
    }
  }

  /**
   * What one call does, whatever its length and wherever the writer stands: it takes Needed free
   * clusters if there are as many and otherwise runs past the table; it writes no cluster but those
   * of its own chain from the writer on; and if it lacks at most one cluster, its bytes stand in the
   * chain one behind the other.
   */
  lemma WriteCall(bpc: nat, d: Disk, chains: map<nat, seq<nat>>, h: nat, k: nat, off: nat, buf: nat -> Byte, len: nat)
    requires Place(bpc, d, chains, h, k) && off <= bpc
    ensures chains[h][k] < |d.fat|
    ensures var size, q := |chains[h]|, CallRounds(bpc, off, len);
            var r := WriteLoop(bpc, d, chains[h][k], off, buf, len, 0);
            if Needed(size, k, q) > |FreeFrom(d.fat, FIRST_CLUSTER)| then r == PastTable
            else
              && CallDone(bpc, d, chains, h, k, off, len, r)
              && (Lacking(size, k, q) <= 1 ==>
                    Appended(bpc, d, chains[h], k, off, r, GrownBy(d.fat, chains, h, Needed(size, k, q))[h],
                             EndPlace(size, k, q), buf, 0))
  {
    var cs, size, q := chains[h], |chains[h]|, CallRounds(bpc, off, len);
    assert IsChain(d.fat, cs);
    var part := Part(bpc, d, cs[k], off, buf, len);
    LoopPart(bpc, d, cs[k], off, buf, len);
    PartAppends(bpc, d, chains, h, k, off, buf, len);
    PartOnly(bpc, d, cs, k, off, buf, len);
    PartRounds(bpc, d, cs[k], off, buf, len);
    assert part.off < bpc ==> WriteLoop(bpc, part.disk, cs[k], part.off, buf, len, part.total) == part;
    hide WriteLoop, Part, Patched, FreeFrom;
    var need, r := Needed(size, k, q), WriteLoop(bpc, part.disk, cs[k], part.off, buf, len, part.total);
    if part.off == bpc {
      Rounds(bpc, part.disk, chains, h, k, buf, len, part.total);
    }
    if need <= |FreeFrom(d.fat, FIRST_CLUSTER)| {
      CallDoneFrom(bpc, d, chains, h, k, off, len, part, r);
      if Lacking(size, k, q) <= 1 && part.off == bpc {
        RoundsAppend(bpc, part.disk, chains, h, k, buf, len, part.total);
        AppendTwice(bpc, d, cs, k, off, part, cs, k, r, GrownBy(d.fat, chains, h, need)[h], EndPlace(size, k, q), buf,
                    0);
      } else if Lacking(size, k, q) <= 1 {
        assert cs + LowestFree(d.fat, 0) == cs;
      }
    }
  }
}
