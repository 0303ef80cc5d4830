/** Cluster chains in the file allocation table of kernel/fat.cpp (FAT32). */
module FatChains {

  const END_OF_CLUSTERCHAIN: nat := 0x0fff_ffff
  const FIRST_CLUSTER: nat := 2

  predicate IsEndOfClusterchain(cluster: nat) {
    cluster >= 0x0fff_fff8
  }

  /** cs is the chain of clusters that starts with cs[0]. */
  ghost predicate IsChain(fat: seq<nat>, cs: seq<nat>) {
    && |cs| > 0
    && (forall i | 0 <= i < |cs| :: FIRST_CLUSTER <= cs[i] < |fat|)
    && (forall i | 0 <= i < |cs| - 1 :: fat[cs[i]] == cs[i + 1])
    && IsEndOfClusterchain(fat[cs[|cs| - 1]])
  }

  /** Cluster numbers are no end-of-chain marks. */
  ghost predicate ValidFat(fat: seq<nat>) {
    FIRST_CLUSTER <= |fat| <= 0x0fff_fff8
  }

  lemma {:induction false} ChainIsUnique(fat: seq<nat>, cs: seq<nat>, ds: seq<nat>)
    requires ValidFat(fat) && IsChain(fat, cs) && IsChain(fat, ds) && cs[0] == ds[0]
    ensures cs == ds
    decreases |cs|
  {
    assert |cs| > 1 ==> fat[cs[0]] == cs[1];
    assert |ds| > 1 ==> fat[ds[0]] == ds[1];
    if |cs| > 1 {
      assert IsChain(fat, cs[1..]) && IsChain(fat, ds[1..]);
      ChainIsUnique(fat, cs[1..], ds[1..]);
      assert cs == [cs[0]] + cs[1..] && ds == [ds[0]] + ds[1..];
    }
  }

  /** A chain never returns to a cluster. */
  lemma ChainIsAcyclic(fat: seq<nat>, cs: seq<nat>, i: nat, j: nat)
    requires ValidFat(fat) && IsChain(fat, cs) && i < j < |cs|
    ensures cs[i] != cs[j]
  {
    if cs[i] == cs[j] {
      ChainIsUnique(fat, cs[i..], cs[j..]);
    }
  }

  // ---------------------------------------------------------------- free clusters

  /** The free clusters from a number on, in ascending order. */
  function FreeFrom(fat: seq<nat>, from: nat): seq<nat>
    decreases |fat| - from
  {
    if from >= |fat| then []
    else if fat[from] == 0 then [from] + FreeFrom(fat, from + 1)
    else FreeFrom(fat, from + 1)
  }

  /** FreeFrom lists every free cluster from that number on, lowest first and each once. */
  lemma {:induction false} FreeFromIsExact(fat: seq<nat>, from: nat)
    ensures forall c: nat :: c in FreeFrom(fat, from) <==> from <= c < |fat| && fat[c] == 0
    ensures forall i, j | 0 <= i < j < |FreeFrom(fat, from)| :: FreeFrom(fat, from)[i] < FreeFrom(fat, from)[j]
    decreases |fat| - from
  {
    if from < |fat| {
      FreeFromIsExact(fat, from + 1);
      var rest, r := FreeFrom(fat, from + 1), FreeFrom(fat, from);
      assert forall i | 0 <= i < |rest| :: rest[i] in rest;
      hide FreeFrom;
      if fat[from] == 0 {
        assert forall i | 0 < i < |r| :: r[i] == rest[i - 1];
      }
    }
  }

  /** Entries below the scan, and entries that are used before and after, do not matter to it. */
  lemma {:induction false} FreeFromIgnores(fat: seq<nat>, c: nat, v: nat, from: nat)
    requires c < |fat| && (c < from || (fat[c] != 0 && v != 0))
    ensures FreeFrom(fat[c := v], from) == FreeFrom(fat, from)
    decreases |fat| - from
  {
    if from < |fat| {
      FreeFromIgnores(fat, c, v, from + 1);
    }
  }

  // ---------------------------------------------------------------- linking new clusters

  /** The table after linking the new clusters, one behind the other, to the last cluster of a chain. */
  function Linked(fat: seq<nat>, last: nat, added: seq<nat>): (r: seq<nat>)
    requires last < |fat| && forall i | 0 <= i < |added| :: added[i] < |fat|
    ensures |r| == |fat|
    decreases |added|
  {
    if added == [] then fat[last := END_OF_CLUSTERCHAIN] else Linked(fat[last := added[0]], added[0], added[1..])
  }

  lemma {:induction false} LinkedElsewhere(fat: seq<nat>, last: nat, added: seq<nat>, c: nat)
    requires last < |fat| && forall i | 0 <= i < |added| :: added[i] < |fat|
    requires c < |fat| && c != last && c !in added
    ensures Linked(fat, last, added)[c] == fat[c]
    decreases |added|
  {
    if added != [] {
      LinkedElsewhere(fat[last := added[0]], added[0], added[1..], c);
    }
  }

  /** The links read off from the last old cluster: through all new clusters to the end mark. */
  lemma {:induction false} LinkedChain(fat: seq<nat>, last: nat, added: seq<nat>)
    requires ValidFat(fat) && FIRST_CLUSTER <= last < |fat|
    requires forall i | 0 <= i < |added| :: FIRST_CLUSTER <= added[i] < |fat| && added[i] != last
    requires forall i, j | 0 <= i < j < |added| :: added[i] != added[j]
    ensures IsChain(Linked(fat, last, added), [last] + added)
    decreases |added|
  {
    if added != [] {
      var fat' := fat[last := added[0]];
      LinkedChain(fat', added[0], added[1..]);
      LinkedElsewhere(fat', added[0], added[1..], last);
      var r, rest := Linked(fat', added[0], added[1..]), [added[0]] + added[1..];
      assert rest == added;
      forall i | 0 <= i < |[last] + added| - 1
        ensures r[([last] + added)[i]] == ([last] + added)[i + 1]
      {
        if i > 0 {
          assert r[rest[i - 1]] == rest[i];
        }
      }
    }
  }

  /** The last cluster of what was linked carries the end mark. */
  lemma {:induction false} EndIsMarked(fat: seq<nat>, last: nat, added: seq<nat>)
    requires FIRST_CLUSTER <= last < |fat|
    requires forall i | 0 <= i < |added| :: FIRST_CLUSTER <= added[i] < |fat|
    requires forall i, j | 0 <= i < j < |added| :: added[i] != added[j]
    ensures Linked(fat, last, added)[if added == [] then last else Last(added)] == 0x0fff_ffff
    decreases |added|
  {
    if added != [] {
      EndIsMarked(fat[last := added[0]], added[0], added[1..]);
    }
  }

  // ---------------------------------------------------------------- a volume of chains

  /** No cluster lies in two chains. */
  ghost predicate Separate(chains: map<nat, seq<nat>>) {
    forall h, k, c | h in chains && k in chains && c in chains[h] && c in chains[k] :: h == k
  }

  ghost predicate InSomeChain(chains: map<nat, seq<nat>>, c: nat) {
    exists h :: h in chains && c in chains[h]
  }

  /** A used cluster in none of these chains: marked bad, or lost. */
  ghost predicate Lost(fat: seq<nat>, chains: map<nat, seq<nat>>, c: nat) {
    FIRST_CLUSTER <= c < |fat| && fat[c] != 0 && !InSomeChain(chains, c)
  }

  /** Disjoint chains of a volume by their first cluster. */
  ghost predicate Chains(fat: seq<nat>, chains: map<nat, seq<nat>>) {
    && ValidFat(fat)
    && (forall h | h in chains :: IsChain(fat, chains[h]) && chains[h][0] == h)
    && Separate(chains)
  }

  lemma FreeIsInNoChain(fat: seq<nat>, chains: map<nat, seq<nat>>, h: nat, c: nat)
    requires Chains(fat, chains) && h in chains && c in chains[h]
    ensures FIRST_CLUSTER <= c < |fat| && fat[c] != 0
  {
    var cs := chains[h];
    var i :| 0 <= i < |cs| && cs[i] == c;
    assert i < |cs| - 1 ==> fat[cs[i]] == cs[i + 1];
  }

  /** The first n free clusters of the volume. */
  ghost function LowestFree(fat: seq<nat>, n: nat): seq<nat>
    requires n <= |FreeFrom(fat, FIRST_CLUSTER)|
  {
    FreeFrom(fat, FIRST_CLUSTER)[..n]
  }

  function Last(cs: seq<nat>): nat
    requires |cs| > 0
  {
    cs[|cs| - 1]
  }

  /** The table after ExtendCluster on a chain that ends in last, when n clusters are free. */
  ghost function Extended(fat: seq<nat>, last: nat, n: nat): seq<nat>
    requires last < |fat| && n <= |FreeFrom(fat, FIRST_CLUSTER)|
  {
    LowestFreeFacts(fat, n);
    Linked(fat, last, LowestFree(fat, n))
  }

  lemma ChainIsUsed(fat: seq<nat>, cs: seq<nat>)
    requires IsChain(fat, cs)
    ensures forall c | c in cs :: c < |fat| && fat[c] != 0
  {
    forall c | c in cs
      ensures c < |fat| && fat[c] != 0
    {
      var i :| 0 <= i < |cs| && cs[i] == c;
      assert i < |cs| - 1 ==> fat[cs[i]] == cs[i + 1];
    }
  }

  lemma OtherChainKept(fat: seq<nat>, fat': seq<nat>, cs: seq<nat>, changed: seq<nat>)
    requires IsChain(fat, cs) && |fat'| == |fat|
    requires forall c | 0 <= c < |fat| && c !in changed :: fat'[c] == fat[c]
    requires forall c | c in cs :: c !in changed
    ensures IsChain(fat', cs)
  {
    forall i | 0 <= i < |cs|
      ensures fat'[cs[i]] == fat[cs[i]]
    {
      assert cs[i] in cs;
    }
  }

  /** The chain in front of the end keeps its links, so it goes on through the new clusters. */
  lemma ExtendedIsChain(fat: seq<nat>, cs: seq<nat>, added: seq<nat>)
    requires ValidFat(fat) && IsChain(fat, cs)
    requires forall i | 0 <= i < |added| :: FIRST_CLUSTER <= added[i] < |fat| && added[i] !in cs
    requires forall i, j | 0 <= i < j < |added| :: added[i] != added[j]
    ensures IsChain(Linked(fat, Last(cs), added), cs + added)
  {
    var last, n := Last(cs), |cs|;
    assert last in cs;
    LinkedChain(fat, last, added);
    var fat' := Linked(fat, last, added);
    forall i | 0 <= i < n - 1
      ensures fat'[cs[i]] == cs[i + 1]
    {
      ChainIsAcyclic(fat, cs, i, n - 1);
      assert cs[i] in cs;
      LinkedElsewhere(fat, last, added, cs[i]);
    }
    hide Linked;
    JoinedIsChain(fat', cs, added);
  }

  /** Links through cs, and a chain from its last cluster on, are one chain. */
  lemma JoinedIsChain(fat: seq<nat>, cs: seq<nat>, added: seq<nat>)
    requires cs != [] && IsChain(fat, [Last(cs)] + added)
    requires forall i | 0 <= i < |cs| :: FIRST_CLUSTER <= cs[i] < |fat|
    requires forall i | 0 <= i < |cs| - 1 :: fat[cs[i]] == cs[i + 1]
    ensures IsChain(fat, cs + added)
  {
    var n, tail, all := |cs|, [Last(cs)] + added, cs + added;
    forall i | n - 1 <= i < |all|
      ensures all[i] == tail[i - (n - 1)]
    {
    }
    forall i | 0 <= i < |all| - 1
      ensures fat[all[i]] == all[i + 1]
    {
      if i >= n - 1 {
        assert fat[tail[i - (n - 1)]] == tail[i - (n - 1) + 1];
      }
    }
  }

  lemma LowestFreeFacts(fat: seq<nat>, n: nat)
    requires n <= |FreeFrom(fat, FIRST_CLUSTER)|
    ensures var added := LowestFree(fat, n);
            && (forall i | 0 <= i < n :: FIRST_CLUSTER <= added[i] < |fat| && fat[added[i]] == 0)
            && (forall i, j | 0 <= i < j < n :: added[i] < added[j])
            && (forall c: nat | 2 <= c < |fat| && fat[c] == 0 && c !in added ::
                  forall i | 0 <= i < n :: added[i] < c)
  {
    FreeFromIsExact(fat, FIRST_CLUSTER);
    var free, added := FreeFrom(fat, FIRST_CLUSTER), LowestFree(fat, n);
    forall i | 0 <= i < n
      ensures FIRST_CLUSTER <= added[i] < |fat| && fat[added[i]] == 0
    {
      assert free[i] in free;
    }
    forall c: nat, i | FIRST_CLUSTER <= c < |fat| && fat[c] == 0 && c !in added && 0 <= i < n
      ensures added[i] < c
    {
      assert c in free;
      var k :| 0 <= k < |free| && free[k] == c;
      assert k >= n by {
        assert forall m | 0 <= m < n :: free[m] in added;
      }
    }
  }

  lemma {:induction false} AscendingIsUnique(s: seq<nat>, t: seq<nat>)
    requires forall i, j | 0 <= i < j < |s| :: s[i] < s[j]
    requires forall i, j | 0 <= i < j < |t| :: t[i] < t[j]
    requires forall c: nat :: c in s <==> c in t
    ensures s == t
  {
    assert s != [] ==> s[0] in t;
    assert t != [] ==> t[0] in s;
    if s != [] {
      assert s[0] == t[0];
      forall c: nat
        ensures c in s[1..] <==> c in t[1..]
      {
        assert c in s[1..] <==> c in s && c != s[0];
        assert c in t[1..] <==> c in t && c != t[0];
      }
      AscendingIsUnique(s[1..], t[1..]);
      assert s == [s[0]] + s[1..] && t == [t[0]] + t[1..];
    }
  }

  /** A table in which exactly the first n free clusters became used has the other free clusters left. */
  lemma FreeDropsBy(fat: seq<nat>, fat': seq<nat>, n: nat)
    requires n <= |FreeFrom(fat, FIRST_CLUSTER)| && |fat'| == |fat|
    requires forall c | FIRST_CLUSTER <= c < |fat| :: fat'[c] == 0 <==> fat[c] == 0 && c !in LowestFree(fat, n)
    ensures FreeFrom(fat', FIRST_CLUSTER) == FreeFrom(fat, FIRST_CLUSTER)[n..]
  {
    FreeFromIsExact(fat, FIRST_CLUSTER);
    FreeFromIsExact(fat', FIRST_CLUSTER);
    var free, free' := FreeFrom(fat, FIRST_CLUSTER), FreeFrom(fat', FIRST_CLUSTER);
    hide FreeFrom;
    AscendingSuffix(free, n);
    AscendingIsUnique(free', free[n..]);
  }

  lemma AscendingSuffix(s: seq<nat>, n: nat)
    requires n <= |s| && forall i, j | 0 <= i < j < |s| :: s[i] < s[j]
    ensures forall i, j | 0 <= i < j < |s[n..]| :: s[n..][i] < s[n..][j]
    ensures forall c :: c in s[n..] <==> c in s && c !in s[..n]
  {
    assert s == s[..n] + s[n..];
    assert forall i | 0 <= i < |s[n..]| :: s[n..][i] == s[i + n];
  }

  lemma SeparateWith(chains: map<nat, seq<nat>>, h: nat, cs: seq<nat>)
    requires Separate(chains)
    requires forall k, c | k in chains && k != h && c in chains[k] :: c !in cs
    ensures Separate(chains[h := cs])
  {
    var chains' := chains[h := cs];
    forall a, b, c | a in chains' && b in chains' && c in chains'[a] && c in chains'[b]
      ensures a == b
    {
      if a != h && b != h {
        assert c in chains[a] && c in chains[b];
      }
    }
  }

  /** A table in which chain h was replaced by one that holds its clusters and new ones still splits into chains. */
  lemma ChainsWith(fat: seq<nat>, chains: map<nat, seq<nat>>, h: nat, cs: seq<nat>, added: seq<nat>, fat': seq<nat>)
    requires Chains(fat, chains) && |fat'| == |fat|
    requires forall c | c in added :: c < |fat| && fat[c] == 0
    requires cs == (if h in chains then chains[h] else []) + added
    requires IsChain(fat', cs) && cs[0] == h
    requires forall c | 0 <= c < |fat| && c !in cs :: fat'[c] == fat[c]
    ensures Chains(fat', chains[h := cs])
  {
    forall k, c | k in chains && c in chains[k] && k != h
      ensures c !in cs
    {
      FreeIsInNoChain(fat, chains, k, c);
    }
    SeparateWith(chains, h, cs);
    forall k | k in chains && k != h
      ensures IsChain(fat', chains[k])
    {
      OtherChainKept(fat, fat', chains[k], cs);
    }
  }

  /**
   * Linking the n lowest free clusters to the end of a chain: that chain becomes itself followed by
   * them in ascending order, every other chain is as before, and exactly those n clusters stop being free.
   */
  lemma ExtendKeepsChains(fat: seq<nat>, chains: map<nat, seq<nat>>, h: nat, n: nat)
    requires Chains(fat, chains) && h in chains && n <= |FreeFrom(fat, FIRST_CLUSTER)|
    ensures Last(chains[h]) < |fat|
    ensures var fat' := Extended(fat, Last(chains[h]), n);
            && Chains(fat', chains[h := chains[h] + LowestFree(fat, n)])
            && FreeFrom(fat', FIRST_CLUSTER) == FreeFrom(fat, FIRST_CLUSTER)[n..]
  {
    var cs, added := chains[h], LowestFree(fat, n);
    var last := Last(cs);
    LowestFreeFacts(fat, n);
    forall c | c in cs
      ensures FIRST_CLUSTER <= c < |fat| && fat[c] != 0 && c !in added
    {
      FreeIsInNoChain(fat, chains, h, c);
    }
    var fat' := Extended(fat, last, n);
    ExtendedIsChain(fat, cs, added);
    var all := cs + added;
    assert last in all && forall c | c in added :: c in all;
    forall c | 0 <= c < |fat| && c !in all
      ensures fat'[c] == fat[c]
    {
      LinkedElsewhere(fat, last, added, c);
    }
    ChainsWith(fat, chains, h, all, added, fat');
    ChainIsUsed(fat', all);
    forall c | FIRST_CLUSTER <= c < |fat|
      ensures fat'[c] == 0 <==> fat[c] == 0 && c !in added
    {
      if c in all {
        assert c in cs || c in added;
      }
    }
    FreeDropsBy(fat, fat', n);
  }

  /** The lowest free cluster, and the table after marking it as a chain of its own. */
  ghost function Marked(fat: seq<nat>): (nat, seq<nat>)
    requires 1 <= |FreeFrom(fat, FIRST_CLUSTER)|
  {
    LowestFreeFacts(fat, 1);
    var first := LowestFree(fat, 1)[0];
    (first, fat[first := END_OF_CLUSTERCHAIN])
  }

  lemma MarkFirst(fat: seq<nat>)
    requires 1 <= |FreeFrom(fat, FIRST_CLUSTER)|
    ensures var (first, fat1) := Marked(fat);
            && FIRST_CLUSTER <= first < |fat| == |fat1| && fat[first] == 0
            && FreeFrom(fat1, FIRST_CLUSTER) == FreeFrom(fat, FIRST_CLUSTER)[1..]
  {
    LowestFreeFacts(fat, 1);
    assert LowestFree(fat, 1) == [Marked(fat).0];
    FreeDropsBy(fat, Marked(fat).1, 1);
  }

  /** Marking the lowest free cluster and taking the n - 1 lowest ones left is taking the n lowest. */
  lemma MarkAndTake(fat: seq<nat>, n: nat)
    requires 1 <= n <= |FreeFrom(fat, FIRST_CLUSTER)|
    ensures Marked(fat).0 < |fat| && n - 1 <= |FreeFrom(Marked(fat).1, FIRST_CLUSTER)|
    ensures [Marked(fat).0] + LowestFree(Marked(fat).1, n - 1) == LowestFree(fat, n)
    ensures FreeFrom(Marked(fat).1, FIRST_CLUSTER)[n - 1..] == FreeFrom(fat, FIRST_CLUSTER)[n..]
  {
    MarkFirst(fat);
  }

  /** The marked cluster is a chain by itself. */
  lemma MarkKeepsChains(fat: seq<nat>, chains: map<nat, seq<nat>>)
    requires Chains(fat, chains) && 1 <= |FreeFrom(fat, FIRST_CLUSTER)|
    ensures var (first, fat1) := Marked(fat);
            first !in chains && Chains(fat1, chains[first := [first]])
  {
    var (first, fat1) := Marked(fat);
    MarkFirst(fat);
    if first in chains {
      FreeIsInNoChain(fat, chains, first, chains[first][0]);
    }
    assert [] + [first] == [first];
    ChainsWith(fat, chains, first, [first], [first], fat1);
  }

  /** How many clusters AllocateClusterchain(n) takes. */
  function Taken(n: nat): nat {
    if n > 1 then n else 1
  }

  /** The table after AllocateClusterchain(n) and its first cluster; a request for none still takes one. */
  ghost function Allocated(fat: seq<nat>, n: nat): seq<nat>
    requires Taken(n) <= |FreeFrom(fat, FIRST_CLUSTER)|
  {
    var (first, fat1) := Marked(fat);
    MarkFirst(fat);
    if n > 1 then Extended(fat1, first, n - 1) else fat1
  }

  lemma SetTwice(chains: map<nat, seq<nat>>, h: nat, cs: seq<nat>, ds: seq<nat>)
    ensures chains[h := cs][h := ds] == chains[h := ds]
  {
  }

  lemma ExtendSingle(fat: seq<nat>, chains: map<nat, seq<nat>>, first: nat, n: nat)
    requires first < |fat| && Chains(fat, chains[first := [first]]) && n <= |FreeFrom(fat, FIRST_CLUSTER)|
    ensures Chains(Extended(fat, first, n), chains[first := [first] + LowestFree(fat, n)])
    ensures FreeFrom(Extended(fat, first, n), FIRST_CLUSTER) == FreeFrom(fat, FIRST_CLUSTER)[n..]
  {
    hide Chains, LowestFree, Extended;
    ExtendKeepsChains(fat, chains[first := [first]], first, n);
    SetTwice(chains, first, [first], [first] + LowestFree(fat, n));
  }

  /** AllocateClusterchain(n) makes one new chain of the max(1, n) lowest free clusters. */
  lemma AllocateKeepsChains(fat: seq<nat>, chains: map<nat, seq<nat>>, n: nat)
    requires Chains(fat, chains) && Taken(n) <= |FreeFrom(fat, FIRST_CLUSTER)|
    ensures LowestFree(fat, Taken(n))[0] !in chains
    ensures Chains(Allocated(fat, n), chains[LowestFree(fat, Taken(n))[0] := LowestFree(fat, Taken(n))])
    ensures FreeFrom(Allocated(fat, n), FIRST_CLUSTER) == FreeFrom(fat, FIRST_CLUSTER)[Taken(n)..]
  {
    var (first, fat1) := Marked(fat);
    MarkFirst(fat);
    MarkKeepsChains(fat, chains);
    if n > 1 {
      MarkAndTake(fat, n);
      ExtendSingle(fat1, chains, first, n - 1);
    } else {
      assert LowestFree(fat, 1) == [first];
    }
  }

  // ---------------------------------------------------------------- what is in no chain

  lemma InSomeChainWith(chains: map<nat, seq<nat>>, h: nat, cs: seq<nat>, c: nat)
    requires h in chains ==> forall d | d in chains[h] :: d in cs
    ensures InSomeChain(chains[h := cs], c) <==> c in cs || InSomeChain(chains, c)
  {
    var chains' := chains[h := cs];
    if c in cs {
      assert c in chains'[h];
    } else if k :| k in chains && c in chains[k] {
      assert c in chains'[k];
    }
  }

  /** Bad marks and lost clusters stay what they are, and no cluster gets lost. */
  lemma LostKept(fat: seq<nat>, chains: map<nat, seq<nat>>, h: nat, cs: seq<nat>, added: seq<nat>, fat': seq<nat>,
                 c: nat)
    requires |fat'| == |fat| && cs == (if h in chains then chains[h] else []) + added
    requires forall d | d in added :: d < |fat| && fat[d] == 0
    requires forall d | 0 <= d < |fat| && d !in cs :: fat'[d] == fat[d]
    requires IsChain(fat', cs)
    ensures Lost(fat', chains[h := cs], c) <==> Lost(fat, chains, c)
    ensures Lost(fat, chains, c) ==> fat'[c] == fat[c]
  {
    InSomeChainWith(chains, h, cs, c);
    if c in cs && c !in added {
      assert InSomeChain(chains, c);
    }
  }

  lemma ExtendKeepsLost(fat: seq<nat>, chains: map<nat, seq<nat>>, h: nat, n: nat, c: nat)
    requires Chains(fat, chains) && h in chains && n <= |FreeFrom(fat, FIRST_CLUSTER)|
    ensures Last(chains[h]) < |fat|
    ensures Lost(Extended(fat, Last(chains[h]), n), chains[h := chains[h] + LowestFree(fat, n)], c) <==>
              Lost(fat, chains, c)
    ensures Lost(fat, chains, c) ==>
              && |Extended(fat, Last(chains[h]), n)| == |fat|
              && Extended(fat, Last(chains[h]), n)[c] == fat[c]
  {
    var cs, added := chains[h], LowestFree(fat, n);
    LowestFreeFacts(fat, n);
    ExtendKeepsChains(fat, chains, h, n);
    var fat' := Extended(fat, Last(cs), n);
    assert chains[h := cs + added][h] == cs + added;
    hide Chains, LowestFree, Lost;
    ExtendChangesChain(fat, cs, added, fat');
    LostKept(fat, chains, h, cs + added, added, fat', c);
  }

  lemma ExtendChangesChain(fat: seq<nat>, cs: seq<nat>, added: seq<nat>, fat': seq<nat>)
    requires cs != [] && Last(cs) < |fat| && (forall i | 0 <= i < |added| :: added[i] < |fat|)
    requires fat' == Linked(fat, Last(cs), added)
    ensures forall c | 0 <= c < |fat| && c !in cs + added :: fat'[c] == fat[c]
  {
    forall c | 0 <= c < |fat| && c !in cs + added
      ensures fat'[c] == fat[c]
    {
      assert Last(cs) in cs;
      LinkedElsewhere(fat, Last(cs), added, c);
    }
  }

  lemma MarkKeepsLost(fat: seq<nat>, chains: map<nat, seq<nat>>, c: nat)
    requires Chains(fat, chains) && 1 <= |FreeFrom(fat, FIRST_CLUSTER)|
    ensures var (first, fat1) := Marked(fat);
            && (Lost(fat1, chains[first := [first]], c) <==> Lost(fat, chains, c))
            && (Lost(fat, chains, c) ==> |fat1| == |fat| && fat1[c] == fat[c])
  {
    var (first, fat1) := Marked(fat);
    MarkFirst(fat);
    MarkKeepsChains(fat, chains);
    assert [] + [first] == [first];
    LostKept(fat, chains, first, [first], [first], fat1, c);
  }

  lemma ExtendSingleLost(fat: seq<nat>, chains: map<nat, seq<nat>>, first: nat, n: nat, c: nat)
    requires first < |fat| && Chains(fat, chains[first := [first]]) && n <= |FreeFrom(fat, FIRST_CLUSTER)|
    ensures var fat' := Extended(fat, first, n);
            && (Lost(fat', chains[first := [first] + LowestFree(fat, n)], c) <==>
                 Lost(fat, chains[first := [first]], c))
            && (Lost(fat, chains[first := [first]], c) ==> |fat'| == |fat| && fat'[c] == fat[c])
  {
    hide Chains, LowestFree, Extended, Lost;
    ExtendKeepsLost(fat, chains[first := [first]], first, n, c);
    SetTwice(chains, first, [first], [first] + LowestFree(fat, n));
  }

  lemma AllocateKeepsLost(fat: seq<nat>, chains: map<nat, seq<nat>>, n: nat, c: nat)
    requires Chains(fat, chains) && Taken(n) <= |FreeFrom(fat, FIRST_CLUSTER)|
    ensures var chains' := chains[LowestFree(fat, Taken(n))[0] := LowestFree(fat, Taken(n))];
            && (Lost(Allocated(fat, n), chains', c) <==> Lost(fat, chains, c))
            && (Lost(fat, chains, c) ==> |Allocated(fat, n)| == |fat| && Allocated(fat, n)[c] == fat[c])
  {
    hide Chains, LowestFree, Extended, Lost;
    MarkFirst(fat);
    MarkKeepsLost(fat, chains, c);
    MarkAndTake(fat, Taken(n));
    if n > 1 {
      MarkKeepsChains(fat, chains);
      ExtendSingleLost(Marked(fat).1, chains, Marked(fat).0, n - 1, c);
    } else {
      OnlyFirst(fat);
    }
  }

  lemma OnlyFirst(fat: seq<nat>)
    requires 1 <= |FreeFrom(fat, FIRST_CLUSTER)|
    ensures LowestFree(fat, 1) == [Marked(fat).0]
  {
  }
}
