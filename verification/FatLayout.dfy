/** Where a FAT32 volume keeps its table and its clusters (GetFAT and GetClusterAddr of kernel/fat.cpp). */
module FatLayout {
  import opened Division

  /** The fields of the BIOS parameter block that the layout depends on. */
  datatype Bpb = Bpb(
    bytesPerSector: nat,
    sectorsPerCluster: nat,
    reservedSectorCount: nat,
    numFats: nat,
    fatSize32: nat)

  function BytesPerCluster(bpb: Bpb): nat {
    bpb.bytesPerSector * bpb.sectorsPerCluster
  }

  function GetFat(image: nat, bpb: Bpb): nat {
    image + bpb.reservedSectorCount * bpb.bytesPerSector
  }

  function GetClusterAddr(image: nat, bpb: Bpb, cluster: nat): nat
    requires cluster >= 2
  {
    var sector := bpb.reservedSectorCount + bpb.numFats * bpb.fatSize32 + (cluster - 2) * bpb.sectorsPerCluster;
    image + sector * bpb.bytesPerSector
  }

  /** Clusters follow each other without gap. */
  lemma NextClusterAddr(image: nat, bpb: Bpb, cluster: nat)
    requires cluster >= 2
    ensures GetClusterAddr(image, bpb, cluster + 1) == GetClusterAddr(image, bpb, cluster) + BytesPerCluster(bpb)
  {
    var front := bpb.reservedSectorCount + bpb.numFats * bpb.fatSize32;
    var k, per, b := cluster - 2, bpb.sectorsPerCluster, bpb.bytesPerSector;
    assert (k + 1) * per == k * per + per;
    assert (front + (k * per + per)) * b == (front + k * per) * b + per * b;
  }

  /** The first cluster, number 2, starts where the last copy of the table ends. */
  lemma FirstClusterAddr(image: nat, bpb: Bpb)
    ensures GetClusterAddr(image, bpb, 2) == GetFat(image, bpb) + bpb.numFats * (bpb.fatSize32 * bpb.bytesPerSector)
    ensures GetFat(image, bpb) == image + bpb.reservedSectorCount * bpb.bytesPerSector
  {
    var r, n, f, b := bpb.reservedSectorCount, bpb.numFats, bpb.fatSize32, bpb.bytesPerSector;
    assert (r + n * f) * b == r * b + n * f * b;
    assert n * f * b == n * (f * b);
  }

  /** Two clusters share no byte, so writing one leaves the other alone. */
  lemma {:induction false} ClustersAreApart(image: nat, bpb: Bpb, c: nat, d: nat)
    requires 2 <= c < d
    ensures GetClusterAddr(image, bpb, c) + BytesPerCluster(bpb) <= GetClusterAddr(image, bpb, d)
    decreases d - c
  {
    NextClusterAddr(image, bpb, d - 1);
    if c < d - 1 {
      ClustersAreApart(image, bpb, c, d - 1);
    }
  }

  /** The table, with an entry of 4 bytes for each cluster, lies in front of all clusters. */
  lemma TableIsApart(image: nat, bpb: Bpb, entries: nat, cluster: nat)
    requires bpb.numFats >= 1 && entries * 4 <= bpb.fatSize32 * bpb.bytesPerSector && cluster >= 2
    ensures GetFat(image, bpb) + entries * 4 <= GetClusterAddr(image, bpb, cluster)
  {
    var reserved, fats, rest, b := bpb.reservedSectorCount, bpb.numFats * bpb.fatSize32,
                                   (cluster - 2) * bpb.sectorsPerCluster, bpb.bytesPerSector;
    MulLe(1, bpb.numFats, bpb.fatSize32);
    MulLe(bpb.fatSize32, fats + rest, b);
    assert (reserved + fats + rest) * b == reserved * b + (fats + rest) * b;
  }
}
