/** fat.c: where a FAT volume keeps its clusters. */
module Fat {
  import opened Bits

  const EINVAL := 4

  type U8 = x: int | 0 <= x < 0x100
  type U16 = x: int | 0 <= x < 0x1_0000
  type U32 = x: int | 0 <= x < 0x1_0000_0000

  const FAT_BYTES_PER_SECTOR_512 := 512
  const FAT_BYTES_PER_SECTOR_4096 := 4096
  const FAT12_CLUSTER_COUNT_MAX := 4084
  const FAT16_CLUSTER_COUNT_MAX := 65524
  const FAT_DIRECTORY_ENTRY_SIZE := 32
  const FAT_FIRST_DATA_CLUSTER := 2
  const FAT32_RESERVED_MIN := 0x0FFF_FFF0

  datatype FatType = Unknown | Fat12 | Fat16 | Fat32

  /** The fields of struct fat_bpb and its FAT32 extension that matter here. */
  datatype Bpb = Bpb(bytesPerSector: U16, sectorsPerCluster: U8, reservedSectors: U16, fatCount: U8, rootEntries: U16,
                     totalSectors16: U16, totalSectors32: U32, fatSize16: U16, fatSize32: U32, rootCluster: U32)

  function Mod32(x: nat): U32 {
    x % 0x1_0000_0000
  }

  function TotalSectors(b: Bpb): U32 {
    if b.totalSectors16 != 0 then b.totalSectors16 else b.totalSectors32
  }

  function FatSize(b: Bpb): U32 {
    if b.fatSize16 == 0 then b.fatSize32 else b.fatSize16
  }

  /** The sectors of the root directory: whole sectors, rounded up. */
  function RootDirSectors(b: Bpb): nat
    requires b.bytesPerSector > 0
  {
    (b.rootEntries * FAT_DIRECTORY_ENTRY_SIZE + b.bytesPerSector - 1) / b.bytesPerSector
  }

  /** The sectors in front of the data area, as a number of any size. */
  function MetadataSectors(b: Bpb): nat
    requires b.bytesPerSector > 0
  {
    b.reservedSectors + Product(b.fatCount, FatSize(b)) + RootDirSectors(b)
  }

  /** The volume has a data area behind its metadata, both counted in 32 bits. */
  predicate Parses(b: Bpb) {
    b.bytesPerSector != 0 && b.sectorsPerCluster != 0 && TotalSectors(b) > Mod32(MetadataSectorsMasked(b))
  }

  /** ALIGN_UP(x, a), which is a mask. */
  function AlignUp(x: nat, a: Word): nat
    requires a > 0
  {
    And(x + a - 1, Not(a - 1))
  }

  /** Sectors of the root directory: its bytes rounded up by the mask, in sectors. */
  function RootDirSectorsMasked(b: Bpb): nat
    requires b.bytesPerSector > 0
  {
    NoSign(AlignUp(b.rootEntries * FAT_DIRECTORY_ENTRY_SIZE, b.bytesPerSector), b.bytesPerSector);
    AlignUp(b.rootEntries * FAT_DIRECTORY_ENTRY_SIZE, b.bytesPerSector) / b.bytesPerSector
  }

  function MetadataSectorsMasked(b: Bpb): nat
    requires b.bytesPerSector > 0
  {
    b.reservedSectors + Product(b.fatCount, FatSize(b)) + RootDirSectorsMasked(b)
  }

  class FatSuper {
    var kind: FatType
    var totalSectors: nat
    var fatStart: U32
    var rootStart: U32
    var dataStart: U32
    var clusterCount: U32
    var sectorsPerCluster: U8

    constructor ()
    {
      kind, totalSectors, fatStart, rootStart, dataStart, clusterCount, sectorsPerCluster := Unknown, 0, 0, 0, 0, 0, 0;
    }

    /** What a successful parse leaves behind. */
    predicate Geometry()
      reads this
    {
      && sectorsPerCluster > 0 && dataStart < totalSectors < 0x1_0000_0000
      && clusterCount == Quotient(totalSectors - dataStart, sectorsPerCluster)
      && kind == (if clusterCount <= FAT12_CLUSTER_COUNT_MAX then Fat12
                  else if clusterCount <= FAT16_CLUSTER_COUNT_MAX then Fat16 else Fat32)
    }

    /** fat_cluster_lba, in 32-bit arithmetic. */
    function ClusterLba(cluster: U32): U32
      reads `dataStart, `sectorsPerCluster
    {
      Mod32(dataStart + Mod32(Mod32(cluster + 0x1_0000_0000 - 2) * sectorsPerCluster))
    }

    /** The clusters 2 .. clusterCount + 1. */
    predicate DataCluster(c: U32)
      reads this
    {
      FAT_FIRST_DATA_CLUSTER <= c < clusterCount + FAT_FIRST_DATA_CLUSTER
    }

    /** fat_parse_bpb */
    method ParseBpb(b: Bpb) returns (err: int)
      modifies this
      ensures err == 0 <==> Parses(b)
      ensures err != 0 ==> err == -1 && kind == Unknown
      ensures b.bytesPerSector == 0 || b.sectorsPerCluster == 0 ==> err != 0
      // The layout, told from the fields of the boot sector alone.  For a sector size that is a
      // power of two, and sums within 32 bits: the FATs follow the reserved sectors, the root
      // directory of FAT12 and FAT16 follows the FATs in as many whole sectors as its entries
      // take, and the data follow both; the volume parses just when it does not end before.
      ensures b.sectorsPerCluster != 0 && (exists k: nat :: k <= 15 && b.bytesPerSector == Pow2(k)) ==>
        var total := if b.totalSectors16 == 0 then b.totalSectors32 else b.totalSectors16;
        var fatSize := if b.fatSize16 == 0 then b.fatSize32 else b.fatSize16;
        var fatEnd := b.reservedSectors + b.fatCount * fatSize;
        var start := fatEnd + (32 * b.rootEntries + b.bytesPerSector - 1) / b.bytesPerSector;
        start < 0x1_0000_0000 ==>
          && (err == 0 <==> total > start)
          && (err == 0 ==>
                && totalSectors == total && fatStart == b.reservedSectors && dataStart == start
                && (kind != Fat32 ==>
                      rootStart == fatEnd && (dataStart - rootStart) * b.bytesPerSector >= 32 * b.rootEntries))
      // As many whole clusters as fit, and the type told from their number.
      ensures err == 0 ==>
        && clusterCount * b.sectorsPerCluster <= totalSectors - dataStart < (clusterCount + 1) * b.sectorsPerCluster
        && kind == if clusterCount < 4085 then Fat12 else if clusterCount < 65525 then Fat16 else Fat32
      ensures err == 0 ==>
        && Geometry() && sectorsPerCluster == b.sectorsPerCluster && totalSectors == TotalSectors(b)
        && fatStart == b.reservedSectors && dataStart == Mod32(MetadataSectorsMasked(b))
        && rootStart == (if kind == Fat32
                         then if b.rootCluster >= FAT_FIRST_DATA_CLUSTER then ClusterLba(b.rootCluster) else dataStart
                         else Mod32(b.reservedSectors + Product(b.fatCount, FatSize(b))))
    {
      hide Mod32, RootDirSectorsMasked, Quotient, ClusterLba, Product, Pow2, AlignUp;
      if b.bytesPerSector == 0 || b.sectorsPerCluster == 0 {
        kind := Unknown;
        ParsedLayout(b, -1);
        return -1;
      }
      sectorsPerCluster := b.sectorsPerCluster;
      totalSectors := if b.totalSectors16 != 0 then b.totalSectors16 else b.totalSectors32;
      fatStart := b.reservedSectors;
      var fatSize: U32 := b.fatSize16;
      if fatSize == 0 {
        fatSize := b.fatSize32;
      }
      var fats := Product(b.fatCount, fatSize);
      var rootDirSectors := Mod32(RootDirSectorsMasked(b));
      dataStart := Mod32(Mod32(fatStart + Mod32(fats)) + rootDirSectors);
      Mod32Sum(fatStart, fats, RootDirSectorsMasked(b));
      assert fats == Product(b.fatCount, FatSize(b));
      if totalSectors <= dataStart {
        kind := Unknown;
        ParsedLayout(b, -1);
        return -1;
      }
      clusterCount := Quotient(totalSectors - dataStart, b.sectorsPerCluster);
      if clusterCount <= FAT12_CLUSTER_COUNT_MAX {
        kind := Fat12;
        rootStart := Mod32(fatStart + Mod32(fats));
      } else if clusterCount <= FAT16_CLUSTER_COUNT_MAX {
        kind := Fat16;
        rootStart := Mod32(fatStart + Mod32(fats));
      } else {
        kind := Fat32;
        if b.rootCluster >= FAT_FIRST_DATA_CLUSTER {
          ClusterLbaIs(b.rootCluster);
          rootStart := Mod32(dataStart + Mod32(Product(b.rootCluster - FAT_FIRST_DATA_CLUSTER, b.sectorsPerCluster)));
        } else {
          rootStart := dataStart;
        }
      }
      ParsedLayout(b, 0);
      return 0;
    }

    /** What the fields a parse leaves behind mean for the layout. */
    lemma ParsedLayout(b: Bpb, err: int)
      requires err == 0 <==> Parses(b)
      requires err == 0 ==>
        && Geometry() && sectorsPerCluster == b.sectorsPerCluster && totalSectors == TotalSectors(b)
        && fatStart == b.reservedSectors && dataStart == Mod32(MetadataSectorsMasked(b))
        && (kind != Fat32 ==> rootStart == Mod32(b.reservedSectors + Product(b.fatCount, FatSize(b))))
      // The layout, told from the fields of the boot sector alone.  For a sector size that is a
      // power of two, and sums within 32 bits: the FATs follow the reserved sectors, the root
      // directory of FAT12 and FAT16 follows the FATs in as many whole sectors as its entries
      // take, and the data follow both; the volume parses just when it does not end before.
      ensures b.sectorsPerCluster != 0 && (exists k: nat :: k <= 15 && b.bytesPerSector == Pow2(k)) ==>
        var total := if b.totalSectors16 == 0 then b.totalSectors32 else b.totalSectors16;
        var fatSize := if b.fatSize16 == 0 then b.fatSize32 else b.fatSize16;
        var fatEnd := b.reservedSectors + b.fatCount * fatSize;
        var start := fatEnd + (32 * b.rootEntries + b.bytesPerSector - 1) / b.bytesPerSector;
        start < 0x1_0000_0000 ==>
          && (err == 0 <==> total > start)
          && (err == 0 ==>
                && totalSectors == total && fatStart == b.reservedSectors && dataStart == start
                && (kind != Fat32 ==>
                      rootStart == fatEnd && (dataStart - rootStart) * b.bytesPerSector >= 32 * b.rootEntries))
      // As many whole clusters as fit, and the type told from their number.
      ensures err == 0 ==>
        && clusterCount * b.sectorsPerCluster <= totalSectors - dataStart < (clusterCount + 1) * b.sectorsPerCluster
        && kind == if clusterCount < 4085 then Fat12 else if clusterCount < 65525 then Fat16 else Fat32
    {
      hide Mod32, RootDirSectorsMasked, MetadataSectorsMasked, Quotient, Product, Pow2;
      if exists k: nat :: k <= 15 && b.bytesPerSector == Pow2(k) {
        if b.bytesPerSector > 0 {
          Layout(b);
        }
      }
      if err == 0 {
        QuotientIs(totalSectors - dataStart, b.sectorsPerCluster);
      }
    }

    /** The sectors of the clusters 2 .. clusterCount + 1 lie in the data area, computed
        without any wrap-around, whatever the metadata sum did. */
    lemma ClusterInBounds(c: U32)
      requires Geometry() && DataCluster(c)
      ensures ClusterLba(c) == dataStart + (c - 2) * sectorsPerCluster
      ensures dataStart <= ClusterLba(c) && ClusterLba(c) + sectorsPerCluster <= totalSectors
    {
      hide Quotient, Product, ClusterLba, Mod32;
      RunInRoom(totalSectors - dataStart, sectorsPerCluster, c - 2);
      ClusterLbaIs(c);
      NoWrap(Product(c - 2, sectorsPerCluster));
      NoWrap(dataStart + Product(c - 2, sectorsPerCluster));
    }

    /** Sector s belongs to cluster c. */
    predicate InCluster(c: U32, s: nat)
      reads this
    {
      DataCluster(c) && ClusterLba(c) <= s < ClusterLba(c) + sectorsPerCluster
    }

    /** How many clusters have a 32-bit number. */
    function Numbered(): nat
      reads this
    {
      if clusterCount <= 0xFFFF_FFFE then clusterCount else 0xFFFF_FFFE
    }

    /** A sector of a cluster determines the cluster. */
    lemma ClusterOf(c: U32, s: nat)
      requires Geometry() && InCluster(c, s)
      ensures sectorsPerCluster > 0 && s >= dataStart && c == 2 + (s - dataStart) / sectorsPerCluster
      ensures s < dataStart + Numbered() * sectorsPerCluster
    {
      hide ClusterLba, Geometry, Quotient, Mod32;
      SectorsPositive();
      ClusterInBounds(c);
      Commute(c - 2, sectorsPerCluster);
      DivUnique(s - dataStart, sectorsPerCluster, c - 2, s - ClusterLba(c));
      MulMonotone(sectorsPerCluster, Numbered(), c - 1);
      Step(c - 2, sectorsPerCluster);
      Commute(Numbered(), sectorsPerCluster);
      Commute(c - 1, sectorsPerCluster);
    }

    /** Every sector of the numbered clusters belongs to one. */
    lemma ClusterAt(s: nat) returns (c: U32)
      requires Geometry() && dataStart <= s < dataStart + Numbered() * sectorsPerCluster
      ensures InCluster(c, s)
    {
      hide ClusterLba, Geometry, Quotient, Mod32;
      SectorsPositive();
      var q := QuotientAt(s - dataStart, sectorsPerCluster, Numbered());
      c := q + 2;
      ClusterInBounds(c);
      assert q * sectorsPerCluster == (c - 2) * sectorsPerCluster;
    }

    /** The clusters are pairwise disjoint, and they are exactly the clustered part of the
        data area. */
    lemma ClustersPartition(s: nat)
      requires Geometry()
      ensures forall c: U32, d: U32 :: InCluster(c, s) && InCluster(d, s) ==> c == d
      ensures (exists c: U32 :: InCluster(c, s)) <==> dataStart <= s < dataStart + Numbered() * sectorsPerCluster
    {
      hide *;
      forall c: U32 | InCluster(c, s)
        ensures sectorsPerCluster > 0 && s >= dataStart && c == 2 + (s - dataStart) / sectorsPerCluster
        ensures s < dataStart + Numbered() * sectorsPerCluster
      {
        ClusterOf(c, s);
      }
      if dataStart <= s < dataStart + Numbered() * sectorsPerCluster {
        var c := ClusterAt(s);
      }
    }

    lemma SectorsPositive()
      requires Geometry()
      ensures sectorsPerCluster > 0
    {
    }

    /** fat_fill_super after the boot sector is read: -EINVAL, or a parsed volume whose
        FAT32 root directory starts at the first sector of a data cluster. */
    method FillSuper(sectorSize: U32, b: Bpb) returns (err: int)
      modifies this
      ensures err == 0 || err == -EINVAL
      ensures err == 0 ==>
        && 512 <= sectorSize <= 4096 && b.bytesPerSector == sectorSize
        && Parses(b) && Geometry() && sectorsPerCluster == b.sectorsPerCluster && totalSectors == TotalSectors(b)
        && fatStart == b.reservedSectors && dataStart == Mod32(MetadataSectorsMasked(b))
        && (kind != Fat32 ==> rootStart == Mod32(b.reservedSectors + Product(b.fatCount, FatSize(b))))
        && (kind == Fat32 ==> 2 <= b.rootCluster < clusterCount + 2 && b.rootCluster < 0x0FFF_FFF0
                              && rootStart == dataStart + (b.rootCluster - 2) * sectorsPerCluster)
      ensures err != 0 && 512 <= sectorSize <= 4096 && b.bytesPerSector == sectorSize && Parses(b) ==>
        Geometry() && kind == Fat32 && !(2 <= b.rootCluster < clusterCount + 2 && b.rootCluster < 0x0FFF_FFF0)
    {
      hide Parses, Geometry, ClusterLba, Mod32, MetadataSectorsMasked, Product;
      if sectorSize < FAT_BYTES_PER_SECTOR_512 || sectorSize > FAT_BYTES_PER_SECTOR_4096 {
        return -EINVAL;
      }
      if b.bytesPerSector != sectorSize {
        return -EINVAL;
      }
      err := ParseBpb(b);
      if err != 0 {
        return -EINVAL;
      }
      match kind
      case Fat12 =>
      case Fat16 =>
      case Fat32 =>
        if b.rootCluster < FAT_FIRST_DATA_CLUSTER || b.rootCluster >= FAT32_RESERVED_MIN
           || b.rootCluster >= clusterCount + FAT_FIRST_DATA_CLUSTER {
          return -EINVAL;
        }
        ClusterInBounds(b.rootCluster);
      case Unknown =>
        KindKnown();
        assert false;
    }

    lemma KindKnown()
      requires Geometry()
      ensures kind != Unknown
    {
    }

    lemma ClusterLbaIs(c: U32)
      requires c >= FAT_FIRST_DATA_CLUSTER
      ensures ClusterLba(c) == Mod32(dataStart + Mod32(Product(c - FAT_FIRST_DATA_CLUSTER, sectorsPerCluster)))
    {
      hide Mod32;
      MinusTwo(c);
    }
  }

  /** Where the data start when nothing wraps. */
  lemma Layout(b: Bpb)
    requires b.bytesPerSector > 0 && exists k: nat :: k <= 15 && b.bytesPerSector == Pow2(k)
    ensures
      var fatSize := if b.fatSize16 == 0 then b.fatSize32 else b.fatSize16;
      var fatEnd := b.reservedSectors + b.fatCount * fatSize;
      var start := fatEnd + (32 * b.rootEntries + b.bytesPerSector - 1) / b.bytesPerSector;
      && (start - fatEnd) * b.bytesPerSector >= 32 * b.rootEntries
      && (start < 0x1_0000_0000 ==>
            Mod32(MetadataSectorsMasked(b)) == start
            && Mod32(b.reservedSectors + Product(b.fatCount, FatSize(b))) == fatEnd)
  {
    hide Pow2, Mod32, RootDirSectorsMasked;
    var k: nat :| k <= 15 && b.bytesPerSector == Pow2(k);
    MetadataExact(b, k);
    RootRoom(32 * b.rootEntries, b.bytesPerSector);
    var start := MetadataSectors(b);
    if start < 0x1_0000_0000 {
      NoWrap(start);
      NoWrap(b.reservedSectors + Product(b.fatCount, FatSize(b)));
    }
  }

  lemma RootRoom(x: nat, s: nat)
    requires s > 0
    ensures (x + s - 1) / s * s >= x
  {
    var q := (x + s - 1) / s;
    assert x + s - 1 == s * q + (x + s - 1) % s;
    Commute(q, s);
  }

  lemma QuotientIs(n: nat, d: U8)
    requires d > 0
    ensures Quotient(n, d) * d <= n < (Quotient(n, d) + 1) * d
  {
    var q := n / d;
    assert n == d * q + n % d;
    Commute(q, d);
    Step(q, d);
  }

  lemma MinusTwo(c: U32)
    requires c >= 2
    ensures Mod32(c + 0x1_0000_0000 - 2) == c - 2
  {
    DivUnique(c + 0x1_0000_0000 - 2, 0x1_0000_0000, 1, c - 2);
  }

  function Product(a: nat, b: nat): (p: nat)
  {
    a * b
  }

  function Quotient(n: nat, d: U8): (q: nat)
    requires d > 0
    ensures q <= n
  {
    QuotientAtMost(n, d);
    n / d
  }

  lemma QuotientAtMost(n: nat, d: nat)
    requires d > 0
    ensures n / d <= n
  {
    var q := n / d;
    assert n == d * q + n % d;
    if q > 0 {
      MulMonotone(q, d, 1);
    }
  }

  lemma Commute(a: int, b: int)
    ensures a * b == b * a
  {
  }

  lemma Step(a: int, s: int)
    ensures (a + 1) * s == a * s + s
  {
  }

  lemma QuotientBelow(n: nat, d: nat, q: nat)
    requires d > 0 && n < q * d
    ensures n / d < q && n / d * d <= n < n / d * d + d
  {
    var k := n / d;
    assert n == d * k + n % d;
    MulMonotone(d, k, q);
    Commute(q, d);
    Commute(k, d);
  }

  lemma QuotientAt(n: nat, d: nat, bound: nat) returns (q: nat)
    requires d > 0 && n < bound * d
    ensures q < bound && q * d <= n < q * d + d
  {
    QuotientBelow(n, d, bound);
    q := n / d;
  }

  /** Run i of s sectors lies within n sectors if i < n / s. */
  lemma RunInRoom(n: nat, s: U8, i: nat)
    requires s > 0 && i < Quotient(n, s)
    ensures Product(i, s) == i * s && i * s + s <= n
  {
    var q := Quotient(n, s);
    assert n == s * q + n % s;
    MulMonotone(s, q, i + 1);
    Commute(i, s);
    Step(i, s);
    Commute(i + 1, s);
  }

  /** For sector sizes that are powers of two ALIGN_UP rounds the root directory up to
      whole sectors, so a sum that does not wrap is the real start of the data area. */
  lemma MetadataExact(b: Bpb, k: nat)
    requires k <= 15 && b.bytesPerSector == Pow2(k)
    ensures RootDirSectorsMasked(b) == RootDirSectors(b) && MetadataSectorsMasked(b) == MetadataSectors(b)
  {
    hide And, Pow2, Not;
    var x, a := b.rootEntries * FAT_DIRECTORY_ENTRY_SIZE + b.bytesPerSector - 1, b.bytesPerSector;
    AndNotLow(x, k);
    DivUnique(a * (x / a), a, x / a, 0);
  }

  lemma AndNotLow(x: nat, k: nat)
    requires k <= 15 && x < W64
    ensures Pow2(k) <= 0x8000 && And(x, Not(Pow2(k) - 1)) == Pow2(k) * (x / Pow2(k))
  {
    hide And, Shl, Pow2, Shr;
    PowMonotone(k, 15);
    Power15();
    WordPower();
    PowSplit(k, 64 - k);
    ShlMul(Pow2(64 - k) - 1, k);
    Complement(Pow2(k), Pow2(64 - k));
    AndHigh(x, Pow2(64 - k) - 1, k);
    ShrFits(x, k);
    AndAll(Shr(x, k), 64 - k);
    ShlMul(Shr(x, k), k);
    ShrIs(x, k);
  }

  lemma Power15()
    ensures Pow2(15) == 0x8000
  {
    assert Pow2(8) == 0x100;
  }

  lemma Complement(p: nat, q: nat)
    requires p > 0 && p * q == W64
    ensures W64 - 1 - (p - 1) == p * (q - 1)
  {
  }

  lemma ShrFits(x: nat, k: nat)
    requires k <= 64 && x < Pow2(64)
    ensures Shr(x, k) < Pow2(64 - k)
  {
    PowSplit(k, 64 - k);
    var p, q := Pow2(k), Pow2(64 - k);
    hide Pow2;
    QuotientBelow(x, p, q) by {
      Commute(p, q);
    }
  }

  lemma {:induction false} PowMonotone(a: nat, b: nat)
    requires a <= b
    ensures Pow2(a) <= Pow2(b)
  {
    if a < b {
      PowMonotone(a, b - 1);
    }
  }

  lemma {:induction false} PowSplit(a: nat, b: nat)
    ensures Pow2(a + b) == Pow2(a) * Pow2(b)
  {
    if a > 0 {
      PowSplit(a - 1, b);
      Assoc(Pow2(a - 1), Pow2(b));
    }
  }

  lemma Assoc(x: nat, y: nat)
    ensures 2 * x * y == 2 * (x * y)
  {
  }

  lemma NoWrap(x: nat)
    requires x < 0x1_0000_0000
    ensures Mod32(x) == x
  {
  }

  lemma Mod32Sum(a: nat, b: nat, c: nat)
    ensures Mod32(Mod32(a + Mod32(b)) + Mod32(c)) == Mod32(a + b + c)
    ensures Mod32(a + Mod32(b)) == Mod32(a + b)
  {
    Mod32Add(a, b);
    Mod32Add(a + b, c);
    Mod32Add(c, a + b);
    Mod32Add(Mod32(a + b), c);
  }

  lemma Mod32Add(a: nat, b: nat)
    ensures Mod32(a + Mod32(b)) == Mod32(a + b)
  {
  }
}
