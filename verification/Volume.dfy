// Where a FAT32 volume keeps things: boot sector, first FAT copy, clusters; and what a sector write can change.
module Volume {
  import opened Bytes
  import opened Fat

  type Disk = seq<Sector>

  datatype Geometry = Geometry(partLba: nat, reserved: nat, numFats: nat, fatSz: nat, spc: nat, root: nat) {
    function FatLba(): nat { partLba + reserved }

    function ClusterBegin(): nat { partLba + reserved + numFats * fatSz }

    /** Entries one FAT copy holds. */
    function Entries(): nat { fatSz * 128 }

    function ClusterSize(): nat { spc * 512 }

    function LbaOf(c: nat): int { ClusterBegin() + (c - 2) * spc }

    /** The disk of `n` sectors holds the reserved sectors, the FAT copies and every cluster the FAT can name. */
    ghost predicate Fits(n: nat) {
      && spc > 0 && reserved > 0 && numFats > 0 && fatSz > 0
      && Entries() <= 0x0FFF_FFF7
      && ClusterBegin() + (Entries() - 2) * spc <= n
    }

    ghost predicate Names(c: nat) { 2 <= c < Entries() }
  }

  ghost predicate HasBootSectors(d: Disk) {
    |d| > 0 && U32At(d[0], 454) < |d|
  }

  /** The geometry the master boot record and the volume's boot sector describe; None unless sectors are 512 bytes. */
  function Parse(d: Disk): (g: Option<Geometry>)
    requires HasBootSectors(d)
  {
    var partLba := U32At(d[0], 454);
    var vbr := d[partLba];
    if U16At(vbr, 11) != 512 then None
    else Some(Geometry(partLba, U16At(vbr, 14), vbr[16], U32At(vbr, 36), vbr[13], U32At(vbr, 44)))
  }

  ghost predicate Mounted(d: Disk, g: Geometry) {
    HasBootSectors(d) && Parse(d) == Some(g) && g.Fits(|d|)
  }

  ghost predicate SameOutside(d: Disk, e: Disk, lo: int, hi: int) {
    |d| == |e| && forall l :: 0 <= l < |d| && !(lo <= l < hi) ==> e[l] == d[l]
  }

  /** Writing only past the reserved sectors leaves the volume mounted with the same geometry. */
  lemma StaysMounted(d: Disk, e: Disk, g: Geometry, lo: int, hi: int)
    requires Mounted(d, g) && SameOutside(d, e, lo, hi) && g.FatLba() <= lo
    ensures Mounted(e, g)
  {
  }

  // ------------------------------------------------------- address arithmetic

  lemma LbaBounds(g: Geometry, n: nat, c: nat)
    requires g.Fits(n) && g.Names(c)
    ensures g.FatLba() + g.fatSz <= g.ClusterBegin() <= g.LbaOf(c)
    ensures g.LbaOf(c) + g.spc <= n
  {
    MulMono(1, g.numFats, g.fatSz);
    MulMono(0, c - 2, g.spc);
    MulStep(c - 2, g.Entries() - 2, g.spc);
  }

  /** Clusters occupy pairwise disjoint sector ranges. */
  lemma LbaDisjoint(g: Geometry, a: nat, b: nat)
    requires 2 <= a && 2 <= b && a != b
    ensures g.LbaOf(a) + g.spc <= g.LbaOf(b) || g.LbaOf(b) + g.spc <= g.LbaOf(a)
  {
    if a < b { MulStep(a - 2, b - 2, g.spc); } else { MulStep(b - 2, a - 2, g.spc); }
  }

  /** The clusters come after every FAT copy. */
  lemma AfterAllCopies(g: Geometry, n: nat, c: nat, k: nat, s: nat)
    requires g.Fits(n) && g.Names(c) && k < g.numFats && s < g.fatSz
    ensures g.partLba + g.reserved + k * g.fatSz + s < g.LbaOf(c)
  {
    LbaBounds(g, n, c);
    MulStep(k, g.numFats, g.fatSz);
  }

  /** No sector of any FAT copy changed. */
  ghost predicate CopiesKept(d: Disk, e: Disk, g: Geometry) {
    && |e| == |d|
    && forall l :: 0 <= l < |d| && g.partLba + g.reserved <= l < g.partLba + g.reserved + g.numFats * g.fatSz ==>
         e[l] == d[l]
  }

  /** A write inside a cluster changes no FAT copy. */
  lemma ClusterWriteSparesCopies(d: Disk, e: Disk, g: Geometry, c: nat)
    requires g.Fits(|d|) && g.Names(c) && SameOutside(d, e, g.LbaOf(c), g.LbaOf(c) + g.spc)
    ensures CopiesKept(d, e, g)
  {
    LbaBounds(g, |d|, c);
  }

  /** From the end of the last FAT copy on, every sector of the data area belongs to exactly one cluster, in order. */
  lemma NoGap(g: Geometry, n: nat, k: nat) returns (c: nat, i: nat)
    requires g.Fits(n) && k < (g.Entries() - 2) * g.spc
    ensures g.Names(c) && i < g.spc && g.partLba + g.reserved + g.numFats * g.fatSz + k == g.LbaOf(c) + i
    ensures c == 2 + k / g.spc
    ensures forall e :: g.Names(e) && g.LbaOf(e) <= g.LbaOf(c) + i < g.LbaOf(e) + g.spc ==> e == c
  {
    c, i := 2 + k / g.spc, k % g.spc;
    assert k == g.spc * (k / g.spc) + k % g.spc;
    if c - 2 >= g.Entries() - 2 { MulMono(g.Entries() - 2, c - 2, g.spc); }
    forall e | g.Names(e) && g.LbaOf(e) <= g.LbaOf(c) + i < g.LbaOf(e) + g.spc ensures e == c {
      if e != c { LbaDisjoint(g, e, c); }
    }
  }

  // ------------------------------------------------------------- first FAT copy

  function FatSector(g: Geometry, c: nat): nat { g.FatLba() + c * 4 / 512 }

  function FatOffset(c: nat): nat { c * 4 % 512 }

  lemma FatFits(g: Geometry, n: nat)
    requires g.Fits(n)
    ensures g.FatLba() + g.fatSz <= n
  {
    LbaBounds(g, n, 2);
  }

  lemma FatSectorBounds(g: Geometry, n: nat, c: nat)
    requires g.Fits(n) && c < g.Entries()
    ensures g.FatLba() <= FatSector(g, c) < g.FatLba() + g.fatSz <= n
    ensures FatOffset(c) + 4 <= 512
  {
    FatFits(g, n);
    FatSlot(c);
    assert c * 4 / 512 == c / 128;
  }

  lemma FatSlot(c: nat)
    ensures FatOffset(c) % 4 == 0 && FatOffset(c) + 4 <= 512
  {
  }

  lemma FatSlotsDiffer(a: nat, b: nat)
    requires a != b && a * 4 / 512 == b * 4 / 512
    ensures FatOffset(a) != FatOffset(b)
  {
  }

  /** Entry `i` of FAT sector `sector` is entry `sector * 128 + i` of the table. */
  lemma FatIndex(g: Geometry, sector: nat, i: nat)
    requires i < 128
    ensures FatSector(g, sector * 128 + i) == g.FatLba() + sector && FatOffset(sector * 128 + i) == i * 4
  {
  }

  function FatWord(d: Disk, g: Geometry, c: nat): (v: nat)
    requires g.Fits(|d|) && c < g.Entries()
    ensures v < 0x1_0000_0000
  {
    FatSectorBounds(g, |d|, c);
    U32At(d[FatSector(g, c)], FatOffset(c))
  }

  /** The first FAT copy as one flat array. */
  function FatView(d: Disk, g: Geometry): (fat: seq<nat>)
    requires g.Fits(|d|)
    ensures |fat| == g.Entries() && FatOk(fat)
    ensures forall c :: 0 <= c < |fat| ==> fat[c] == FatWord(d, g, c)
  {
    seq(g.Entries(), c requires 0 <= c < g.Entries() => FatWord(d, g, c))
  }

  /** The table is the FAT's sectors, laid end to end, read as four-byte words. */
  lemma FatIsArray(d: Disk, g: Geometry, c: nat)
    requires g.Fits(|d|) && c < g.Entries()
    ensures g.partLba + g.reserved + g.fatSz <= |d|
    ensures var bytes := Flatten(d[g.partLba + g.reserved..g.partLba + g.reserved + g.fatSz]);
            4 * c + 4 <= |bytes| && FatView(d, g)[c] == U32At(bytes, 4 * c)
  {
    hide Flatten;
    hide FatSector;
    hide FatOffset;
    hide U32At;
    FatFits(g, |d|);
    var sectors := d[g.FatLba()..g.FatLba() + g.fatSz];
    var bytes := Flatten(sectors);
    var i, r := c / 128, c % 128;
    FatIndex(g, i, r);
    FlattenSlice(sectors, 512, i);
    assert i * 128 + r == c && sectors[i] == d[g.FatLba() + i];
    WordInSlice(bytes, i * 512, i * 512 + 512, i * 512 + 4 * r - i * 512);
  }

  lemma WordInSlice(b: seq<byte>, lo: nat, hi: nat, at: nat)
    requires lo <= hi <= |b| && lo + at + 4 <= hi
    ensures U32At(b[lo..hi], at) == U32At(b, lo + at)
  {
  }

  /** The disk after the 28-bit `value` is stored in entry `c`. */
  function StoreFat(d: Disk, g: Geometry, c: nat, value: nat): (e: Disk)
    requires g.Fits(|d|) && c < g.Entries()
    ensures |e| == |d|
  {
    FatSectorBounds(g, |d|, c);
    var v := Stored(FatWord(d, g, c), value);
    d[FatSector(g, c) := Splice(d[FatSector(g, c)], FatOffset(c), U32Bytes(v))]
  }

  lemma WordElsewhere(s: seq<byte>, a: nat, b: nat, v: nat)
    requires a % 4 == 0 && b % 4 == 0 && a + 4 <= |s| && b + 4 <= |s| && v < 0x1_0000_0000
    ensures U32At(Splice(s, a, U32Bytes(v)), b) == if a == b then v else U32At(s, b)
  {
  }

  lemma StoreFatWord(d: Disk, g: Geometry, c: nat, value: nat, x: nat)
    requires g.Fits(|d|) && c < g.Entries() && x < g.Entries()
    ensures FatWord(StoreFat(d, g, c, value), g, x)
         == if x == c then Stored(FatWord(d, g, c), value) else FatWord(d, g, x)
  {
    FatSectorBounds(g, |d|, c);
    FatSectorBounds(g, |d|, x);
    FatSlot(c);
    FatSlot(x);
    var v := Stored(FatWord(d, g, c), value);
    if x != c && FatSector(g, x) == FatSector(g, c) { FatSlotsDiffer(x, c); }
    WordElsewhere(d[FatSector(g, c)], FatOffset(c), FatOffset(x), v);
  }

  /** A store changes one entry of the flat table, and no sector outside the first FAT copy. */
  lemma StoreFatView(d: Disk, g: Geometry, c: nat, value: nat)
    requires g.Fits(|d|) && c < g.Entries()
    ensures FatView(StoreFat(d, g, c, value), g) == FatView(d, g)[c := Stored(FatView(d, g)[c], value)]
    ensures SameOutside(d, StoreFat(d, g, c, value), g.FatLba(), g.FatLba() + g.fatSz)
  {
    FatSectorBounds(g, |d|, c);
    forall x | 0 <= x < g.Entries()
      ensures FatWord(StoreFat(d, g, c, value), g, x)
           == if x == c then Stored(FatWord(d, g, c), value) else FatWord(d, g, x)
    {
      StoreFatWord(d, g, c, value, x);
    }
  }

  lemma FatViewSame(d: Disk, e: Disk, g: Geometry, lo: int, hi: int)
    requires g.Fits(|d|) && SameOutside(d, e, lo, hi) && g.FatLba() + g.fatSz <= lo
    ensures FatView(e, g) == FatView(d, g)
  {
    forall c | 0 <= c < g.Entries() ensures FatWord(e, g, c) == FatWord(d, g, c) {
      FatSectorBounds(g, |d|, c);
    }
  }

  // ------------------------------------------------------------------- clusters

  function Sectors(d: Disk, g: Geometry, c: nat): (s: seq<Sector>)
    requires g.Fits(|d|) && g.Names(c)
    ensures |s| == g.spc
  {
    LbaBounds(g, |d|, c);
    d[g.LbaOf(c)..g.LbaOf(c) + g.spc]
  }

  /** The bytes of one cluster. */
  function Cluster(d: Disk, g: Geometry, c: nat): (b: seq<byte>)
    requires g.Fits(|d|) && g.Names(c)
    ensures |b| == g.ClusterSize()
  {
    FlattenLength(Sectors(d, g, c), 512);
    Flatten(Sectors(d, g, c))
  }

  ghost predicate AllNamed(g: Geometry, cs: seq<nat>) {
    forall i :: 0 <= i < |cs| ==> g.Names(cs[i])
  }

  function Blocks(d: Disk, g: Geometry, cs: seq<nat>): (b: seq<seq<byte>>)
    requires g.Fits(|d|) && AllNamed(g, cs)
    ensures |b| == |cs| && Uniform(b, g.ClusterSize())
    ensures forall i :: 0 <= i < |cs| ==> b[i] == Cluster(d, g, cs[i])
  {
    seq(|cs|, i requires 0 <= i < |cs| => Cluster(d, g, cs[i]))
  }

  /** The bytes of a whole chain, cluster after cluster. */
  function ChainBytes(d: Disk, g: Geometry, cs: seq<nat>): (b: seq<byte>)
    requires g.Fits(|d|) && AllNamed(g, cs)
    ensures |b| == |cs| * g.ClusterSize()
  {
    FlattenLength(Blocks(d, g, cs), g.ClusterSize());
    Flatten(Blocks(d, g, cs))
  }

  lemma ChainBytesAppend(d: Disk, g: Geometry, a: seq<nat>, b: seq<nat>)
    requires g.Fits(|d|) && AllNamed(g, a) && AllNamed(g, b)
    ensures AllNamed(g, a + b)
    ensures ChainBytes(d, g, a + b) == ChainBytes(d, g, a) + ChainBytes(d, g, b)
  {
    FlattenAppend(Blocks(d, g, a), Blocks(d, g, b));
    assert Blocks(d, g, a + b) == Blocks(d, g, a) + Blocks(d, g, b);
  }

  lemma ChainBytesAt(d: Disk, g: Geometry, cs: seq<nat>, i: nat)
    requires g.Fits(|d|) && AllNamed(g, cs) && i < |cs|
    ensures var w := g.ClusterSize();
            i * w + w <= |ChainBytes(d, g, cs)| && ChainBytes(d, g, cs)[i * w..i * w + w] == Cluster(d, g, cs[i])
  {
    FlattenSlice(Blocks(d, g, cs), g.ClusterSize(), i);
  }

  lemma ClusterSame(d: Disk, e: Disk, g: Geometry, c: nat, lo: int, hi: int)
    requires g.Fits(|d|) && g.Names(c) && SameOutside(d, e, lo, hi)
    requires hi <= g.LbaOf(c) || g.LbaOf(c) + g.spc <= lo
    ensures Cluster(e, g, c) == Cluster(d, g, c)
  {
    LbaBounds(g, |d|, c);
    assert Sectors(e, g, c) == Sectors(d, g, c);
  }

  /** A cluster being rewritten from left to right, one more sector done. */
  lemma NextSectorDone(d: Disk, g: Geometry, c: nat, i: nat, b: Sector, before: seq<byte>, target: seq<byte>)
    requires g.Fits(|d|) && g.Names(c) && i < g.spc && |before| == |target| == g.ClusterSize()
    requires Cluster(d, g, c) == target[..i * 512] + before[i * 512..] && b == target[i * 512..i * 512 + 512]
    ensures 0 <= g.LbaOf(c) && g.LbaOf(c) + i < |d|
    ensures Cluster(d[g.LbaOf(c) + i := b], g, c) == target[..(i + 1) * 512] + before[(i + 1) * 512..]
  {
    hide g.LbaOf;
    hide Cluster;
    LbaBounds(g, |d|, c);
    ClusterSectorWrite(d, g, c, i, b);
    SpliceProgress(before, target, i * 512, i * 512 + 512);
  }

  /** A write inside the first FAT copy changes no chain's bytes. */
  lemma ChainBytesAfterFat(d: Disk, e: Disk, g: Geometry, cs: seq<nat>)
    requires g.Fits(|d|) && AllNamed(g, cs) && SameOutside(d, e, g.FatLba(), g.FatLba() + g.fatSz)
    ensures ChainBytes(e, g, cs) == ChainBytes(d, g, cs)
  {
    forall i | 0 <= i < |cs| ensures Cluster(e, g, cs[i]) == Cluster(d, g, cs[i]) {
      LbaBounds(g, |d|, cs[i]);
      ClusterSame(d, e, g, cs[i], g.FatLba(), g.FatLba() + g.fatSz);
    }
    assert Blocks(e, g, cs) == Blocks(d, g, cs);
  }

  /** A write inside cluster `c` changes no chain without `c`. */
  lemma ChainBytesElsewhere(d: Disk, e: Disk, g: Geometry, cs: seq<nat>, c: nat)
    requires g.Fits(|d|) && AllNamed(g, cs) && g.Names(c) && c !in cs
    requires SameOutside(d, e, g.LbaOf(c), g.LbaOf(c) + g.spc)
    ensures ChainBytes(e, g, cs) == ChainBytes(d, g, cs)
  {
    forall i | 0 <= i < |cs| ensures Cluster(e, g, cs[i]) == Cluster(d, g, cs[i]) {
      LbaDisjoint(g, c, cs[i]);
      ClusterSame(d, e, g, cs[i], g.LbaOf(c), g.LbaOf(c) + g.spc);
    }
    assert Blocks(e, g, cs) == Blocks(d, g, cs);
  }

  lemma BlocksWrite(d: Disk, e: Disk, g: Geometry, cs: seq<nat>, i: nat)
    requires g.Fits(|d|) && |e| == |d| && AllNamed(g, cs) && i < |cs|
    requires forall j :: 0 <= j < |cs| && cs[j] == cs[i] ==> j == i
    requires SameOutside(d, e, g.LbaOf(cs[i]), g.LbaOf(cs[i]) + g.spc)
    ensures Blocks(e, g, cs) == Blocks(d, g, cs)[i := Cluster(e, g, cs[i])]
  {
    hide g.LbaOf;
    hide Cluster;
    var c := cs[i];
    forall j | 0 <= j < |cs| && j != i ensures Cluster(e, g, cs[j]) == Cluster(d, g, cs[j]) {
      LbaDisjoint(g, c, cs[j]);
      ClusterSame(d, e, g, cs[j], g.LbaOf(c), g.LbaOf(c) + g.spc);
    }
  }

  /** Splicing into the `i`-th cluster of a chain without repetitions is splicing into the chain's bytes. */
  lemma ChainBytesWrite(d: Disk, e: Disk, g: Geometry, cs: seq<nat>, i: nat, off: nat, data: seq<byte>, at: nat)
    requires g.Fits(|d|) && |e| == |d| && AllNamed(g, cs) && i < |cs| && off + |data| <= g.ClusterSize()
    requires forall j :: 0 <= j < |cs| && cs[j] == cs[i] ==> j == i
    requires SameOutside(d, e, g.LbaOf(cs[i]), g.LbaOf(cs[i]) + g.spc)
    requires Cluster(e, g, cs[i]) == Splice(Cluster(d, g, cs[i]), off, data)
    requires at == i * g.ClusterSize() + off
    ensures at + |data| <= |ChainBytes(d, g, cs)|
    ensures ChainBytes(e, g, cs) == Splice(ChainBytes(d, g, cs), at, data)
  {
    hide g.LbaOf;
    hide Cluster;
    BlocksWrite(d, e, g, cs, i);
    FlattenSplice(Blocks(d, g, cs), g.ClusterSize(), i, off, data, at);
  }

  /** One rewritten sector of a cluster, as a splice of the cluster. */
  lemma ClusterSectorWrite(d: Disk, g: Geometry, c: nat, s: nat, b: Sector)
    requires g.Fits(|d|) && g.Names(c) && s < g.spc
    ensures 0 <= g.LbaOf(c) && g.LbaOf(c) + s < |d|
    ensures s * 512 + 512 <= g.ClusterSize()
    ensures Cluster(d[g.LbaOf(c) + s := b], g, c) == Splice(Cluster(d, g, c), s * 512, b)
  {
    LbaBounds(g, |d|, c);
    FlattenUpdate(Sectors(d, g, c), 512, s, b);
    assert Sectors(d[g.LbaOf(c) + s := b], g, c) == Sectors(d, g, c)[s := b];
  }

  lemma ClusterSectorAt(d: Disk, g: Geometry, c: nat, s: nat)
    requires g.Fits(|d|) && g.Names(c) && s < g.spc
    ensures 0 <= g.LbaOf(c) && g.LbaOf(c) + s < |d|
    ensures s * 512 + 512 <= g.ClusterSize()
    ensures Cluster(d, g, c)[s * 512..s * 512 + 512] == d[g.LbaOf(c) + s]
  {
    LbaBounds(g, |d|, c);
    FlattenSlice(Sectors(d, g, c), 512, s);
  }
}
