// Concrete disks of every geometry: one empty file "A" in cluster 5, and `free` free clusters behind it.
module SmallVolume {
  import opened Bytes
  import opened FileModel
  import opened FileRuns
  import opened Fat
  import opened Volume
  import opened Directory
  import opened FileState
  import opened Refinement
  import opened OnDisk

  /** Partition start, reserved sectors, FAT copies, sectors per cluster, free clusters. */
  datatype Plan = Plan(part: nat, reserved: nat, copies: nat, spc: nat, free: nat) {
    predicate Ok() {
      && 0 < part < 0x1_0000_0000 && 0 < reserved < 0x1_0000 && 0 < copies < 256 && 0 < spc < 256
      && free < 0x0FFF_FF00
    }

    function FatSize(): (k: nat)
      ensures free + 6 <= k * 128 <= free + 133
    {
      (free + 133) / 128
    }

    function Shape(): Geometry { Geometry(part, reserved, copies, FatSize(), spc, 2) }

    function Clusters(): nat { FatSize() * 128 - 2 }

    function Sectors(): nat {
      MulMono(0, copies, FatSize());
      MulMono(0, Clusters(), spc);
      part + reserved + copies * FatSize() + Clusters() * spc
    }

    /** Bytes of the free clusters. */
    function Room(): nat { free * (spc * 512) }

    predicate FreeHere(c: nat) { 6 <= c < 6 + free }
  }

  function Zeros(n: nat): (s: seq<byte>)
    ensures |s| == n && forall i :: 0 <= i < n ==> s[i] == 0
  {
    seq(n, _ => 0)
  }

  function Record0(v: Plan): (r: BootRecord)
    requires v.Ok()
    ensures r.Ok() && r.lba == v.part
  {
    BootRecord(Zeros(446), 0x80, Zeros(3), 0x0C, Zeros(3), v.part, v.Sectors() % 0x1_0000_0000, Zeros(48))
  }

  function Boot(v: Plan): (b: VolumeBoot)
    requires v.Ok()
    ensures b.Ok() && b.bytesPerSector == 512 && b.sectorsPerCluster == v.spc && b.reserved == v.reserved
    ensures b.copies == v.copies && b.fatSize32 == v.FatSize() && b.root == 2
  {
    VolumeBoot(Zeros(3), Zeros(8), 512, v.spc, v.reserved, v.copies, 0, 0, 0xF8, 0, 0, 0, 0, 0,
               v.FatSize(), 0, 0, 2, Zeros(464))
  }

  /** Free entries are zero, all others end a chain. */
  function TableSector(v: Plan, i: nat): Sector {
    seq(512, k requires 0 <= k < 512 => if v.FreeHere(128 * i + k / 4) then 0 else 0xFF)
  }

  function FileEntry(): (e: DirEntry)
    ensures e.Ok()
  {
    DirEntry(Padded([0x41], 8), Padded([], 3), 0x20, 0, 0, 0, 0, 0, 0, 0, 0, 5, 0)
  }

  function RootSector(): Sector { FileEntry().Bytes() + Zeros(480) }

  function SectorOf(v: Plan, l: nat): Sector
    requires v.Ok()
  {
    var g := v.Shape();
    if l == 0 then Record0(v).Bytes()
    else if l == v.part then Boot(v).Bytes()
    else if g.FatLba() <= l < g.ClusterBegin() then TableSector(v, (l - g.FatLba()) % v.FatSize())
    else if l == g.ClusterBegin() then RootSector()
    else Zeros(512)
  }

  function Image(v: Plan): (d: Disk)
    requires v.Ok()
    ensures |d| == v.Sectors()
    ensures forall l :: 0 <= l < |d| ==> d[l] == SectorOf(v, l)
  {
    seq(v.Sectors(), l requires 0 <= l < v.Sectors() => SectorOf(v, l))
  }

  const CHAINS: Chains := map[2 := [2], 5 := [5]]

  lemma ShapeFits(v: Plan)
    requires v.Ok()
    ensures v.Shape().Fits(v.Sectors()) && v.part < v.Sectors()
  {
    MulMono(0, v.copies, v.FatSize());
    MulMono(4, v.FatSize() * 128 - 2, v.spc);
  }

  lemma ShapeMounted(v: Plan)
    requires v.Ok()
    ensures Mounted(Image(v), v.Shape())
  {
    hide Image;
    ShapeFits(v);
    GeometryAsWritten(Image(v), Record0(v), Boot(v));
  }

  lemma SectorKinds(v: Plan, l: nat)
    requires v.Ok() && v.part + v.reserved <= l
    ensures var g := v.Shape();
            && (l < g.FatLba() + v.FatSize() ==> SectorOf(v, l) == TableSector(v, l - g.FatLba()))
            && (l == g.ClusterBegin() ==> SectorOf(v, l) == RootSector())
            && (l > g.ClusterBegin() ==> SectorOf(v, l) == Zeros(512))
  {
    hide TableSector;
    hide RootSector;
    hide Zeros;
    MulMono(1, v.copies, v.FatSize());
    if l < v.Shape().FatLba() + v.FatSize() { SmallMod(l - v.Shape().FatLba(), v.FatSize()); }
  }

  lemma SmallMod(x: nat, m: nat)
    requires x < m
    ensures x % m == x
  {
  }

  // ----------------------------------------------------------------- the FAT

  lemma WordInSector(v: Plan, i: nat, r: nat)
    requires r < 128
    ensures U32At(TableSector(v, i), 4 * r) == if v.FreeHere(128 * i + r) then 0 else 0xFFFF_FFFF
  {
    var s := TableSector(v, i);
    var x: byte := if v.FreeHere(128 * i + r) then 0 else 0xFF;
    assert 4 * r / 4 == (4 * r + 1) / 4 == (4 * r + 2) / 4 == (4 * r + 3) / 4 == r;
    assert s[4 * r] == x && s[4 * r + 1] == x && s[4 * r + 2] == x && s[4 * r + 3] == x;
  }

  lemma TableWord(v: Plan, c: nat)
    requires v.Ok() && c < v.Shape().Entries()
    ensures Mounted(Image(v), v.Shape())
    ensures FatWord(Image(v), v.Shape(), c) == if v.FreeHere(c) then 0 else 0xFFFF_FFFF
  {
    hide TableSector;
    hide v.FreeHere;
    hide Image;
    hide SectorOf;
    hide v.Sectors;
    ShapeMounted(v);
    var g := v.Shape();
    var i, r := c / 128, c % 128;
    FatIndex(g, i, r);
    assert i * 128 + r == c;
    FatSectorBounds(g, |Image(v)|, c);
    SectorKinds(v, g.FatLba() + i);
    WordInSector(v, i, r);
  }

  ghost function FreeClusters(v: Plan): set<nat> { set c: nat | c < 6 + v.free && v.FreeHere(c) }

  lemma {:induction false} FreeCount(v: Plan)
    ensures |FreeClusters(v)| == v.free
    decreases v.free
  {
    if v.free == 0 {
      assert FreeClusters(v) == {};
    } else {
      var less := v.(free := v.free - 1);
      FreeCount(less);
      assert FreeClusters(v) == FreeClusters(less) + {5 + v.free};
    }
  }

  /** A table as `TableSector` describes it. */
  ghost predicate TableOf(fat: seq<nat>, v: Plan) {
    |fat| >= 6 + v.free && forall c: nat :: c < |fat| ==> fat[c] == if v.FreeHere(c) then 0 else 0xFFFF_FFFF
  }

  lemma TableChains(fat: seq<nat>, v: Plan)
    requires TableOf(fat, v)
    ensures ChainsOk(fat, CHAINS) && FreeSet(fat) == FreeClusters(v)
  {
    assert forall h :: h in CHAINS ==> CHAINS[h] == [h] && 2 <= h < 6;
    forall h | h in CHAINS ensures Linked(fat, [h]) && Occupied(fat, [h]) { assert !v.FreeHere(h); }
  }

  lemma TableSeen(v: Plan)
    requires v.Ok()
    ensures Mounted(Image(v), v.Shape()) && TableOf(FatView(Image(v), v.Shape()), v)
  {
    hide FatWord;
    hide Image;
    ShapeMounted(v);
    var fat := FatView(Image(v), v.Shape());
    forall c: nat | c < |fat| ensures fat[c] == if v.FreeHere(c) then 0 else 0xFFFF_FFFF { TableWord(v, c); }
  }

  // ---------------------------------------------------------------- clusters

  lemma OneBlock<T>(b: seq<T>)
    ensures Flatten([b]) == b
  {
    assert [b][1..] == [];
  }

  lemma {:induction false} ZeroBlocks(blocks: seq<seq<byte>>)
    requires forall i :: 0 <= i < |blocks| ==> blocks[i] == Zeros(512)
    ensures Flatten(blocks) == Zeros(512 * |blocks|)
  {
    if blocks == [] {
    } else {
      ZeroBlocks(blocks[1..]);
      assert Zeros(512) + Zeros(512 * (|blocks| - 1)) == Zeros(512 * |blocks|);
    }
  }

  lemma ClusterSectors(v: Plan, c: nat, s: seq<Sector>)
    requires v.Ok() && (c == 2 || c == 5) && |s| == v.spc
    requires forall i :: 0 <= i < v.spc ==> s[i] == SectorOf(v, v.Shape().ClusterBegin() + (c - 2) * v.spc + i)
    ensures forall i :: 0 <= i < v.spc ==> s[i] == if c == 2 && i == 0 then RootSector() else Zeros(512)
  {
    hide RootSector;
    hide SectorOf;
    hide Zeros;
    var begin := v.Shape().ClusterBegin();
    assert (c - 2) * v.spc == if c == 2 then 0 else 3 * v.spc;
    forall i | 0 <= i < v.spc ensures s[i] == if c == 2 && i == 0 then RootSector() else Zeros(512) {
      SectorKinds(v, begin + (if c == 2 then 0 else 3 * v.spc) + i);
    }
  }

  /** The root directory's cluster starts with its one entry; the file's cluster is all zeros. */
  lemma OneCluster(v: Plan, c: nat)
    requires v.Ok() && (c == 2 || c == 5)
    ensures Mounted(Image(v), v.Shape()) && v.Shape().Names(c)
    ensures ChainBytes(Image(v), v.Shape(), [c])
         == if c == 2 then RootSector() + Zeros(512 * (v.spc - 1)) else Zeros(512 * v.spc)
  {
    hide Image;
    hide RootSector;
    hide SectorOf;
    hide v.Sectors;
    hide Zeros;
    ShapeMounted(v);
    var d, g := Image(v), v.Shape();
    LbaBounds(g, |d|, c);
    var s := Volume.Sectors(d, g, c);
    ClusterSectors(v, c, s);
    if c == 2 {
      ZeroBlocks(s[1..]);
    } else {
      ZeroBlocks(s);
    }
    OneBlock(Cluster(d, g, c));
    assert Blocks(d, g, [c]) == [Cluster(d, g, c)];
  }

  // ------------------------------------------------------ the root directory

  lemma RootListing(b: seq<byte>)
    requires |b| % 32 == 0 && |b| >= 64 && Entry(b, 0) == FileEntry().Bytes() && b[32] == 0
    ensures Listing(b, 0) == [Record([0x41], 5, 0)]
    ensures Ends(Entry(b, 1))
    ensures FirstCluster(Entry(b, 0)) == 5 && FileSize(Entry(b, 0)) == 0
  {
    hide FileEntry().Bytes;
    var e := Entry(b, 0);
    EntryReadBack(FileEntry());
    NameShown(e, [0x41], []);
    assert Entry(b, 1)[0] == b[32];
    ListingStep(b, 0, e);
    ListingStep(b, 1, Entry(b, 1));
    assert Listing(b, 1) == [];
  }

  lemma RootOk(b: seq<byte>, v: Plan)
    requires |b| % 32 == 0 && |b| >= 64 && Entry(b, 0) == FileEntry().Bytes() && b[32] == 0
    ensures DirOk(b, CHAINS, v.Shape())
  {
    hide FirstCluster;
    hide FileSize;
    hide Hidden;
    hide DisplayName;
    RootListing(b);
    assert forall k :: Live(b, k) ==> k == 0;
  }

  /**
   * Every such disk is well formed, and freshly mounted presents to the callers the state that the runs of `SizeWraps`
   * and `TwoDescriptorsDisagree` start from.
   */
  lemma Presented(v: Plan)
    requires v.Ok()
    ensures VolumeOk(Image(v), v.Shape(), CHAINS)
    ensures Snapshot(Image(v), v.Shape(), CHAINS, seq(256, _ => None), [0, 7]) 
         == OneFile(512 * v.spc, v.Room())
  {
    hide Image;
    hide RootSector;
    hide DirOk;
    hide Linked;
    hide ChainsOk;
    hide FatView;
    hide ChainBytes;
    hide Listing;
    hide FileEntry;
    var d, g := Image(v), v.Shape();
    TableSeen(v);
    TableChains(FatView(d, g), v);
    OneCluster(v, 2);
    OneCluster(v, 5);
    var b := RootSector() + Zeros(512 * (v.spc - 1));
    RootStart(v, b);
    RootOk(b, v);
    RootListing(b);
    FreeCount(v);
    assert Files(d, g, CHAINS) == map[5 := seq(512 * v.spc, _ => 0)];
  }

  lemma RootStart(v: Plan, b: seq<byte>)
    requires v.Ok() && b == RootSector() + Zeros(512 * (v.spc - 1))
    ensures |b| % 32 == 0 && |b| >= 64 && Entry(b, 0) == FileEntry().Bytes() && b[32] == 0
  {
  }
}
