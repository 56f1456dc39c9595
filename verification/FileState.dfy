// What a mounted volume keeps: well-formed chains, a root directory whose sizes the chains cover,
// and how the primitive disk writes preserve it.
module FileState {
  import opened Bytes
  import opened FileModel
  import opened Fat
  import opened Volume
  import opened Directory

  type Chains = map<nat, seq<nat>>

  /** A file of `size` bytes starting at `c`: either empty without a cluster, or held by a chain large enough. */
  ghost predicate Backed(c: nat, size: nat, chains: Chains, g: Geometry) {
    || (c == 0 && size == 0)
    || (c in chains && c != g.root && size <= |chains[c]| * g.ClusterSize())
  }

  ghost predicate DirOk(b: seq<byte>, chains: Chains, g: Geometry) {
    && |b| % 32 == 0
    && (forall k :: Live(b, k) ==> Backed(FirstCluster(Entry(b, k)), FileSize(Entry(b, k)), chains, g))
    && (forall j, k :: Live(b, j) && Live(b, k) && FirstCluster(Entry(b, j)) == FirstCluster(Entry(b, k)) != 0 ==>
          j == k)
  }

  ghost predicate AllChainsNamed(chains: Chains, g: Geometry) {
    forall h :: h in chains ==> AllNamed(g, chains[h])
  }

  ghost predicate VolumeOk(d: Disk, g: Geometry, chains: Chains) {
    && Mounted(d, g)
    && ChainsOk(FatView(d, g), chains)
    && AllChainsNamed(chains, g)
    && g.root in chains
    && DirOk(ChainBytes(d, g, chains[g.root]), chains, g)
  }

  /** The facts about one chain that the driver's loops use. */
  lemma VolumeFacts(d: Disk, g: Geometry, chains: Chains, h: nat)
    requires VolumeOk(d, g, chains) && h in chains
    ensures g.Fits(|d|) && Mounted(d, g)
    ensures Linked(FatView(d, g), chains[h]) && AllNamed(g, chains[h]) && chains[h][0] == h
    ensures g.Names(h)
  {
  }

  lemma RootFacts(d: Disk, g: Geometry, chains: Chains)
    requires VolumeOk(d, g, chains)
    ensures Mounted(d, g) && g.Fits(|d|) && g.root in chains && AllChainsNamed(chains, g)
    ensures Linked(FatView(d, g), chains[g.root]) && AllNamed(g, chains[g.root]) && chains[g.root][0] == g.root
    ensures |RootBytes(d, g, chains)| % 32 == 0
  {
  }

  ghost function RootBytes(d: Disk, g: Geometry, chains: Chains): seq<byte>
    requires g.Fits(|d|) && AllChainsNamed(chains, g) && g.root in chains
  {
    ChainBytes(d, g, chains[g.root])
  }

  ghost predicate FdsOk(fds: seq<Option<FileDescriptor>>, chains: Chains, g: Geometry) {
    forall i :: 0 <= i < |fds| && fds[i].Some? ==>
      Backed(fds[i].value.cluster, fds[i].value.fileSize, chains, g) && fds[i].value.fileSize < 0x1_0000_0000
  }

  lemma FdsOkSet(fds: seq<Option<FileDescriptor>>, chains: Chains, g: Geometry, i: nat, f: FileDescriptor)
    requires FdsOk(fds, chains, g) && i < |fds| && Backed(f.cluster, f.fileSize, chains, g)
    requires f.fileSize < 0x1_0000_0000
    ensures FdsOk(fds[i := Some(f)], chains, g)
  {
  }

  lemma FdsOkAt(fds: seq<Option<FileDescriptor>>, chains: Chains, g: Geometry, i: nat)
    requires FdsOk(fds, chains, g) && i < |fds| && fds[i].Some?
    ensures Backed(fds[i].value.cluster, fds[i].value.fileSize, chains, g) && fds[i].value.fileSize < 0x1_0000_0000
  {
  }

  // ------------------------------------------------------------ sector frames

  ghost predicate InFat(g: Geometry, l: int) { g.FatLba() <= l < g.FatLba() + g.fatSz }

  ghost predicate InClusters(g: Geometry, cs: seq<nat>, l: int) {
    exists i :: 0 <= i < |cs| && g.LbaOf(cs[i]) <= l < g.LbaOf(cs[i]) + g.spc
  }

  /** Outside the first FAT copy and the clusters `cs` the two disks agree. */
  ghost predicate SectorFrame(d: Disk, e: Disk, g: Geometry, cs: seq<nat>) {
    |e| == |d| && forall l :: 0 <= l < |d| && !InFat(g, l) && !InClusters(g, cs, l) ==> e[l] == d[l]
  }

  lemma FrameTrans(d: Disk, e: Disk, f: Disk, g: Geometry, cs: seq<nat>, more: seq<nat>)
    requires SectorFrame(d, e, g, cs) && SectorFrame(e, f, g, more) && cs <= more
    ensures SectorFrame(d, f, g, more)
  {
    forall l | 0 <= l < |d| && !InFat(g, l) && !InClusters(g, more, l) ensures f[l] == d[l] {
      assert forall i :: 0 <= i < |cs| ==> more[i] == cs[i];
    }
  }

  lemma FrameCluster(d: Disk, e: Disk, g: Geometry, cs: seq<nat>, c: nat)
    requires g.Fits(|d|) && AllNamed(g, cs) && g.Names(c) && c !in cs && SectorFrame(d, e, g, cs)
    ensures Cluster(e, g, c) == Cluster(d, g, c)
  {
    LbaBounds(g, |d|, c);
    forall l | g.LbaOf(c) <= l < g.LbaOf(c) + g.spc ensures e[l] == d[l] {
      forall i | 0 <= i < |cs| ensures !(g.LbaOf(cs[i]) <= l < g.LbaOf(cs[i]) + g.spc) {
        LbaDisjoint(g, c, cs[i]);
      }
    }
    assert Sectors(e, g, c) == Sectors(d, g, c);
  }

  /** A chain that shares no cluster with `cs` keeps its bytes. */
  lemma FrameChain(d: Disk, e: Disk, g: Geometry, cs: seq<nat>, other: seq<nat>)
    requires g.Fits(|d|) && AllNamed(g, cs) && AllNamed(g, other) && SectorFrame(d, e, g, cs)
    requires forall c :: c in other ==> c !in cs
    ensures ChainBytes(e, g, other) == ChainBytes(d, g, other)
  {
    forall i | 0 <= i < |other| ensures Cluster(e, g, other[i]) == Cluster(d, g, other[i]) {
      FrameCluster(d, e, g, cs, other[i]);
    }
    assert Blocks(e, g, other) == Blocks(d, g, other);
  }

  // -------------------------------------------------------- primitive effects

  lemma BackedGrows(c: nat, size: nat, ch0: Chains, ch1: Chains, g: Geometry, h: nat)
    requires Backed(c, size, ch0, g) && h in ch0 && h in ch1 && ch1 == ch0[h := ch1[h]] && ch0[h] <= ch1[h]
    ensures Backed(c, size, ch1, g)
  {
    if c in ch0 { MulMono(|ch0[c]|, |ch1[c]|, g.ClusterSize()); }
  }

  lemma DirOkGrows(b: seq<byte>, ch0: Chains, ch1: Chains, g: Geometry, h: nat)
    requires DirOk(b, ch0, g) && h in ch0 && h in ch1 && ch1 == ch0[h := ch1[h]] && ch0[h] <= ch1[h]
    ensures DirOk(b, ch1, g)
  {
    forall k | Live(b, k) ensures Backed(FirstCluster(Entry(b, k)), FileSize(Entry(b, k)), ch1, g) {
      BackedGrows(FirstCluster(Entry(b, k)), FileSize(Entry(b, k)), ch0, ch1, g, h);
    }
  }

  lemma FdsOkGrows(fds: seq<Option<FileDescriptor>>, ch0: Chains, ch1: Chains, g: Geometry, h: nat)
    requires FdsOk(fds, ch0, g) && h in ch0 && h in ch1 && ch1 == ch0[h := ch1[h]] && ch0[h] <= ch1[h]
    ensures FdsOk(fds, ch1, g)
  {
    forall i | 0 <= i < |fds| && fds[i].Some? ensures Backed(fds[i].value.cluster, fds[i].value.fileSize, ch1, g) {
      BackedGrows(fds[i].value.cluster, fds[i].value.fileSize, ch0, ch1, g, h);
    }
  }

  /** The two stores that append free cluster `extra` to file chain `h` keep the volume well formed. */
  lemma AppendKeepsVolume(d: Disk, g: Geometry, chains: Chains, h: nat, extra: nat)
    requires VolumeOk(d, g, chains) && h in chains && h != g.root && IsFree(FatView(d, g), extra)
    ensures var cs := chains[h]; var last := cs[|cs| - 1];
            var e := StoreFat(StoreFat(d, g, last, extra), g, extra, LAST); var after := chains[h := cs + [extra]];
            && VolumeOk(e, g, after)
            && ChainGrew(FatView(d, g), chains, FatView(e, g), after, h)
            && SameOutside(d, e, g.FatLba(), g.FatLba() + g.fatSz)
  {
    var cs := chains[h];
    var last := cs[|cs| - 1];
    var mid := StoreFat(d, g, last, extra);
    var e := StoreFat(mid, g, extra, LAST);
    var after := chains[h := cs + [extra]];
    StoreFatView(d, g, last, extra);
    StoreFatView(mid, g, extra, LAST);
    assert FatView(e, g) == AfterAppend(FatView(d, g), last, extra);
    AppendKeepsChains(FatView(d, g), chains, h, extra);
    AppendGrows(FatView(d, g), chains, h, extra);
    StaysMounted(d, e, g, g.FatLba(), g.FatLba() + g.fatSz);
    ChainBytesAfterFat(d, e, g, chains[g.root]);
    DirOkGrows(ChainBytes(d, g, chains[g.root]), chains, after, g, h);
  }

  /** What anyone following chains on the disk sees between the two stores. */
  lemma SeenBetweenStores(d: Disk, g: Geometry, chains: Chains, h: nat, extra: nat, k: nat)
    requires VolumeOk(d, g, chains) && h in chains && k in chains && IsFree(FatView(d, g), extra)
    ensures var cs := chains[h];
            Linked(FatView(StoreFat(d, g, cs[|cs| - 1], extra), g), if k == h then cs + [extra] else chains[k])
  {
    hide DirOk;
    hide Linked;
    VolumeFacts(d, g, chains, h);
    StoreFatView(d, g, chains[h][|chains[h]| - 1], extra);
    BetweenStores(FatView(d, g), chains, h, extra, k);
  }

  /** Any write inside one cluster of file chain `h` keeps the volume well formed. */
  lemma DataWriteKeepsVolume(d: Disk, e: Disk, g: Geometry, chains: Chains, h: nat, i: nat)
    requires VolumeOk(d, g, chains) && h in chains && h != g.root && i < |chains[h]|
    requires SameOutside(d, e, g.LbaOf(chains[h][i]), g.LbaOf(chains[h][i]) + g.spc)
    ensures VolumeOk(e, g, chains) && FatView(e, g) == FatView(d, g)
    ensures SectorFrame(d, e, g, chains[h])
  {
    var c := chains[h][i];
    var lo, hi := g.LbaOf(c), g.LbaOf(c) + g.spc;
    LbaBounds(g, |d|, c);
    StaysMounted(d, e, g, lo, hi);
    FatViewSame(d, e, g, lo, hi);
    assert c in chains[h] && c !in chains[g.root];
    ChainBytesElsewhere(d, e, g, chains[g.root], c);
    forall l | 0 <= l < |d| && !InFat(g, l) && !InClusters(g, chains[h], l) ensures e[l] == d[l] {
      assert !(g.LbaOf(chains[h][i]) <= l < g.LbaOf(chains[h][i]) + g.spc);
    }
  }

  lemma DirOkResized(b: seq<byte>, chains: Chains, g: Geometry, k: nat, h: nat, size: nat)
    requires DirOk(b, chains, g) && h != 0 && size < 0x1_0000_0000 && Backed(h, size, chains, g)
    requires FirstMatch(b, 0, ByCluster(h)) == Some(k)
    ensures DirOk(WithSize(b, k, size), chains, g)
  {
    FirstMatchMeans(b, ByCluster(h), k);
    var r := WithSize(b, k, size);
    forall j | Live(r, j)
      ensures Live(b, j) && FirstCluster(Entry(r, j)) == FirstCluster(Entry(b, j))
      ensures Backed(FirstCluster(Entry(r, j)), FileSize(Entry(r, j)), chains, g)
    {
      WithSizeLive(b, k, size, j);
      WithSizeKeys(b, k, size, j, ByCluster(h));
    }
  }

  /** Rewriting the size field of the entry found for file `h` keeps the volume well formed. */
  lemma SizeWriteKeepsVolume(d: Disk, e: Disk, g: Geometry, chains: Chains, i: nat, k: nat, h: nat, size: nat)
    requires VolumeOk(d, g, chains) && i < |chains[g.root]|
    requires SameOutside(d, e, g.LbaOf(chains[g.root][i]), g.LbaOf(chains[g.root][i]) + g.spc)
    requires h != 0 && size < 0x1_0000_0000 && Backed(h, size, chains, g)
    requires FirstMatch(RootBytes(d, g, chains), 0, ByCluster(h)) == Some(k)
    requires RootBytes(e, g, chains) == WithSize(RootBytes(d, g, chains), k, size)
    ensures VolumeOk(e, g, chains) && FatView(e, g) == FatView(d, g)
    ensures SectorFrame(d, e, g, chains[g.root])
    ensures forall x :: x in chains && x != g.root ==> ChainBytes(e, g, chains[x]) == ChainBytes(d, g, chains[x])
  {
    var c := chains[g.root][i];
    var lo, hi := g.LbaOf(c), g.LbaOf(c) + g.spc;
    LbaBounds(g, |d|, c);
    StaysMounted(d, e, g, lo, hi);
    FatViewSame(d, e, g, lo, hi);
    DirOkResized(RootBytes(d, g, chains), chains, g, k, h, size);
    forall l | 0 <= l < |d| && !InFat(g, l) && !InClusters(g, chains[g.root], l) ensures e[l] == d[l] {
      assert !(g.LbaOf(chains[g.root][i]) <= l < g.LbaOf(chains[g.root][i]) + g.spc);
    }
    forall x | x in chains && x != g.root ensures ChainBytes(e, g, chains[x]) == ChainBytes(d, g, chains[x]) {
      ChainBytesElsewhere(d, e, g, chains[x], c);
    }
  }

  // ------------------------------------------------- directory entries on disk

  /** Entry `m` of a directory chain is the `j`-th of sector `s` of its `i`-th cluster, which is at `lba`. */
  ghost predicate EntryAt(d: Disk, g: Geometry, cs: seq<nat>, i: nat, s: nat, j: nat, m: nat, lba: nat) {
    && i < |cs| && s < g.spc && j < 16
    && 32 * m == i * g.ClusterSize() + s * 512 + 32 * j
    && lba == g.LbaOf(cs[i]) + s && lba < |d|
  }

  lemma EntryInSector(d: Disk, g: Geometry, cs: seq<nat>, i: nat, s: nat, j: nat, m: nat, lba: nat)
    requires g.Fits(|d|) && AllNamed(g, cs) && EntryAt(d, g, cs, i, s, j, m, lba)
    ensures 32 * m + 32 <= |ChainBytes(d, g, cs)|
    ensures Entry(ChainBytes(d, g, cs), m) == d[lba][32 * j..32 * j + 32]
  {
    var at := i * g.ClusterSize();
    ChainBytesAt(d, g, cs, i);
    ClusterSectorAt(d, g, cs[i], s);
    EntryInSlice(ChainBytes(d, g, cs), at, at + g.ClusterSize(), s, j, m);
  }

  lemma EntryInSlice(b: seq<byte>, at: nat, end: nat, s: nat, j: nat, m: nat)
    requires at <= end <= |b| && at + s * 512 + 512 <= end && j < 16 && 32 * m == at + s * 512 + 32 * j
    ensures 32 * m + 32 <= |b| && Entry(b, m) == b[at..end][s * 512..s * 512 + 512][32 * j..32 * j + 32]
  {
    SliceOfSlice(b, at, end, s * 512, s * 512 + 512);
    SliceOfSlice(b, at + s * 512, at + s * 512 + 512, 32 * j, 32 * j + 32);
  }

  /** Rewriting the size field inside that sector rewrites it in the directory's bytes. */
  lemma SizeInSector(d: Disk, g: Geometry, cs: seq<nat>, i: nat, s: nat, j: nat, m: nat, lba: nat, size: nat, b: Sector)
    requires g.Fits(|d|) && AllNamed(g, cs) && size < 0x1_0000_0000
    requires EntryAt(d, g, cs, i, s, j, m, lba)
    requires forall k :: 0 <= k < |cs| && cs[k] == cs[i] ==> k == i
    requires b == Splice(d[lba], 32 * j + 28, U32Bytes(size))
    ensures 32 * m + 32 <= |ChainBytes(d, g, cs)|
    ensures ChainBytes(d[lba := b], g, cs) == WithSize(ChainBytes(d, g, cs), m, size)
    ensures SameOutside(d, d[lba := b], g.LbaOf(cs[i]), g.LbaOf(cs[i]) + g.spc)
  {
    var c := cs[i];
    var at := i * g.ClusterSize();
    var off := s * 512 + (32 * j + 28);
    ChainBytesAt(d, g, cs, i);
    ClusterSectorAt(d, g, c, s);
    ClusterSectorWrite(d, g, c, s, b);
    SpliceNested(Cluster(d, g, c), s * 512, s * 512 + 512, 32 * j + 28, U32Bytes(size));
    ChainBytesWrite(d, d[lba := b], g, cs, i, off, U32Bytes(size), 32 * m + 28);
  }

  /** Whatever a lookup in the root directory finds is backed by a chain. */
  lemma EntryBacked(d: Disk, g: Geometry, chains: Chains, key: Key)
    requires VolumeOk(d, g, chains)
    ensures |RootBytes(d, g, chains)| % 32 == 0
    ensures match FirstMatch(RootBytes(d, g, chains), 0, key)
            case None => true
            case Some(m) =>
              var e := Entry(RootBytes(d, g, chains), m);
              Backed(FirstCluster(e), FileSize(e), chains, g)
  {
    var b := RootBytes(d, g, chains);
    var m := FirstMatch(b, 0, key);
    if m.Some? { FirstMatchMeans(b, key, m.value); }
  }
}
