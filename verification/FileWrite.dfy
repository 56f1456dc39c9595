// How the bytes of one file and the table evolve while a write call extends and overwrites its chain.
module FileWrite {
  import opened Bytes
  import opened FileModel
  import opened Fat
  import opened Volume
  import opened Directory
  import opened FileState

  /** From (d0, ch0) to (d, ch): the volume is well formed, only chain `h` grew, only it and the FAT were written. */
  ghost predicate Extending(d0: Disk, ch0: Chains, d: Disk, ch: Chains, g: Geometry, h: nat) {
    && VolumeOk(d0, g, ch0) && VolumeOk(d, g, ch)
    && h != g.root
    && ChainGrew(FatView(d0, g), ch0, FatView(d, g), ch, h)
    && SectorFrame(d0, d, g, ch[h])
  }

  /** The chain holds `done` at `pos`, and elsewhere what its clusters held before the call. */
  ghost predicate Holds(d0: Disk, d: Disk, g: Geometry, cs: seq<nat>, pos: nat, done: seq<byte>) {
    && g.Fits(|d0|) && |d| == |d0| && AllNamed(g, cs)
    && pos + |done| <= |ChainBytes(d0, g, cs)|
    && ChainBytes(d, g, cs) == Splice(ChainBytes(d0, g, cs), pos, done)
  }

  lemma FatOnlyFrame(d: Disk, e: Disk, g: Geometry, cs: seq<nat>)
    requires SameOutside(d, e, g.FatLba(), g.FatLba() + g.fatSz)
    ensures SectorFrame(d, e, g, cs)
  {
  }

  /** Clusters a chain gains still hold what they held before the call. */
  lemma GrowthBytes(d0: Disk, d: Disk, e: Disk, g: Geometry, cs: seq<nat>, more: seq<nat>)
    requires g.Fits(|d0|) && AllNamed(g, cs) && AllNamed(g, more) && SectorFrame(d0, d, g, cs)
    requires SameOutside(d, e, g.FatLba(), g.FatLba() + g.fatSz)
    requires forall c :: c in more ==> c !in cs
    ensures AllNamed(g, cs + more)
    ensures ChainBytes(e, g, cs + more) == ChainBytes(d, g, cs) + ChainBytes(d0, g, more)
  {
    FrameChain(d0, d, g, cs, more);
    ChainBytesAppend(d, g, cs, more);
    ChainBytesAfterFat(d, e, g, cs + more);
  }

  lemma ChainExtended(d0: Disk, ch0: Chains, d: Disk, ch: Chains, e: Disk, ch2: Chains, g: Geometry, h: nat)
    requires Extending(d0, ch0, d, ch, g, h)
    requires VolumeOk(e, g, ch2) && ChainGrew(FatView(d, g), ch, FatView(e, g), ch2, h)
    requires SameOutside(d, e, g.FatLba(), g.FatLba() + g.fatSz)
    ensures Extending(d0, ch0, e, ch2, g, h)
  {
    FatOnlyFrame(d, e, g, ch2[h]);
    FrameTrans(d0, d, e, g, ch[h], ch2[h]);
    ChainGrewTrans(FatView(d0, g), ch0, FatView(d, g), ch, FatView(e, g), ch2, h);
  }

  lemma ExtendHolds(d0: Disk, d: Disk, e: Disk, g: Geometry, cs: seq<nat>, cs2: seq<nat>, pos: nat, done: seq<byte>)
    requires Holds(d0, d, g, cs, pos, done) && SectorFrame(d0, d, g, cs)
    requires SameOutside(d, e, g.FatLba(), g.FatLba() + g.fatSz)
    requires cs <= cs2 && AllNamed(g, cs2) && Linked(FatView(e, g), cs2)
    ensures Holds(d0, e, g, cs2, pos, done)
  {
    var more := cs2[|cs|..];
    assert cs2 == cs + more && cs2[..|cs|] == cs;
    forall c | c in more ensures c !in cs { TailApart(FatView(e, g), cs2, |cs|, c); }
    GrowthBytes(d0, d, e, g, cs, more);
    ChainBytesAppend(d0, g, cs, more);
    SplicePrefix(ChainBytes(d0, g, cs), ChainBytes(d0, g, more), pos, done);
  }

  lemma ClusterWritten(d0: Disk, ch0: Chains, d: Disk, ch: Chains, e: Disk, g: Geometry, h: nat, i: nat)
    requires Extending(d0, ch0, d, ch, g, h) && i < |ch[h]|
    requires SameOutside(d, e, g.LbaOf(ch[h][i]), g.LbaOf(ch[h][i]) + g.spc)
    ensures Extending(d0, ch0, e, ch, g, h) && FatView(e, g) == FatView(d, g)
  {
    DataWriteKeepsVolume(d, e, g, ch, h, i);
    FrameTrans(d0, d, e, g, ch[h], ch[h]);
  }

  lemma WriteInChain(d: Disk, e: Disk, g: Geometry, cs: seq<nat>, i: nat, off: nat, chunk: seq<byte>, at: nat)
    requires g.Fits(|d|) && |e| == |d| && Linked(FatView(d, g), cs) && AllNamed(g, cs) && i < |cs|
    requires SameOutside(d, e, g.LbaOf(cs[i]), g.LbaOf(cs[i]) + g.spc)
    requires off + |chunk| <= g.ClusterSize() && at == i * g.ClusterSize() + off
    requires Cluster(e, g, cs[i]) == Splice(Cluster(d, g, cs[i]), off, chunk)
    ensures at + |chunk| <= |ChainBytes(d, g, cs)|
    ensures ChainBytes(e, g, cs) == Splice(ChainBytes(d, g, cs), at, chunk)
  {
    hide g.LbaOf;
    hide Cluster;
    forall k | 0 <= k < |cs| && cs[k] == cs[i] ensures k == i { LinkedAcyclic(FatView(d, g), cs, k, i); }
    ChainBytesWrite(d, e, g, cs, i, off, chunk, at);
  }

  lemma WriteHolds(d0: Disk, d: Disk, e: Disk, g: Geometry, cs: seq<nat>, i: nat, off: nat, pos: nat, done: seq<byte>,
                   chunk: seq<byte>)
    requires Holds(d0, d, g, cs, pos, done) && Linked(FatView(d, g), cs) && i < |cs|
    requires SameOutside(d, e, g.LbaOf(cs[i]), g.LbaOf(cs[i]) + g.spc)
    requires off + |chunk| <= g.ClusterSize() && pos + |done| == i * g.ClusterSize() + off
    requires Cluster(e, g, cs[i]) == Splice(Cluster(d, g, cs[i]), off, chunk)
    ensures Holds(d0, e, g, cs, pos, done + chunk)
  {
    WriteInChain(d, e, g, cs, i, off, chunk, pos + |done|);
    SpliceAppend(ChainBytes(d0, g, cs), pos, done, chunk);
  }

  lemma ExtendStart(d: Disk, ch: Chains, g: Geometry, h: nat)
    requires VolumeOk(d, g, ch) && h in ch && h != g.root
    ensures Extending(d, ch, d, ch, g, h)
    ensures Holds(d, d, g, ch[h], 0, [])
  {
  }

  lemma ExtendFacts(d0: Disk, ch0: Chains, d: Disk, ch: Chains, g: Geometry, h: nat)
    requires Extending(d0, ch0, d, ch, g, h)
    ensures VolumeOk(d, g, ch) && h in ch && h != g.root && |d| == |d0| && g.Fits(|d|)
    ensures Linked(FatView(d, g), ch[h]) && AllNamed(g, ch[h]) && ch[h][0] == h
  {
    hide DirOk;
  }

  lemma ExtendGrew(d0: Disk, ch0: Chains, d: Disk, ch: Chains, g: Geometry, h: nat)
    requires Extending(d0, ch0, d, ch, g, h)
    ensures h in ch0 && h in ch && ch == ch0[h := ch[h]] && ch0[h] <= ch[h]
  {
    hide VolumeOk;
  }

  lemma ExtendBoth(d0: Disk, ch0: Chains, d: Disk, ch: Chains, e: Disk, ch2: Chains, g: Geometry, h: nat, pos: nat,
                   done: seq<byte>)
    requires Extending(d0, ch0, d, ch, g, h) && h in ch && Holds(d0, d, g, ch[h], pos, done)
    requires VolumeOk(e, g, ch2) && ChainGrew(FatView(d, g), ch, FatView(e, g), ch2, h)
    requires SameOutside(d, e, g.FatLba(), g.FatLba() + g.fatSz)
    ensures Extending(d0, ch0, e, ch2, g, h) && h in ch2 && Holds(d0, e, g, ch2[h], pos, done)
  {
    hide DirOk;
    ChainExtended(d0, ch0, d, ch, e, ch2, g, h);
    ExtendHolds(d0, d, e, g, ch[h], ch2[h], pos, done);
  }

  lemma WriteBoth(d0: Disk, ch0: Chains, d: Disk, ch: Chains, e: Disk, g: Geometry, h: nat, i: nat, off: nat,
                  pos: nat, done: seq<byte>, chunk: seq<byte>)
    requires Extending(d0, ch0, d, ch, g, h) && h in ch && i < |ch[h]| && Holds(d0, d, g, ch[h], pos, done)
    requires g.Fits(|d|) && g.Names(ch[h][i])
    requires SameOutside(d, e, g.LbaOf(ch[h][i]), g.LbaOf(ch[h][i]) + g.spc)
    requires off + |chunk| <= g.ClusterSize() && pos + |done| == i * g.ClusterSize() + off
    requires Cluster(e, g, ch[h][i]) == Splice(Cluster(d, g, ch[h][i]), off, chunk)
    ensures Extending(d0, ch0, e, ch, g, h) && Holds(d0, e, g, ch[h], pos, done + chunk)
  {
    hide DirOk;
    ExtendFacts(d0, ch0, d, ch, g, h);
    ClusterWritten(d0, ch0, d, ch, e, g, h, i);
    WriteHolds(d0, d, e, g, ch[h], i, off, pos, done, chunk);
  }

  lemma HoldsNothing(d0: Disk, d: Disk, g: Geometry, cs: seq<nat>, pos: nat, i: nat)
    requires Holds(d0, d, g, cs, 0, []) && i < |cs| && pos < i * g.ClusterSize() + g.ClusterSize()
    ensures Holds(d0, d, g, cs, pos, [])
  {
    MulStep(i, |cs|, g.ClusterSize());
    assert Splice(ChainBytes(d0, g, cs), 0, []) == Splice(ChainBytes(d0, g, cs), pos, []);
  }

  lemma HoldsBound(d0: Disk, d: Disk, g: Geometry, cs: seq<nat>, pos: nat, done: seq<byte>)
    requires Holds(d0, d, g, cs, pos, done)
    ensures pos + |done| <= |cs| * g.ClusterSize()
  {
  }

  /** Bytes the file can ever hold: its own clusters and every free one. */
  ghost function Reach(d: Disk, g: Geometry, ch: Chains, h: nat): nat
    requires g.Fits(|d|) && h in ch
  {
    (|ch[h]| + |FreeSet(FatView(d, g))|) * g.ClusterSize()
  }

  lemma ReachKept(d0: Disk, ch0: Chains, d: Disk, ch: Chains, g: Geometry, h: nat)
    requires Extending(d0, ch0, d, ch, g, h)
    ensures g.Fits(|d0|) && g.Fits(|d|) && h in ch0 && h in ch
    ensures Reach(d, g, ch, h) == Reach(d0, g, ch0, h)
  {
    hide Linked;
    hide DirOk;
    var n0, n1 := |ch0[h]| + |FreeSet(FatView(d0, g))|, |ch[h]| + |FreeSet(FatView(d, g))|;
    assert n0 == n1;
  }

  lemma ReachFull(d: Disk, g: Geometry, ch: Chains, h: nat)
    requires g.Fits(|d|) && h in ch && FreeSet(FatView(d, g)) == {}
    ensures Reach(d, g, ch, h) == |ch[h]| * g.ClusterSize()
  {
  }

  lemma ReachCovers(d: Disk, g: Geometry, ch: Chains, h: nat)
    requires g.Fits(|d|) && h in ch
    ensures |ch[h]| * g.ClusterSize() <= Reach(d, g, ch, h)
  {
    MulMono(|ch[h]|, |ch[h]| + |FreeSet(FatView(d, g))|, g.ClusterSize());
  }

  /** The root directory after the call: the size field of the file's entry, if it has one and the file grew. */
  function RootAfter(root: seq<byte>, f: FileDescriptor, n: nat): (r: seq<byte>)
    requires |root| % 32 == 0
    ensures |r| == |root|
  {
    var m := FirstMatch(root, 0, ByCluster(f.cluster));
    if f.position + n > f.fileSize && m.Some? then WithSize(root, m.value, NewSize(f, n)) else root
  }

  /**
   * Everything a write call of `data` through descriptor `f0` does to the disk, the chains and the descriptor:
   * the exact count, the exact bytes of the file and of the root directory, and what it leaves alone.
   */
  ghost predicate WriteOutcome(d0: Disk, ch0: Chains, f0: FileDescriptor, d: Disk, ch: Chains, f: FileDescriptor,
                               g: Geometry, data: seq<byte>, r: int) {
    var h := f0.cluster;
    && VolumeOk(d0, g, ch0) && VolumeOk(d, g, ch) && h in ch0 && h != g.root
    && ChainGrew(FatView(d0, g), ch0, FatView(d, g), ch, h)
    && Counted(Reach(d0, g, ch0, h), f0, f, |data|, r)
    && (if r < 0 then Holds(d0, d, g, ch[h], 0, []) else Holds(d0, d, g, ch[h], f0.position, data[..r]))
    && (if r < 0 then FreeSet(FatView(d, g)) == {} else NoWaste(|ch0[h]|, |ch[h]|, g, f0.position + r))
    && RootOutcome(d0, ch0, d, ch, g, f0, r)
    && OthersKept(d0, ch0, d, ch, g, h)
    && OutsideKept(d0, d, g, ch, h)
  }

  /**
   * If the chain grew from `before` to `after` clusters, its last cluster starts below `end`: none was taken in vain.
   */
  ghost predicate NoWaste(before: nat, after: nat, g: Geometry, end: nat) {
    after > before ==> (after - 1) * g.ClusterSize() < end
  }

  /** The returned count, and the descriptor after the call. */
  ghost predicate Counted(reach: nat, f0: FileDescriptor, f: FileDescriptor, len: nat, r: int) {
    && r == WriteCount(reach, f0.position, len) && r <= len
    && f == if r < 0 then f0 else f0.(position := f0.position + r, fileSize := NewSize(f0, r))
  }

  ghost predicate RootOutcome(d0: Disk, ch0: Chains, d: Disk, ch: Chains, g: Geometry, f0: FileDescriptor, r: int)
    requires g.Fits(|d0|) && AllChainsNamed(ch0, g) && g.root in ch0
    requires g.Fits(|d|) && AllChainsNamed(ch, g) && g.root in ch
  {
    && |RootBytes(d0, g, ch0)| % 32 == 0
    && RootBytes(d, g, ch) == if r < 0 then RootBytes(d0, g, ch0) else RootAfter(RootBytes(d0, g, ch0), f0, r)
  }

  ghost predicate OthersKept(d0: Disk, ch0: Chains, d: Disk, ch: Chains, g: Geometry, h: nat)
    requires g.Fits(|d0|) && g.Fits(|d|) && AllChainsNamed(ch0, g) && AllChainsNamed(ch, g)
  {
    forall x :: x in ch0 && x != h && x != g.root ==> x in ch && ChainBytes(d, g, ch[x]) == ChainBytes(d0, g, ch0[x])
  }

  /** No sector changes outside the first FAT copy, the file's clusters and the root directory's clusters. */
  ghost predicate OutsideKept(d0: Disk, d: Disk, g: Geometry, ch: Chains, h: nat)
    requires h in ch && g.root in ch
  {
    && |d| == |d0|
    && forall l :: 0 <= l < |d0| && !InFat(g, l) && !InClusters(g, ch[h], l) && !InClusters(g, ch[g.root], l) ==>
         d[l] == d0[l]
  }

  lemma ExtendOthers(d0: Disk, ch0: Chains, d: Disk, ch: Chains, g: Geometry, h: nat, x: nat)
    requires Extending(d0, ch0, d, ch, g, h) && x in ch0 && x != h
    ensures x in ch && ch[x] == ch0[x] && g.Fits(|d0|) && g.Fits(|d|) && AllNamed(g, ch0[x])
    ensures ChainBytes(d, g, ch[x]) == ChainBytes(d0, g, ch0[x])
  {
    hide DirOk;
    hide Linked;
    forall c | c in ch0[x] ensures c !in ch[h] {
      assert c in ch[x];
    }
    FrameChain(d0, d, g, ch[h], ch0[x]);
  }

  /** From `d` to `e` the size field of the first root entry for `c`, if any, was set; root cluster `i` was written. */
  ghost predicate DirUpdated(d: Disk, e: Disk, ch: Chains, g: Geometry, c: nat, size: nat, i: nat)
    requires VolumeOk(d, g, ch) && size < 0x1_0000_0000
  {
    var m := FirstMatch(RootBytes(d, g, ch), 0, ByCluster(c));
    && |e| == |d|
    && (m.None? ==> e == d)
    && (m.Some? ==>
          && i < |ch[g.root]|
          && SameOutside(d, e, g.LbaOf(ch[g.root][i]), g.LbaOf(ch[g.root][i]) + g.spc)
          && RootBytes(e, g, ch) == WithSize(RootBytes(d, g, ch), m.value, size))
  }

  /** The directory update keeps the volume, the table, and every chain but the root's. */
  lemma DirUpdateKeeps(d: Disk, e: Disk, ch: Chains, g: Geometry, c: nat, size: nat, i: nat)
    requires VolumeOk(d, g, ch) && size < 0x1_0000_0000 && c != 0 && Backed(c, size, ch, g)
    requires DirUpdated(d, e, ch, g, c, size, i)
    ensures VolumeOk(e, g, ch) && FatView(e, g) == FatView(d, g)
    ensures SectorFrame(d, e, g, ch[g.root])
    ensures forall x :: x in ch && x != g.root ==> ChainBytes(e, g, ch[x]) == ChainBytes(d, g, ch[x])
  {
    var m := FirstMatch(RootBytes(d, g, ch), 0, ByCluster(c));
    if m.Some? {
      SizeWriteKeepsVolume(d, e, g, ch, i, m.value, c, size);
    }
  }

  lemma ExtendingOutcome(d0: Disk, ch0: Chains, d: Disk, ch: Chains, g: Geometry, h: nat)
    requires Extending(d0, ch0, d, ch, g, h)
    ensures VolumeOk(d0, g, ch0) && VolumeOk(d, g, ch) && h in ch0 && h in ch && h != g.root
    ensures ChainGrew(FatView(d0, g), ch0, FatView(d, g), ch, h)
    ensures RootBytes(d, g, ch) == RootBytes(d0, g, ch0) && |RootBytes(d, g, ch)| % 32 == 0
    ensures OthersKept(d0, ch0, d, ch, g, h) && OutsideKept(d0, d, g, ch, h)
  {
    hide Linked;
    forall x | x in ch0 && x != h ensures x in ch && ChainBytes(d, g, ch[x]) == ChainBytes(d0, g, ch0[x]) {
      ExtendOthers(d0, ch0, d, ch, g, h, x);
    }
  }

  /** A call that leaves the size alone, or fails. */
  lemma FinishKept(d0: Disk, ch0: Chains, d: Disk, ch: Chains, g: Geometry, f0: FileDescriptor, f: FileDescriptor,
                   data: seq<byte>, r: int)
    requires Extending(d0, ch0, d, ch, g, f0.cluster) && f0.cluster in ch && f0.cluster in ch0 && g.Fits(|d0|)
    requires Counted(Reach(d0, g, ch0, f0.cluster), f0, f, |data|, r)
    requires if r < 0 then Holds(d0, d, g, ch[f0.cluster], 0, [])
             else Holds(d0, d, g, ch[f0.cluster], f0.position, data[..r])
    requires r < 0 || f0.position + r <= f0.fileSize
    requires g.Fits(|d|)
    requires if r < 0 then FreeSet(FatView(d, g)) == {}
             else NoWaste(|ch0[f0.cluster]|, |ch[f0.cluster]|, g, f0.position + r)
    ensures WriteOutcome(d0, ch0, f0, d, ch, f, g, data, r)
  {
    hide VolumeOk;
    hide Extending;
    hide Holds;
    hide ChainGrew;
    hide OthersKept;
    hide OutsideKept;
    ExtendingOutcome(d0, ch0, d, ch, g, f0.cluster);
    RootFacts(d0, g, ch0);
    RootFacts(d, g, ch);
  }

  /** The state after both loops: `done` is in the file, the directory not yet updated. */
  ghost predicate Written(d0: Disk, ch0: Chains, d: Disk, ch: Chains, g: Geometry, h: nat, pos: nat, done: seq<byte>) {
    Extending(d0, ch0, d, ch, g, h) && h in ch && Holds(d0, d, g, ch[h], pos, done)
  }

  lemma WrittenParts(d0: Disk, ch0: Chains, d: Disk, ch: Chains, g: Geometry, h: nat, pos: nat, done: seq<byte>)
    requires Written(d0, ch0, d, ch, g, h, pos, done)
    ensures Extending(d0, ch0, d, ch, g, h) && h in ch && Holds(d0, d, g, ch[h], pos, done)
  {
  }

  lemma WrittenBacks(d0: Disk, ch0: Chains, d: Disk, ch: Chains, g: Geometry, h: nat, pos: nat, done: seq<byte>,
                     size: nat)
    requires Written(d0, ch0, d, ch, g, h, pos, done) && size <= pos + |done|
    ensures Backed(h, size, ch, g)
  {
    hide VolumeOk;
    HoldsBound(d0, d, g, ch[h], pos, done);
  }

  lemma GrownFrames(d0: Disk, ch0: Chains, d: Disk, e: Disk, ch: Chains, g: Geometry, h: nat)
    requires Extending(d0, ch0, d, ch, g, h) && VolumeOk(e, g, ch) && SectorFrame(d, e, g, ch[g.root])
    requires forall x :: x in ch && x != g.root ==> ChainBytes(e, g, ch[x]) == ChainBytes(d, g, ch[x])
    ensures h in ch && h != g.root
    ensures VolumeOk(d0, g, ch0) && OthersKept(d0, ch0, e, ch, g, h) && OutsideKept(d0, e, g, ch, h)
  {
    hide VolumeOk;
    hide Extending;
    RootFacts(e, g, ch);
    ExtendingOutcome(d0, ch0, d, ch, g, h);
    RootFacts(d0, g, ch0);
    RootFacts(d, g, ch);
  }

  lemma UpdatedRoot(d: Disk, e: Disk, ch: Chains, g: Geometry, c: nat, size: nat, i: nat)
    requires VolumeOk(d, g, ch) && VolumeOk(e, g, ch) && size < 0x1_0000_0000 && DirUpdated(d, e, ch, g, c, size, i)
    ensures g.Fits(|d|) && g.Fits(|e|) && AllChainsNamed(ch, g) && g.root in ch && |RootBytes(d, g, ch)| % 32 == 0
    ensures var b := RootBytes(d, g, ch); var m := FirstMatch(b, 0, ByCluster(c));
            RootBytes(e, g, ch) == if m.Some? then WithSize(b, m.value, size) else b
  {
    hide VolumeOk;
    hide FirstMatch;
    hide WithSize;
    hide SameOutside;
    RootFacts(d, g, ch);
    RootFacts(e, g, ch);
  }

  lemma NewSizeGrown(f: FileDescriptor, n: nat)
    requires f.position + n > f.fileSize
    ensures NewSize(f, n) == (f.position + n) % 0x1_0000_0000
  {
  }

  lemma GrownRoot(d0: Disk, ch0: Chains, d: Disk, e: Disk, ch: Chains, g: Geometry, f0: FileDescriptor, n: nat,
                  size: nat, i: nat)
    requires VolumeOk(d0, g, ch0) && VolumeOk(d, g, ch) && VolumeOk(e, g, ch)
    requires RootBytes(d, g, ch) == RootBytes(d0, g, ch0)
    requires f0.position + n > f0.fileSize && size == (f0.position + n) % 0x1_0000_0000
    requires DirUpdated(d, e, ch, g, f0.cluster, size, i)
    ensures g.Fits(|d0|) && AllChainsNamed(ch0, g) && g.root in ch0 && g.Fits(|e|) && AllChainsNamed(ch, g)
    ensures g.root in ch
    ensures RootOutcome(d0, ch0, e, ch, g, f0, n)
  {
    hide VolumeOk;
    hide FirstMatch;
    hide WithSize;
    hide DirUpdated;
    hide NewSize;
    NewSizeGrown(f0, n);
    RootFacts(d0, g, ch0);
    UpdatedRoot(d, e, ch, g, f0.cluster, size, i);
  }

  /** A call after which the directory is told the new size. */
  lemma FinishGrown(d0: Disk, ch0: Chains, d: Disk, e: Disk, ch: Chains, g: Geometry, f0: FileDescriptor,
                    f: FileDescriptor,
                    data: seq<byte>, done: seq<byte>, size: nat, i: nat)
    requires Written(d0, ch0, d, ch, g, f0.cluster, f0.position, done) && VolumeOk(d0, g, ch0) && f0.cluster in ch0
    requires Counted(Reach(d0, g, ch0, f0.cluster), f0, f, |data|, |done|) && done == data[..|done|]
    requires f0.position + |done| > f0.fileSize && f0.cluster != 0
    requires size == (f0.position + |done|) % 0x1_0000_0000
    requires VolumeOk(d, g, ch) && DirUpdated(d, e, ch, g, f0.cluster, size, i)
    requires f0.cluster in ch && NoWaste(|ch0[f0.cluster]|, |ch[f0.cluster]|, g, f0.position + |done|)
    ensures WriteOutcome(d0, ch0, f0, e, ch, f, g, data, |done|)
  {
    hide VolumeOk;
    hide Extending;
    hide ChainGrew;
    hide DirUpdated;
    hide RootOutcome;
    hide Counted;
    hide OthersKept;
    hide OutsideKept;
    hide Written;
    hide NoWaste;
    hide Holds;
    hide Backed;
    var h := f0.cluster;
    WrittenParts(d0, ch0, d, ch, g, h, f0.position, done);
    WrittenBacks(d0, ch0, d, ch, g, h, f0.position, done, size);
    DirUpdateKeeps(d, e, ch, g, h, size, i);
    GrownFrames(d0, ch0, d, e, ch, g, h);
    ExtendingOutcome(d0, ch0, d, ch, g, h);
    GrownRoot(d0, ch0, d, e, ch, g, f0, |done|, size, i);
    CountedBound(Reach(d0, g, ch0, h), f0, f, |data|, |done|);
    HoldsKept(d0, d, e, g, ch[h], f0.position, done);
  }

  lemma HoldsKept(d0: Disk, d: Disk, e: Disk, g: Geometry, cs: seq<nat>, pos: nat, done: seq<byte>)
    requires Holds(d0, d, g, cs, pos, done) && |e| == |d| && ChainBytes(e, g, cs) == ChainBytes(d, g, cs)
    ensures Holds(d0, e, g, cs, pos, done)
  {
  }

  lemma CountedGrown(reach: nat, f: FileDescriptor, len: nat, n: nat, size: nat)
    requires n == WriteCount(reach, f.position, len) && n <= len && f.position + n > f.fileSize
    requires size == (f.position + n) % 0x1_0000_0000
    ensures Counted(reach, f, f.(position := f.position + n, fileSize := size), len, n)
  {
  }

  lemma CountedBound(reach: nat, f0: FileDescriptor, f: FileDescriptor, len: nat, r: int)
    requires Counted(reach, f0, f, len, r)
    ensures r <= len
  {
  }

  /** A write call changes no FAT copy but the first. */
  lemma FurtherCopiesKept(d0: Disk, ch0: Chains, f0: FileDescriptor, d: Disk, ch: Chains, f: FileDescriptor,
                          g: Geometry, data: seq<byte>, r: int, l: nat)
    requires WriteOutcome(d0, ch0, f0, d, ch, f, g, data, r)
    requires g.partLba + g.reserved + g.fatSz <= l < g.partLba + g.reserved + g.numFats * g.fatSz
    ensures l < |d0| == |d| && d[l] == d0[l]
  {
    hide ChainsOk;
    hide DirOk;
    hide Holds;
    RootFacts(d0, g, ch0);
    VolumeFacts(d, g, ch, f0.cluster);
    RootFacts(d, g, ch);
    LbaBounds(g, |d|, g.root);
    BelowClusters(g, |d|, ch[f0.cluster], l);
    BelowClusters(g, |d|, ch[g.root], l);
  }

  lemma BelowClusters(g: Geometry, n: nat, cs: seq<nat>, l: nat)
    requires g.Fits(n) && AllNamed(g, cs) && l < g.ClusterBegin()
    ensures !InClusters(g, cs, l)
  {
    forall i | 0 <= i < |cs| ensures l < g.LbaOf(cs[i]) { LbaBounds(g, n, cs[i]); }
  }

  lemma OutcomeVolume(d0: Disk, ch0: Chains, f0: FileDescriptor, d: Disk, ch: Chains, f: FileDescriptor, g: Geometry,
                      data: seq<byte>, r: int)
    requires WriteOutcome(d0, ch0, f0, d, ch, f, g, data, r)
    ensures VolumeOk(d, g, ch)
  {
  }

  lemma SoughtInReach(d0: Disk, ch0: Chains, d: Disk, ch: Chains, g: Geometry, h: nat, i: nat, pos: nat)
    requires Extending(d0, ch0, d, ch, g, h) && g.Fits(|d0|) && h in ch0 && h in ch
    requires i < |ch[h]| && pos < i * g.ClusterSize() + g.ClusterSize()
    ensures pos < Reach(d0, g, ch0, h)
  {
    hide VolumeOk;
    hide Extending;
    ReachKept(d0, ch0, d, ch, g, h);
    ReachCovers(d, g, ch, h);
    MulStep(i, |ch[h]|, g.ClusterSize());
  }

  lemma WrittenInReach(d0: Disk, ch0: Chains, d: Disk, ch: Chains, g: Geometry, h: nat, pos: nat, data: seq<byte>,
                       written: nat)
    requires Extending(d0, ch0, d, ch, g, h) && g.Fits(|d0|) && g.Fits(|d|) && h in ch0 && h in ch
    requires written <= |data| && Holds(d0, d, g, ch[h], pos, data[..written]) && pos < Reach(d0, g, ch0, h)
    requires written < |data| ==> Reach(d, g, ch, h) == pos + written
    ensures written == WriteCount(Reach(d0, g, ch0, h), pos, |data|)
  {
    hide VolumeOk;
    hide Extending;
    ReachKept(d0, ch0, d, ch, g, h);
    ReachCovers(d, g, ch, h);
    HoldsBound(d0, d, g, ch[h], pos, data[..written]);
  }

  lemma ChunkOfChain(d: Disk, g: Geometry, cs: seq<nat>, k: nat, off: nat, n: nat, at: nat)
    requires g.Fits(|d|) && AllNamed(g, cs) && k < |cs| && off + n <= g.ClusterSize() && at == k * g.ClusterSize() + off
    ensures at + n <= |ChainBytes(d, g, cs)|
    ensures Cluster(d, g, cs[k])[off..off + n] == ChainBytes(d, g, cs)[at..at + n]
  {
    var w := g.ClusterSize();
    ChainBytesAt(d, g, cs, k);
    SliceOfSlice(ChainBytes(d, g, cs), k * w, k * w + w, off, off + n);
  }

  /** Memory `m0` with the `total` bytes of the chain from `pos` on copied to `ptr`. */
  ghost predicate Copied(m0: seq<byte>, m: seq<byte>, ptr: nat, d: Disk, g: Geometry, cs: seq<nat>, pos: nat,
                         total: nat) {
    && g.Fits(|d|) && AllNamed(g, cs)
    && pos + total <= |ChainBytes(d, g, cs)| && ptr + total <= |m0|
    && m == Splice(m0, ptr, ChainBytes(d, g, cs)[pos..pos + total])
  }

  lemma CopiedNothing(m0: seq<byte>, ptr: nat, d: Disk, g: Geometry, cs: seq<nat>, pos: nat)
    requires g.Fits(|d|) && AllNamed(g, cs) && pos <= |cs| * g.ClusterSize() && ptr <= |m0|
    ensures Copied(m0, m0, ptr, d, g, cs, pos, 0)
  {
    assert ChainBytes(d, g, cs)[pos..pos] == [];
  }

  lemma ChunkRead(m0: seq<byte>, m1: seq<byte>, m2: seq<byte>, ptr: nat, d: Disk, g: Geometry, cs: seq<nat>, k: nat,
                  offset: nat,
                 pos: nat, total: nat, n: nat)
    requires g.Fits(|d|) && AllNamed(g, cs) && k < |cs| && offset < g.ClusterSize() && offset + n <= g.ClusterSize()
    requires pos + total == k * g.ClusterSize() + offset && ptr + total + n <= |m0| == |m1|
    requires Copied(m0, m1, ptr, d, g, cs, pos, total)
    requires var off := offset % g.ClusterSize();
             off + n <= g.ClusterSize() && m2 == Splice(m1, ptr + total, Cluster(d, g, cs[k])[off..off + n])
    ensures Copied(m0, m2, ptr, d, g, cs, pos, total + n)
  {
    ModSmall(offset, g.ClusterSize());
    ChunkOfChain(d, g, cs, k, offset, n, pos + total);
    SpliceSlices(m0, ptr, ChainBytes(d, g, cs), pos, total, n);
  }

  /**
   * A read returns the file's bytes from the position on, up to the size the descriptor knows; the rest of memory
   * stays.
   */
  ghost predicate ReadOutcome(d: Disk, ch: Chains, g: Geometry, f: FileDescriptor, mem0: seq<byte>, ptr: nat,
                              len: nat, mem: seq<byte>, r: int) {
    && r == ReadCount(f, len)
    && ptr + len <= |mem0|
    && (r == 0 ==> mem == mem0)
    && (r > 0 ==>
          && f.cluster in ch
          && Copied(mem0, mem, ptr, d, g, ch[f.cluster], f.position, r))
  }
}
