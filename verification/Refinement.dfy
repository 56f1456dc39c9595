// The driver's disk, FAT and descriptors seen as the caller's files, and each call seen as one step.
module Refinement {
  import opened Bytes
  import opened Fat
  import opened Volume
  import opened Directory
  import opened FileState
  import opened FileWrite
  import opened FileModel
  import opened FileRuns

  ghost function Files(d: Disk, g: Geometry, ch: Chains): map<nat, seq<byte>>
    requires g.Fits(|d|) && AllChainsNamed(ch, g)
  {
    map h | h in ch && h != g.root :: ChainBytes(d, g, ch[h])
  }

  ghost function Room(d: Disk, g: Geometry): nat
    requires g.Fits(|d|)
  {
    |FreeSet(FatView(d, g))| * g.ClusterSize()
  }

  ghost function Snapshot(d: Disk, g: Geometry, ch: Chains, fds: seq<Option<FileDescriptor>>, mem: seq<byte>): Machine
    requires VolumeOk(d, g, ch)
  {
    Machine(Listing(RootBytes(d, g, ch), 0), Files(d, g, ch), Room(d, g), fds, mem)
  }

  lemma {:induction false} ResizedAbsent(list: seq<Record>, c: nat, size: nat)
    requires FindRecord(list, ByCluster(c)) == None
    ensures Resized(list, c, size) == list
  {
    if list == [] {
    } else {
      ResizedAbsent(list[1..], c, size);
    }
  }

  lemma ListingAfter(root: seq<byte>, f: FileDescriptor, n: nat)
    requires |root| % 32 == 0
    ensures Listing(RootAfter(root, f, n), 0)
         == if f.position + n > f.fileSize then Resized(Listing(root, 0), f.cluster, NewSize(f, n))
            else Listing(root, 0)
  {
    if f.position + n > f.fileSize {
      var m := FirstMatch(root, 0, ByCluster(f.cluster));
      ListingLookup(root, 0, ByCluster(f.cluster));
      if m.Some? {
        ListingResized(root, 0, f.cluster, m.value, NewSize(f, n));
      } else {
        ResizedAbsent(Listing(root, 0), f.cluster, NewSize(f, n));
      }
    }
  }

  lemma HoldsOverwritten(d0: Disk, ch0: Chains, d: Disk, ch: Chains, g: Geometry, h: nat, pos: nat, done: seq<byte>)
    requires h in ch && h in ch0 && ch0[h] <= ch[h] && AllNamed(g, ch0[h]) && Holds(d0, d, g, ch[h], pos, done)
    ensures Overwritten(ChainBytes(d0, g, ch0[h]), ChainBytes(d, g, ch[h]), pos, done)
  {
    var more := ch[h][|ch0[h]|..];
    assert ch[h] == ch0[h] + more;
    ChainBytesAppend(d0, g, ch0[h], more);
  }

  lemma FilesAfter(d0: Disk, ch0: Chains, d: Disk, ch: Chains, g: Geometry, h: nat)
    requires VolumeOk(d0, g, ch0) && VolumeOk(d, g, ch) && h in ch0 && h in ch && h != g.root
    requires ch == ch0[h := ch[h]] && OthersKept(d0, ch0, d, ch, g, h)
    ensures Files(d, g, ch) == Files(d0, g, ch0)[h := ChainBytes(d, g, ch[h])]
  {
    hide DirOk;
    hide Linked;
    hide Occupied;
    var m0, m1 := Files(d0, g, ch0), Files(d, g, ch);
    assert m1.Keys == m0.Keys + {h};
    forall x | x in m1 && x != h ensures m1[x] == m0[x] {
      assert x in ch0 && ChainBytes(d, g, ch[x]) == ChainBytes(d0, g, ch0[x]);
    }
  }

  lemma FileOf(d: Disk, g: Geometry, ch: Chains, h: nat)
    requires g.Fits(|d|) && AllChainsNamed(ch, g) && h in ch && h != g.root
    ensures h in Files(d, g, ch) && Files(d, g, ch)[h] == ChainBytes(d, g, ch[h])
  {
  }

  lemma ReachIsRoom(d: Disk, g: Geometry, ch: Chains, h: nat)
    requires g.Fits(|d|) && h in ch && AllNamed(g, ch[h])
    ensures Reach(d, g, ch, h) == |ChainBytes(d, g, ch[h])| + Room(d, g)
  {
  }

  /** What the write call does to the disk is a write step on the caller's files. */
  lemma WriteRefines(d0: Disk, ch0: Chains, fds: seq<Option<FileDescriptor>>, fd: nat, d: Disk, ch: Chains,
                     f: FileDescriptor,
                     g: Geometry, mem: seq<byte>, data: seq<byte>, r: int)
    requires fd < |fds| && fds[fd].Some? && WriteOutcome(d0, ch0, fds[fd].value, d, ch, f, g, data, r)
    ensures VolumeOk(d0, g, ch0) && VolumeOk(d, g, ch)
    ensures WriteStep(Snapshot(d0, g, ch0, fds, mem), fd, data, Snapshot(d, g, ch, fds[fd := Some(f)], mem), r)
  {
    hide VolumeOk;
    hide Overwritten;
    hide Resized;
    hide NewSize;
    hide WriteOutcome;
    hide Snapshot;
    var f0 := fds[fd].value;
    WriteRefinesFiles(d0, ch0, f0, d, ch, f, g, data, r);
    WriteRefinesRest(d0, ch0, fds, fd, d, ch, f, g, data, r);
    SnapshotFields(d0, g, ch0, fds, mem);
    SnapshotFields(d, g, ch, fds[fd := Some(f)], mem);
  }

  lemma SnapshotFields(d: Disk, g: Geometry, ch: Chains, fds: seq<Option<FileDescriptor>>, mem: seq<byte>)
    requires VolumeOk(d, g, ch)
    ensures g.Fits(|d|) && AllChainsNamed(ch, g) && g.root in ch && |RootBytes(d, g, ch)| % 32 == 0
    ensures var s := Snapshot(d, g, ch, fds, mem);
            && s.files == Files(d, g, ch) && s.room == Room(d, g) && s.fds == fds && s.mem == mem
            && s.listing == Listing(RootBytes(d, g, ch), 0)
  {
    hide VolumeOk;
    RootFacts(d, g, ch);
  }

  lemma WriteRefinesRest(d0: Disk, ch0: Chains, fds: seq<Option<FileDescriptor>>, fd: nat, d: Disk, ch: Chains,
                         f: FileDescriptor,
                         g: Geometry, data: seq<byte>, r: int)
    requires fd < |fds| && fds[fd].Some? && WriteOutcome(d0, ch0, fds[fd].value, d, ch, f, g, data, r)
    ensures VolumeOk(d0, g, ch0) && VolumeOk(d, g, ch)
    ensures g.Fits(|d0|) && AllChainsNamed(ch0, g) && g.root in ch0 && |RootBytes(d0, g, ch0)| % 32 == 0
    ensures g.Fits(|d|) && AllChainsNamed(ch, g) && g.root in ch && |RootBytes(d, g, ch)| % 32 == 0
    ensures var f0, l0, l := fds[fd].value, Listing(RootBytes(d0, g, ch0), 0), Listing(RootBytes(d, g, ch), 0);
            if r < 0 then fds[fd := Some(f)] == fds && l == l0
            else
              && f == f0.(position := f0.position + r, fileSize := NewSize(f0, r))
              && l == if f0.position + r > f0.fileSize then Resized(l0, f0.cluster, NewSize(f0, r)) else l0
  {
    hide VolumeOk;
    hide Holds;
    hide OthersKept;
    hide OutsideKept;
    hide Listing;
    hide FirstMatch;
    hide Resized;
    hide ChainGrew;
    hide NewSize;
    RootFacts(d0, g, ch0);
    RootFacts(d, g, ch);
    if r >= 0 { ListingAfter(RootBytes(d0, g, ch0), fds[fd].value, r); }
  }

  lemma WriteRefinesFiles(d0: Disk, ch0: Chains, f0: FileDescriptor, d: Disk, ch: Chains, f: FileDescriptor,
                          g: Geometry, data: seq<byte>, r: int)
    requires WriteOutcome(d0, ch0, f0, d, ch, f, g, data, r)
    ensures g.Fits(|d0|) && AllChainsNamed(ch0, g) && g.Fits(|d|) && AllChainsNamed(ch, g)
    ensures var s, t := Files(d0, g, ch0), Files(d, g, ch); var h := f0.cluster;
            && h in s && h in t && t == s[h := t[h]]
            && |t[h]| + Room(d, g) == |s[h]| + Room(d0, g) && (r < 0 ==> Room(d, g) == 0)
            && r == WriteCount(|s[h]| + Room(d0, g), f0.position, |data|) && r <= |data|
            && (if r < 0 then Overwritten(s[h], t[h], 0, []) else Overwritten(s[h], t[h], f0.position, data[..r]))
  {
    hide VolumeOk;
    hide Holds;
    hide OthersKept;
    hide OutsideKept;
    hide RootOutcome;
    hide Overwritten;
    hide Linked;
    hide Files;
    hide Room;
    hide Reach;
    var h := f0.cluster;
    VolumeFacts(d0, g, ch0, h);
    RootFacts(d0, g, ch0);
    VolumeFacts(d, g, ch, h);
    RootFacts(d, g, ch);
    FilesAfter(d0, ch0, d, ch, g, h);
    FileOf(d0, g, ch0, h);
    FileOf(d, g, ch, h);
    ReachIsRoom(d0, g, ch0, h);
    ReachIsRoom(d, g, ch, h);
    RoomKept(d0, ch0, d, ch, g, h);
    if r < 0 {
      NoRoom(d, g);
      HoldsOverwritten(d0, ch0, d, ch, g, h, 0, []);
    } else {
      HoldsOverwritten(d0, ch0, d, ch, g, h, f0.position, data[..r]);
    }
  }

  lemma NoRoom(d: Disk, g: Geometry)
    requires g.Fits(|d|) && FreeSet(FatView(d, g)) == {}
    ensures Room(d, g) == 0
  {
  }

  lemma RoomKept(d0: Disk, ch0: Chains, d: Disk, ch: Chains, g: Geometry, h: nat)
    requires g.Fits(|d0|) && g.Fits(|d|) && ChainGrew(FatView(d0, g), ch0, FatView(d, g), ch, h)
    ensures Reach(d, g, ch, h) == Reach(d0, g, ch0, h)
  {
    assert |ch[h]| + |FreeSet(FatView(d, g))| == |ch0[h]| + |FreeSet(FatView(d0, g))|;
  }

  lemma OpenRefines(d: Disk, g: Geometry, ch: Chains, fds: seq<Option<FileDescriptor>>,
                    after: seq<Option<FileDescriptor>>,
                    mem: seq<byte>, path: seq<byte>, ret: int)
    requires VolumeOk(d, g, ch) && |RootBytes(d, g, ch)| % 32 == 0
    requires match FirstMatch(RootBytes(d, g, ch), 0, ByName(path))
             case None => ret == -1 && after == fds
             case Some(m) =>
               match FreeSlot(fds, 3)
               case None => ret == -1 && after == fds
               case Some(i) =>
                 var e := Entry(RootBytes(d, g, ch), m);
                 ret == i && after == fds[i := Some(FileDescriptor(FirstCluster(e), 0, false, FileSize(e)))]
    ensures OpenStep(Snapshot(d, g, ch, fds, mem), path, Snapshot(d, g, ch, after, mem), ret)
  {
    hide VolumeOk;
    hide FirstMatch;
    hide Listing;
    hide Files;
    hide DisplayName;
    RootFacts(d, g, ch);
    ListingLookup(RootBytes(d, g, ch), 0, ByName(path));
  }

  lemma ReadRefines(d: Disk, g: Geometry, ch: Chains, fds: seq<Option<FileDescriptor>>, fd: nat, mem0: seq<byte>,
                    ptr: nat, len: nat,
                    mem: seq<byte>, r: int)
    requires VolumeOk(d, g, ch) && fd < |fds| && fds[fd].Some? && FdsOk(fds, ch, g) && ptr + len <= |mem0|
    requires ReadOutcome(d, ch, g, fds[fd].value, mem0, ptr, len, mem, r)
    ensures var f := fds[fd].value;
            ReadStep(Snapshot(d, g, ch, fds, mem0), fd, ptr, len,
                     Snapshot(d, g, ch, fds[fd := Some(f.(position := f.position + r))], mem), r)
  {
    hide VolumeOk;
    hide Listing;
    hide Files;
    hide Room;
    RootFacts(d, g, ch);
    var f := fds[fd].value;
    if r > 0 {
      FileOf(d, g, ch, f.cluster);
    } else {
      assert fds[fd := Some(f.(position := f.position + r))] == fds;
    }
  }

  // --------------------------------------------- the caller's view is sound

  /** Each record comes from a live entry. */
  lemma {:induction false} ListingLive(b: seq<byte>, k: nat, i: nat) returns (m: nat)
    requires |b| % 32 == 0 && 32 * k <= |b| && i < |Listing(b, k)|
    requires forall j :: 0 <= j < k ==> !Ends(Entry(b, j))
    ensures k <= m && Live(b, m) && RecordOf(Entry(b, m)) == Listing(b, k)[i]
    decreases |b| - 32 * k
  {
    m := k;
    if Hidden(Entry(b, k)) {
      m := ListingLive(b, k + 1, i);
    } else if i > 0 {
      m := ListingLive(b, k + 1, i - 1);
    }
  }

  lemma {:induction false} ListingUnique(b: seq<byte>, k: nat, chains: Chains, g: Geometry)
    requires DirOk(b, chains, g) && 32 * k <= |b|
    requires forall j :: 0 <= j < k ==> !Ends(Entry(b, j))
    ensures Unique(Listing(b, k))
    decreases |b| - 32 * k
  {
    hide DisplayName;
    hide FirstCluster;
    hide FileSize;
    hide Hidden;
    hide Backed;
    if 32 * k == |b| || Ends(Entry(b, k)) {
    } else {
      ListingUnique(b, k + 1, chains, g);
      if !Hidden(Entry(b, k)) {
        var list, rest := Listing(b, k), Listing(b, k + 1);
        assert Live(b, k);
        forall i | 0 <= i < |rest| && rest[i].cluster != 0 ensures rest[i].cluster != list[0].cluster {
          var m := ListingLive(b, k + 1, i);
        }
        assert forall i :: 0 < i < |list| ==> list[i] == rest[i - 1];
      }
    }
  }

  /** A well-formed volume and descriptor table look sound to the callers. */
  lemma SnapshotSound(d: Disk, g: Geometry, ch: Chains, fds: seq<Option<FileDescriptor>>, mem: seq<byte>)
    requires VolumeOk(d, g, ch) && FdsOk(fds, ch, g) && |fds| == 256
    ensures Sound(Snapshot(d, g, ch, fds, mem))
  {
    hide Listing;
    hide Linked;
    RootFacts(d, g, ch);
    var s := Snapshot(d, g, ch, fds, mem);
    var b := RootBytes(d, g, ch);
    ListingUnique(b, 0, ch, g);
    forall c, size | Backed(c, size, ch, g) ensures Held(s, c, size) {
      if c in ch && c != g.root { FileOf(d, g, ch, c); }
    }
    forall r | r in s.listing ensures Held(s, r.cluster, r.size) && r.size < 0x1_0000_0000 {
      var i :| 0 <= i < |s.listing| && s.listing[i] == r;
      var m := ListingLive(b, 0, i);
    }
  }

  // ----------------------------------------------- the directory after a write

  /**
   * After a write that grew the file, looking the file up under its name gives the same first cluster and the
   * descriptor's new size, and every other directory entry is byte for byte what it was.
   */
  lemma FoundAfterWrite(d0: Disk, ch0: Chains, f0: FileDescriptor, d: Disk, ch: Chains, f: FileDescriptor, g: Geometry,
                        data: seq<byte>, r: int, name: seq<byte>, k: nat)
    requires WriteOutcome(d0, ch0, f0, d, ch, f, g, data, r) && r >= 0 && f0.position + r > f0.fileSize
    requires f0.cluster != 0
    requires |RootBytes(d0, g, ch0)| % 32 == 0 && FirstMatch(RootBytes(d0, g, ch0), 0, ByName(name)) == Some(k)
    requires FirstCluster(Entry(RootBytes(d0, g, ch0), k)) == f0.cluster
    ensures g.Fits(|d|) && AllChainsNamed(ch, g) && g.root in ch && |RootBytes(d, g, ch)| == |RootBytes(d0, g, ch0)|
    ensures var b0, b := RootBytes(d0, g, ch0), RootBytes(d, g, ch);
            && FirstMatch(b, 0, ByName(name)) == Some(k)
            && FirstCluster(Entry(b, k)) == f0.cluster && FileSize(Entry(b, k)) == f.fileSize
            && forall j :: 0 <= j && 32 * j + 32 <= |b0| && j != k ==> Entry(b, j) == Entry(b0, j)
  {
    hide Listing;
    hide Linked;
    hide DisplayName;
    var b0 := RootBytes(d0, g, ch0);
    var size := NewSize(f0, r);
    FirstMatchMeans(b0, ByName(name), k);
    var m := FirstMatch(b0, 0, ByCluster(f0.cluster));
    OwnEntryFound(b0, ch0, g, f0.cluster, k);
    WithSizeFirstMatch(b0, k, size, 0, ByName(name));
    WithSizeKeys(b0, k, size, k, ByName(name));
    forall j | 0 <= j && 32 * j + 32 <= |b0| && j != k ensures Entry(WithSize(b0, k, size), j) == Entry(b0, j) {
      WithSizeEntry(b0, k, size, j);
    }
  }

  /** First clusters are unique, so the entry found by cluster is the entry found by name. */
  lemma OwnEntryFound(b: seq<byte>, ch: Chains, g: Geometry, c: nat, k: nat)
    requires DirOk(b, ch, g) && Live(b, k) && FirstCluster(Entry(b, k)) == c != 0
    ensures FirstMatch(b, 0, ByCluster(c)) == Some(k)
  {
    FirstMatchMeans(b, ByCluster(c), k);
  }
}
