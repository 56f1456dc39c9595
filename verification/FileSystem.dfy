// The FAT32 driver: sector buffer, FAT walking, cluster transfer, directory scan, and the file system calls.
module FileSystem {
  import opened Bytes
  import opened Fat
  import opened Volume
  import opened Directory
  import opened FileState
  import opened FileWrite
  import opened FileModel
  import opened FileRuns
  import opened Refinement

  datatype SectorScan = Found(j: nat) | Ended | Continue

  class FileSystem {
    var disk: Disk
    const buf: array<byte>                            // the one DMA buffer every sector transfer goes through
    const mem: array<byte>                            // memory the callers' buffer addresses point into
    const fds: array<Option<FileDescriptor>>
    ghost const geo: Geometry
    /** The chain of the root directory and of every file, by first cluster. */
    ghost var chains: Chains

    ghost predicate Wired()
      reads this
    {
      && buf.Length == 512 && fds.Length == 256
      && buf != mem
      && HasBootSectors(disk)
    }

    ghost predicate Valid()
      reads this, fds
    {
      Wired() && VolumeOk(disk, geo, chains) && FdsOk(fds[..], chains, geo)
    }

    // ------------------------------------------------------------- sectors

    method ReadSector(lba: nat)
      requires buf.Length == 512
      modifies buf
      ensures lba < |disk| ==> buf[..] == disk[lba]
    {
      if lba < |disk| {
        forall i | 0 <= i < 512 { buf[i] := disk[lba][i]; }
        assert buf[..] == disk[lba];
      }
    }

    method WriteSector(lba: nat)
      requires buf.Length == 512 && lba < |disk|
      modifies this`disk
      ensures disk == old(disk)[lba := buf[..]]
    {
      disk := disk[lba := buf[..]];
    }

    /** Geometry of the first partition, read afresh from the disk; None unless its sectors are 512 bytes. */
    method Init() returns (g: Option<Geometry>)
      requires Wired()
      modifies buf
      ensures g == Parse(disk)
    {
      ReadSector(0);
      var partLba := U32At(buf[..], 454);
      ReadSector(partLba);
      if U16At(buf[..], 11) != 512 { return None; }
      var vbr := buf[..];
      return Some(Geometry(partLba, U16At(vbr, 14), vbr[16], U32At(vbr, 36), vbr[13], U32At(vbr, 44)));
    }

    // ----------------------------------------------------------- FAT entries

    method NextCluster(g: Geometry, c: nat) returns (next: Option<nat>)
      requires buf.Length == 512 && g.Fits(|disk|) && c < g.Entries()
      modifies buf
      ensures next == Next(FatView(disk, g), c)
    {
      FatSectorBounds(g, |disk|, c);
      var fatOffset := c * 4;
      ReadSector(g.FatLba() + fatOffset / 512);
      assert FatView(disk, g)[c] == FatWord(disk, g, c);
      var n := U32At(buf[..], fatOffset % 512) % 0x1000_0000;
      if n < END_OF_CHAIN && n != 0 { return Some(n); } else { return None; }
    }

    /** The lowest free cluster from 2 on; None only when there is none. */
    method AllocCluster(g: Geometry) returns (r: Option<nat>)
      requires buf.Length == 512 && g.Fits(|disk|)
      modifies buf
      ensures r == LowestFree(FatView(disk, g), 2)
    {
      ghost var fat := FatView(disk, g);
      LbaBounds(g, |disk|, 2);
      for sector := 0 to g.fatSz
        invariant forall c :: 0 <= c < sector * 128 ==> !IsFree(fat, c)
      {
        ReadSector(g.FatLba() + sector);
        for i := 0 to 128
          invariant buf[..] == disk[g.FatLba() + sector]
          invariant forall c :: 0 <= c < sector * 128 + i ==> !IsFree(fat, c)
        {
          FatIndex(g, sector, i);
          assert fat[sector * 128 + i] == FatWord(disk, g, sector * 128 + i);
          if U32At(buf[..], i * 4) % 0x1000_0000 == 0 {
            var cluster := sector * 128 + i;
            assert IsFree(fat, cluster) || cluster < 2;
            if cluster >= 2 {
              return Some(cluster);
            }
          }
        }
      }
      return None;
    }

    /** Replaces the low 28 bits of one entry of the first FAT copy. */
    method SetFatEntry(g: Geometry, c: nat, value: nat)
      requires buf.Length == 512 && g.Fits(|disk|) && c < g.Entries()
      modifies buf, this`disk
      ensures disk == StoreFat(old(disk), g, c, value)
    {
      FatSectorBounds(g, |disk|, c);
      var fatOffset := c * 4;
      var fatSector := g.FatLba() + fatOffset / 512;
      ReadSector(fatSector);
      var at := fatOffset % 512;
      var current := U32At(buf[..], at);
      var bytes := U32Bytes(Stored(current, value));
      forall k | 0 <= k < 4 { buf[at + k] := bytes[k]; }
      assert buf[..] == Splice(disk[fatSector], at, bytes);
      WriteSector(fatSector);
    }

    // -------------------------------------------------------- cluster transfer

    /**
     * Puts into the buffer those of the bytes `data[..n]`, meant for offset `off` of a cluster, that fall into sector
     * `i`.
     */
    method CopyIn(data: seq<byte>, n: nat, off: nat, i: nat, ghost before: seq<byte>)
      requires buf.Length == 512 && n <= |data| && off + n <= |before| && i * 512 + 512 <= |before|
      requires buf[..] == before[i * 512..i * 512 + 512]
      modifies buf
      ensures buf[..] == Splice(before, off, data[..n])[i * 512..i * 512 + 512]
    {
      var start := i * 512;
      var end := start + 512;
      if end > off && start < off + n {
        var from := if start > off then start else off;
        var to := if end < off + n then end else off + n;
        forall k | from <= k < to { buf[k - start] := data[k - off]; }
      }
    }

    /** The loop of a cluster write: `data[..n]` goes to offset `off`, sector by sector. */
    method WriteSectors(g: Geometry, c: nat, data: seq<byte>, n: nat, off: nat)
      requires buf.Length == 512 && g.Fits(|disk|) && g.Names(c) && n <= |data| && off + n <= g.ClusterSize()
      modifies buf, this`disk
      ensures SameOutside(old(disk), disk, g.LbaOf(c), g.LbaOf(c) + g.spc)
      ensures Cluster(disk, g, c) == Splice(Cluster(old(disk), g, c), off, data[..n])
    {
      hide g.LbaOf;
      hide Cluster;
      hide Splice;
      ghost var before := Cluster(disk, g, c);
      ghost var target := Splice(before, off, data[..n]);
      LbaBounds(g, |disk|, c);
      var lba := g.LbaOf(c);
      for i := 0 to g.spc
        invariant SameOutside(old(disk), disk, lba, lba + g.spc)
        invariant Cluster(disk, g, c) == target[..i * 512] + before[i * 512..]
      {
        ReadSector(lba + i);
        ClusterSectorAt(disk, g, c, i);
        NotYetDone(before, target, i * 512, i * 512 + 512);
        CopyIn(data, n, off, i, before);
        NextSectorDone(disk, g, c, i, buf[..], before, target);
        WriteSector(lba + i);
      }
    }

    /** Overwrites part of one cluster; returns how many bytes fit. */
    method WriteCluster(g: Geometry, c: nat, data: seq<byte>, offset: nat) returns (n: nat)
      requires buf.Length == 512 && g.Fits(|disk|) && g.Names(c)
      modifies buf, this`disk
      ensures n == Min(|data|, g.ClusterSize() - offset % g.ClusterSize())
      ensures SameOutside(old(disk), disk, g.LbaOf(c), g.LbaOf(c) + g.spc) && CopiesKept(old(disk), disk, g)
      ensures Cluster(disk, g, c) == Splice(Cluster(old(disk), g, c), offset % g.ClusterSize(), data[..n])
    {
      hide g.LbaOf;
      hide Cluster;
      hide CopiesKept;
      hide Splice;
      var size := g.spc * 512;
      var off := offset % size;
      n := Min(|data|, size - off);
      WriteSectors(g, c, data, n, off);
      ClusterWriteSparesCopies(old(disk), disk, g, c);
    }

    /** Of `n` bytes from offset `off` of a cluster, how many lie before sector `i`. */
    static function Before(n: nat, off: nat, i: nat): (r: nat)
      ensures r <= n
    {
      if i * 512 <= off then 0 else Min(n, i * 512 - off)
    }

    static lemma BeforeEnds(n: nat, off: nat, spc: nat)
      requires off + n <= spc * 512
      ensures Before(n, off, 0) == 0 && Before(n, off, spc) == n
    {
    }

    /**
     * Copies to memory those of the `n` bytes from offset `off` of a cluster that the buffer, holding sector `i`,
     * has.
     */
    method CopyOut(ptr: nat, n: nat, off: nat, i: nat, done: nat, ghost bytes: seq<byte>) returns (copied: nat)
      requires buf.Length == 512 && buf != mem && ptr + n <= mem.Length
      requires off + n <= |bytes| && i * 512 + 512 <= |bytes|
      requires buf[..] == bytes[i * 512..i * 512 + 512] && done == Before(n, off, i)
      modifies mem
      ensures done + copied == Before(n, off, i + 1)
      ensures mem[..] == Splice(old(mem[..]), ptr + done, bytes[off + done..off + done + copied])
    {
      var start := i * 512;
      var end := start + 512;
      copied := 0;
      if end > off && start < off + n {
        var from := if start > off then start else off;
        var to := if end < off + n then end else off + n;
        copied := to - from;
        forall k | 0 <= k < copied { mem[ptr + (from - off) + k] := buf[from - start + k]; }
      }
    }

    /** Copies part of one cluster to memory; returns how many bytes were copied. */
    method ReadCluster(g: Geometry, c: nat, ptr: nat, len: nat, offset: nat) returns (n: nat)
      requires buf.Length == 512 && buf != mem && g.Fits(|disk|) && g.Names(c) && ptr + len <= mem.Length
      modifies buf, mem
      ensures n == Min(len, g.ClusterSize() - offset % g.ClusterSize())
      ensures var off := offset % g.ClusterSize();
              mem[..] == Splice(old(mem[..]), ptr, Cluster(disk, g, c)[off..off + n])
    {
      hide g.LbaOf;
      hide Cluster;
      hide Before;
      hide Splice;
      var size := g.spc * 512;
      var off := offset % size;
      var readSize := Min(len, size - off);
      ghost var bytes := Cluster(disk, g, c);
      LbaBounds(g, |disk|, c);
      var lba := g.LbaOf(c);
      BeforeEnds(readSize, off, g.spc);
      n := 0;
      for i := 0 to g.spc
        invariant n == Before(readSize, off, i)
        invariant mem[..] == Splice(old(mem[..]), ptr, bytes[off..off + n])
      {
        ReadSector(lba + i);
        ClusterSectorAt(disk, g, c, i);
        var copied := CopyOut(ptr, readSize, off, i, n, bytes);
        SpliceSlices(old(mem[..]), ptr, bytes, off, n, copied);
        n := n + copied;
      }
    }

    // --------------------------------------------------------- directory scan

    /** Appends the bytes `e[lo..hi]` that are not blanks to the name so far. */
    method AppendVisible(nameBuf: array<byte>, start: nat, e: Entry32, lo: nat, hi: nat) returns (p: nat)
      requires lo <= hi <= 32 && start + hi - lo <= nameBuf.Length
      modifies nameBuf
      ensures start <= p <= start + hi - lo
      ensures nameBuf[..p] == old(nameBuf[..start]) + Packed(e[lo..hi])
    {
      p := start;
      for k := lo to hi
        invariant start <= p <= start + k - lo && nameBuf[..p] == old(nameBuf[..start]) + Packed(e[lo..k])
      {
        PackedStep(e, lo, k);
        if e[k] != SPACE { nameBuf[p] := e[k]; p := p + 1; }
      }
    }

    /** Writes the display name of a directory entry into a 13-byte buffer. */
    method BuildName(e: Entry32) returns (nameBuf: array<byte>, p: nat)
      ensures fresh(nameBuf) && nameBuf.Length == 13 && p <= 12
      ensures nameBuf[..p] == DisplayName(e)
    {
      nameBuf := new byte[13](_ => 0);
      p := AppendVisible(nameBuf, 0, e, 0, 8);
      assert e[0..8] == e[..8];
      if e[8] != SPACE {
        nameBuf[p] := DOT;
        p := AppendVisible(nameBuf, p + 1, e, 8, 11);
      }
    }

    /** The test the directory loops apply to a visible entry. */
    method EntryMatches(e: Entry32, key: Key) returns (b: bool)
      ensures b == Matches(e, key)
    {
      match key
      case ByName(name) =>
        var nameBuf, p := BuildName(e);
        b := SameName(nameBuf[..p], name);
      case ByCluster(c) =>
        b := FirstCluster(e) == c;
    }

    /** Looks through the 16 entries in the buffer, which are entries `k`.. of directory `b`. */
    method ScanSector(key: Key, ghost b: seq<byte>, ghost k: nat) returns (r: SectorScan)
      requires buf.Length == 512 && |b| % 32 == 0 && 32 * k + 512 <= |b| && buf[..] == b[32 * k..32 * k + 512]
      ensures match r
              case Found(j) => j < 16 && FirstMatch(b, k, key) == Some(k + j)
              case Ended => FirstMatch(b, k, key) == None
              case Continue => FirstMatch(b, k, key) == FirstMatch(b, k + 16, key)
    {
      hide FirstMatch;
      hide Matches;
      hide Hidden;
      ghost var sector := buf[..];
      for j := 0 to 16
        invariant FirstMatch(b, k, key) == FirstMatch(b, k + j, key)
      {
        var e: Entry32 := buf[32 * j..32 * j + 32];
        assert e == sector[32 * j..32 * j + 32];
        ScanStep(b, k, sector, j, key);
        if Ends(e) { return Ended; }
        if !Hidden(e) {
          var same := EntryMatches(e, key);
          if same { return Found(j); }
        }
      }
      return Continue;
    }

    /**
     * Looks through one directory cluster, whose bytes are `b` from entry `k` on; the buffer keeps the last sector
     * read.
     */
    method ScanCluster(g: Geometry, c: nat, key: Key, ghost b: seq<byte>, ghost k: nat) returns (r: SectorScan, s: nat)
      requires buf.Length == 512 && g.Fits(|disk|) && g.Names(c)
      requires |b| % 32 == 0 && 32 * k + g.ClusterSize() <= |b|
      requires b[32 * k..32 * k + g.ClusterSize()] == Cluster(disk, g, c)
      modifies buf
      ensures match r
              case Found(j) =>
                && s < g.spc && j < 16 && 0 <= g.LbaOf(c) && g.LbaOf(c) + s < |disk| && buf[..] == disk[g.LbaOf(c) + s]
                && FirstMatch(b, k, key) == Some(k + s * 16 + j)
              case Ended => FirstMatch(b, k, key) == None
              case Continue => FirstMatch(b, k, key) == FirstMatch(b, k + 16 * g.spc, key)
    {
      hide FirstMatch;
      hide g.LbaOf;
      hide Cluster;
      LbaBounds(g, |disk|, c);
      var lba := g.LbaOf(c);
      s := 0;
      while s < g.spc
        invariant s <= g.spc
        invariant FirstMatch(b, k, key) == FirstMatch(b, k + s * 16, key)
      {
        ReadSector(lba + s);
        ClusterSectorAt(disk, g, c, s);
        SliceOfSlice(b, 32 * k, 32 * k + g.ClusterSize(), s * 512, s * 512 + 512);
        assert buf[..] == b[32 * (k + s * 16)..32 * (k + s * 16) + 512];
        var found := ScanSector(key, b, k + s * 16);
        match found {
          case Found(j) => return Found(j), s;
          case Ended => return Ended, s;
          case Continue =>
        }
        s := s + 1;
      }
      return Continue, s;
    }

    /** The link stored for `c`, end markers and zero included. */
    method RawNext(g: Geometry, c: nat) returns (next: nat)
      requires buf.Length == 512 && g.Fits(|disk|) && c < g.Entries()
      modifies buf
      ensures next == Low28(FatView(disk, g)[c])
    {
      FatSectorBounds(g, |disk|, c);
      var fatOffset := c * 4;
      ReadSector(g.FatLba() + fatOffset / 512);
      assert FatView(disk, g)[c] == FatWord(disk, g, c);
      next := U32At(buf[..], fatOffset % 512) % 0x1000_0000;
    }

    /** The scan is at cluster `i` of the chain, or past its end, and none of the first `k` entries decided it. */
    static ghost predicate Scanning(d: Disk, g: Geometry, cs: seq<nat>, key: Key, i: nat, k: nat, current: nat)
      requires g.Fits(|d|) && AllNamed(g, cs) && |ChainBytes(d, g, cs)| % 32 == 0
    {
      var b := ChainBytes(d, g, cs);
      && i <= |cs| && 32 * k == i * g.ClusterSize() <= |b|
      && (if i < |cs| then current == cs[i] else current >= END_OF_CHAIN || current == 0)
      && FirstMatch(b, 0, key) == FirstMatch(b, k, key)
    }

    static lemma ScanStart(d: Disk, g: Geometry, cs: seq<nat>, key: Key)
      requires g.Fits(|d|) && AllNamed(g, cs) && |ChainBytes(d, g, cs)| % 32 == 0 && cs != []
      ensures Scanning(d, g, cs, key, 0, 0, cs[0])
    {
    }

    static lemma ScanHere(d: Disk, g: Geometry, cs: seq<nat>, key: Key, i: nat, k: nat, current: nat)
      requires g.Fits(|d|) && AllNamed(g, cs) && |ChainBytes(d, g, cs)| % 32 == 0
      requires Scanning(d, g, cs, key, i, k, current) && current < END_OF_CHAIN && current != 0
      ensures i < |cs| && current == cs[i] && g.Names(current) && current < g.Entries()
      ensures var b, w := ChainBytes(d, g, cs), g.ClusterSize();
              && 32 * k == i * w && 32 * k + w <= |b| && b[32 * k..32 * k + w] == Cluster(d, g, current)
              && FirstMatch(b, 0, key) == FirstMatch(b, k, key)
    {
      hide FirstMatch;
      ChainBytesAt(d, g, cs, i);
    }

    static lemma ScanNext(d: Disk, g: Geometry, cs: seq<nat>, key: Key, i: nat, k: nat, current: nat, next: nat)
      requires g.Fits(|d|) && AllNamed(g, cs) && |ChainBytes(d, g, cs)| % 32 == 0 && Linked(FatView(d, g), cs)
      requires Scanning(d, g, cs, key, i, k, current) && i < |cs| && current == cs[i]
      requires next == Low28(FatView(d, g)[current])
      requires var b := ChainBytes(d, g, cs);
               32 * (k + 16 * g.spc) <= |b| && FirstMatch(b, k, key) == FirstMatch(b, k + 16 * g.spc, key)
      ensures Scanning(d, g, cs, key, i + 1, k + 16 * g.spc, next)
    {
      hide FirstMatch;
      var w := g.ClusterSize();
      if i + 1 < |cs| { NextInChain(FatView(d, g), cs, i); }
      assert (i + 1) * w == i * w + w;
    }

    static lemma ScanEnd(d: Disk, g: Geometry, cs: seq<nat>, key: Key, i: nat, k: nat, current: nat)
      requires g.Fits(|d|) && AllNamed(g, cs) && |ChainBytes(d, g, cs)| % 32 == 0
      requires Scanning(d, g, cs, key, i, k, current) && (current >= END_OF_CHAIN || current == 0)
      requires forall c :: c in cs ==> 0 < c < END_OF_CHAIN
      ensures FirstMatch(ChainBytes(d, g, cs), 0, key) == None
    {
    }

    /**
     * Follows the directory chain `cs` from its first cluster until an entry matches or the end marker.
     * On success the buffer holds the sector of the entry, sector `s` of cluster `i` of the chain.
     */
    method Scan(g: Geometry, first: nat, key: Key, ghost cs: seq<nat>)
      returns (r: Option<(nat, nat)>, ghost i: nat, ghost s: nat, ghost m: nat)
      requires buf.Length == 512 && g.Fits(|disk|) && Linked(FatView(disk, g), cs) && AllNamed(g, cs) && cs[0] == first
      requires |ChainBytes(disk, g, cs)| % 32 == 0
      modifies buf
      ensures r.None? ==> FirstMatch(ChainBytes(disk, g, cs), 0, key) == None
      ensures r.Some? ==> FirstMatch(ChainBytes(disk, g, cs), 0, key) == Some(m)
      ensures r.Some? ==> EntryAt(disk, g, cs, i, s, r.value.1, m, r.value.0) && buf[..] == disk[r.value.0]
    {
      hide FirstMatch;
      hide Scanning;
      ghost var b := ChainBytes(disk, g, cs);
      ghost var k: nat := 0;
      i, s, m := 0, 0, 0;
      var current: nat := first;
      ScanStart(disk, g, cs, key);
      while current < END_OF_CHAIN && current != 0
        invariant Scanning(disk, g, cs, key, i, k, current)
        decreases |cs| - i
      {
        ScanHere(disk, g, cs, key, i, k, current);
        var found, sector := ScanCluster(g, current, key, b, k);
        match found {
          case Found(j) => return Some((g.LbaOf(current) + sector, j)), i, sector, k + sector * 16 + j;
          case Ended => return None, i, s, m;
          case Continue =>
        }
        var next := RawNext(g, current);
        ScanNext(disk, g, cs, key, i, k, current, next);
        k := k + 16 * g.spc;
        current, i := next, i + 1;
      }
      ScanEnd(disk, g, cs, key, i, k, current);
      return None, i, s, m;
    }

    /** First cluster and size of the first entry with the given name, ignoring ASCII case. */
    method FindEntry(g: Geometry, first: nat, name: seq<byte>, ghost cs: seq<nat>) returns (r: Option<(nat, nat)>)
      requires buf.Length == 512 && g.Fits(|disk|) && Linked(FatView(disk, g), cs) && AllNamed(g, cs) && cs[0] == first
      requires |ChainBytes(disk, g, cs)| % 32 == 0
      modifies buf
      ensures var b := ChainBytes(disk, g, cs); var m := FirstMatch(b, 0, ByName(name));
              r == if m.None? then None else Some((FirstCluster(Entry(b, m.value)), FileSize(Entry(b, m.value))))
    {
      hide FirstMatch;
      var found, i, s, m := Scan(g, first, ByName(name), cs);
      if found.None? { return None; }
      var (lba, j) := found.value;
      EntryInSector(disk, g, cs, i, s, j, m, lba);
      var e: Entry32 := buf[32 * j..32 * j + 32];
      return Some((FirstCluster(e), FileSize(e)));
    }

    /** Stores `size` in the first root entry whose first cluster is `target`; `i` is the root cluster written. */
    method UpdateDirEntry(g: Geometry, target: nat, size: nat) returns (ghost i: nat)
      requires buf.Length == 512 && VolumeOk(disk, g, chains) && size < 0x1_0000_0000
      modifies buf, this`disk
      ensures DirUpdated(old(disk), disk, chains, g, target, size, i)
    {
      hide FirstMatch;
      ghost var cs := chains[g.root];
      var found, ii, s, m := Scan(g, g.root, ByCluster(target), cs);
      i := ii;
      if found.None? { return; }
      var (lba, j) := found.value;
      forall k | 0 <= k < |cs| && cs[k] == cs[i] ensures k == i { LinkedAcyclic(FatView(disk, g), cs, k, i); }
      PatchSize(j, size);
      SizeInSector(disk, g, cs, i, s, j, m, lba, size, buf[..]);
      WriteSector(lba);
    }

    method PatchSize(j: nat, size: nat)
      requires buf.Length == 512 && j < 16 && size < 0x1_0000_0000
      modifies buf
      ensures buf[..] == Splice(old(buf[..]), 32 * j + 28, U32Bytes(size))
    {
      var bytes := U32Bytes(size);
      forall k | 0 <= k < 4 { buf[32 * j + 28 + k] := bytes[k]; }
    }

    // ------------------------------------------------------------ write call

    /** The cluster after `cur`, the `i`-th of chain `h`; appends a free cluster when `cur` is the last. */
    method NextOrExtend(g: Geometry, cur: nat, ghost h: nat, ghost i: nat) returns (next: Option<nat>)
      requires buf.Length == 512 && VolumeOk(disk, g, chains) && h in chains && h != g.root
      requires i < |chains[h]| && cur == chains[h][i]
      modifies buf, this`disk, this`chains
      ensures VolumeOk(disk, g, chains)
      ensures ChainGrew(FatView(old(disk), g), old(chains), FatView(disk, g), chains, h)
      ensures SameOutside(old(disk), disk, g.FatLba(), g.FatLba() + g.fatSz)
      ensures next.Some? ==> |chains[h]| == (if i + 1 < |old(chains)[h]| then |old(chains)[h]| else i + 2)
      ensures next.Some? ==> i + 1 < |chains[h]| && next.value == chains[h][i + 1]
      ensures next.None? ==> |chains[h]| == i + 1 && FreeSet(FatView(disk, g)) == {}
    {
      hide VolumeOk;
      ghost var cs := chains[h];
      VolumeFacts(disk, g, chains, h);
      next := NextCluster(g, cur);
      assert i + 1 < |cs| ==> Next(FatView(disk, g), cs[i]) == Some(cs[i + 1]);
      if next.Some? { return; }
      var spare := AllocCluster(g);
      if spare.None? { return None; }
      AppendKeepsVolume(disk, g, chains, h, spare.value);
      SetFatEntry(g, cur, spare.value);
      SetFatEntry(g, spare.value, LAST);
      chains := chains[h := cs + [spare.value]];
      next := spare;
    }

    /** First loop of the write call: the cluster that holds offset `pos`, extending the chain as needed. */
    method SeekExtending(g: Geometry, h: nat, pos: nat) returns (r: Option<(nat, nat)>, ghost i: nat)
      requires buf.Length == 512 && VolumeOk(disk, g, chains) && h in chains && h != g.root
      modifies buf, this`disk, this`chains
      ensures Extending(old(disk), old(chains), disk, chains, g, h)
      ensures h in chains && Holds(old(disk), disk, g, chains[h], 0, [])
      ensures r.None? ==> Reach(old(disk), g, old(chains), h) <= pos && FreeSet(FatView(disk, g)) == {}
      ensures r.Some? && |chains[h]| > |old(chains)[h]| ==> |chains[h]| == i + 1
      ensures r.Some? ==> i < |chains[h]| && r.value.0 == chains[h][i]
      ensures r.Some? ==> r.value.1 == i * g.ClusterSize() <= pos < r.value.1 + g.ClusterSize()
    {
      hide VolumeOk;
      hide Extending;
      hide Holds;
      hide ChainGrew;
      ExtendStart(disk, chains, g, h);
      VolumeFacts(disk, g, chains, h);
      var size := g.spc * 512;
      var cur := h;
      var start := 0;
      i := 0;
      while start + size <= pos
        invariant Extending(old(disk), old(chains), disk, chains, g, h)
        invariant h in chains && Holds(old(disk), disk, g, chains[h], 0, [])
        invariant i < |chains[h]| && cur == chains[h][i] && start == i * size <= pos
        invariant |chains[h]| > |old(chains)[h]| ==> |chains[h]| == i + 1
        decreases pos - start
      {
        ghost var d, ch := disk, chains;
        ExtendFacts(old(disk), old(chains), d, ch, g, h);
        var next := NextOrExtend(g, cur, h, i);
        ExtendBoth(old(disk), old(chains), d, ch, disk, chains, g, h, 0, []);
        assert (i + 1) * size == i * size + size;
        if next.None? {
          ReachKept(old(disk), old(chains), disk, chains, g, h);
          ReachFull(disk, g, chains, h);
          return None, i;
        }
        cur := next.value;
        start := start + size;
        i := i + 1;
      }
      return Some((cur, start)), i;
    }

    /**
     * Second loop of the write call: writes `data` from offset `writeOffset` of cluster `cur`, the `i`-th of
     * chain `h`, on, taking free clusters when the chain ends. `d0` and `ch0` are the state before the call.
     */
    method WriteChunks(g: Geometry, cur: nat, data: seq<byte>, writeOffset: nat,
                       ghost d0: Disk, ghost ch0: Chains, ghost h: nat, ghost i: nat, ghost pos: nat)
      returns (written: nat)
      requires buf.Length == 512 && Extending(d0, ch0, disk, chains, g, h) && h in chains
      requires Holds(d0, disk, g, chains[h], 0, [])
      requires i < |chains[h]| && cur == chains[h][i] && writeOffset < g.ClusterSize()
      requires pos == i * g.ClusterSize() + writeOffset
      requires data != [] && h in ch0 && (|chains[h]| > |ch0[h]| ==> |chains[h]| == i + 1)
      modifies buf, this`disk, this`chains
      ensures Extending(d0, ch0, disk, chains, g, h) && h in chains
      ensures written <= |data| && Holds(d0, disk, g, chains[h], pos, data[..written])
      ensures written < |data| ==> g.Fits(|disk|) && Reach(disk, g, chains, h) == pos + written
      ensures NoWaste(|ch0[h]|, |chains[h]|, g, pos + written)
    {
      hide VolumeOk;
      hide Extending;
      hide Holds;
      hide ChainGrew;
      hide SameOutside;
      var size := g.spc * 512;
      var at := cur;
      var remaining: nat := |data|;
      var offset: nat := writeOffset;
      ghost var k: nat := i;
      written := 0;
      HoldsNothing(d0, disk, g, chains[h], pos, i);
      assert data[..0] == [];
      while remaining > 0
        invariant Extending(d0, ch0, disk, chains, g, h) && h in chains
        invariant written + remaining == |data| && Holds(d0, disk, g, chains[h], pos, data[..written])
        invariant remaining > 0 ==> k < |chains[h]| && at == chains[h][k]
        invariant remaining > 0 ==> offset < size && pos + written == k * size + offset
        invariant |chains[h]| > |ch0[h]| ==> |chains[h]| == k + 1
        invariant remaining == 0 ==> k * size < pos + written
        decreases remaining
      {
        ghost var d := disk;
        ExtendFacts(d0, ch0, d, chains, g, h);
        ModSmall(offset, size);
        var n := WriteCluster(g, at, data[written..], offset);
        assert n == Min(|data| - written, size - offset);
        if n == 0 { break; }
        assert data[written..][..n] == data[written..written + n];
        WriteBoth(d0, ch0, d, chains, disk, g, h, k, offset, pos, data[..written], data[written..written + n]);
        assert data[..written] + data[written..written + n] == data[..written + n];
        written := written + n;
        remaining := remaining - n;
        offset := 0;
        if remaining > 0 {
          assert (k + 1) * size == k * size + size;
          ghost var e, ch := disk, chains;
          ExtendFacts(d0, ch0, e, ch, g, h);
          var next := NextOrExtend(g, at, h, k);
          ExtendBoth(d0, ch0, e, ch, disk, chains, g, h, pos, data[..written]);
          if next.None? {
            ExtendFacts(d0, ch0, disk, chains, g, h);
            ReachFull(disk, g, chains, h);
            break;
          }
          at := next.value;
          k := k + 1;
        }
      }
    }

    // ------------------------------------------------------ descriptor table

    /** First unused slot from 3 on gets a descriptor at position 0; -1 if all are taken. */
    method AllocateFd(cluster: nat, isDir: bool, fileSize: nat) returns (fd: int)
      requires fds.Length == 256
      modifies fds
      ensures match FreeSlot(old(fds[..]), 3)
              case None => fd == -1 && fds[..] == old(fds[..])
              case Some(i) => fd == i && fds[..] == old(fds[..])[i := Some(FileDescriptor(cluster, 0, isDir, fileSize))]
    {
      for i := 3 to 256
        invariant FreeSlot(fds[..], 3) == FreeSlot(fds[..], i)
        invariant fds[..] == old(fds[..])
      {
        if fds[i].None? {
          fds[i] := Some(FileDescriptor(cluster, 0, isDir, fileSize));
          return i;
        }
      }
      return -1;
    }

    function GetFd(fd: nat): (f: Option<FileDescriptor>)
      requires fds.Length == 256
      reads fds
      ensures f == Slot(fds[..], fd)
    {
      if fd < 256 then fds[fd] else None
    }

    /** End of the write call: advances the descriptor and, if the file grew, tells the root directory. */
    method Commit(g: Geometry, fd: nat, f: FileDescriptor, ghost data: seq<byte>, written: nat, ghost d0: Disk,
                  ghost ch0: Chains)
      requires buf.Length == 512 && fds.Length == 256 && fd < 256 && fds[fd] == Some(f) && f.cluster != 0
      requires VolumeOk(d0, g, ch0) && f.cluster in ch0 && FdsOk(fds[..], chains, g)
      requires f.cluster in chains && NoWaste(|ch0[f.cluster]|, |chains[f.cluster]|, g, f.position + written)
      requires written <= |data| && Written(d0, ch0, disk, chains, g, f.cluster, f.position, data[..written])
      requires written == WriteCount(Reach(d0, g, ch0, f.cluster), f.position, |data|)
      modifies buf, fds, this`disk
      ensures fds[..] == old(fds[..])[fd := fds[fd]] && fds[fd].Some?
      ensures FdsOk(fds[..], chains, g)
      ensures WriteOutcome(d0, ch0, f, disk, chains, fds[fd].value, g, data, written)
    {
      hide VolumeOk;
      hide Extending;
      hide Holds;
      hide WriteOutcome;
      hide DirUpdated;
      hide FdsOk;
      hide Written;
      hide NoWaste;
      hide Backed;
      RootFacts(d0, g, ch0);
      WrittenParts(d0, ch0, disk, chains, g, f.cluster, f.position, data[..written]);
      ExtendFacts(d0, ch0, disk, chains, g, f.cluster);
      FdsOkAt(fds[..], chains, g, fd);
      FdsOkSet(fds[..], chains, g, fd, f.(position := f.position + written));
      fds[fd] := Some(f.(position := f.position + written));
      if fds[fd].value.position > f.fileSize {
        var size := fds[fd].value.position % 0x1_0000_0000;
        WrittenBacks(d0, ch0, disk, chains, g, f.cluster, f.position, data[..written], size);
        FdsOkSet(fds[..], chains, g, fd, fds[fd].value.(fileSize := size));
        fds[fd] := Some(fds[fd].value.(fileSize := size));
        ghost var d := disk;
        CountedGrown(Reach(d0, g, ch0, f.cluster), f, |data|, written, size);
        assert data[..|data[..written]|] == data[..written];
        var i := UpdateDirEntry(g, f.cluster, size);
        FinishGrown(d0, ch0, d, disk, chains, g, f, fds[fd].value, data, data[..written], size, i);
      } else {
        FinishKept(d0, ch0, disk, chains, g, f, fds[fd].value, data, written);
      }
    }

    /** The write call once its arguments are accepted. */
    method WriteThrough(g: Geometry, fd: nat, f: FileDescriptor, data: seq<byte>) returns (r: int)
      requires Valid() && g == geo && fd < 256 && fds[fd] == Some(f) && f.cluster != 0 && data != []
      modifies buf, fds, this`disk, this`chains
      ensures FdsOk(fds[..], chains, g)
      ensures fds[..] == old(fds[..])[fd := fds[fd]] && fds[fd].Some?
      ensures WriteOutcome(old(disk), old(chains), f, disk, chains, fds[fd].value, g, data, r)
    {
      hide VolumeOk;
      hide Extending;
      hide Holds;
      hide WriteOutcome;
      hide ChainGrew;
      ghost var d0, ch0 := disk, chains;
      RootFacts(d0, g, ch0);
      assert Backed(f.cluster, f.fileSize, chains, g);
      ghost var h := f.cluster;
      var sought, i := SeekExtending(g, f.cluster, f.position);
      ExtendFacts(d0, ch0, disk, chains, g, h);
      ExtendGrew(d0, ch0, disk, chains, g, h);
      FdsOkGrows(fds[..], ch0, chains, g, h);
      if sought.None? {
        r := -1;
        FinishKept(d0, ch0, disk, chains, g, f, f, data, r);
        return;
      }
      var (cur, start) := sought.value;
      SoughtInReach(d0, ch0, disk, chains, g, h, i, f.position);
      var written := WriteChunks(g, cur, data, f.position - start, d0, ch0, h, i, f.position);
      ExtendFacts(d0, ch0, disk, chains, g, h);
      ExtendGrew(d0, ch0, disk, chains, g, h);
      FdsOkGrows(fds[..], ch0, chains, g, h);
      WrittenInReach(d0, ch0, disk, chains, g, h, f.position, data, written);
      Commit(g, fd, f, data, written, d0, ch0);
      r := written;
    }

    /**
     * The write system call on `len` bytes of memory from `ptr` on. Its caller must not pass the descriptor of
     * a file without a cluster.
     */
    method WriteFile(fd: nat, ptr: nat, len: nat) returns (r: int)
      requires Valid() && ptr + len <= mem.Length
      requires Accepts(fds[..], fd, ptr, len) ==> GetFd(fd).value.cluster != 0
      modifies buf, fds, this`disk, this`chains
      ensures Valid()
      ensures !old(Accepts(fds[..], fd, ptr, len)) ==>
        r == -1 && disk == old(disk) && chains == old(chains) && fds[..] == old(fds[..])
      ensures old(Accepts(fds[..], fd, ptr, len)) ==>
                && fds[..] == old(fds[..])[fd := fds[fd]] && fds[fd].Some?
                && WriteOutcome(old(disk), old(chains), old(GetFd(fd)).value,
                                disk, chains, fds[fd].value, geo, mem[ptr..ptr + len], r)
    {
      hide VolumeOk;
      hide WriteOutcome;
      hide FdsOk;
      if ptr == 0 || len == 0 { return -1; }
      var entry := GetFd(fd);
      if entry.None? { return -1; }
      if entry.value.isDir { return -1; }
      RootFacts(disk, geo, chains);
      var fs := Init();
      if fs.None? { return -1; }
      r := WriteThrough(fs.value, fd, entry.value, mem[ptr..ptr + len]);
      OutcomeVolume(old(disk), old(chains), entry.value, disk, chains, fds[fd].value, geo, mem[ptr..ptr + len], r);
      RootFacts(disk, geo, chains);
      ReadSector(2048);
    }

    // ------------------------------------------------------------- read call

    /** First loop of the read call; a position inside the chain is always reached, so the walk never breaks off. */
    method SeekReading(g: Geometry, first: nat, pos: nat, ghost cs: seq<nat>)
      returns (cur: nat, start: nat, ghost i: nat)
      requires buf.Length == 512 && g.Fits(|disk|) && Linked(FatView(disk, g), cs) && AllNamed(g, cs) && cs[0] == first
      requires pos < |cs| * g.ClusterSize()
      modifies buf
      ensures i < |cs| && cur == cs[i] && start == i * g.ClusterSize() <= pos < start + g.ClusterSize()
    {
      ghost var fat := FatView(disk, g);
      var size := g.spc * 512;
      cur, start, i := first, 0, 0;
      while start + size <= pos
        invariant i < |cs| && cur == cs[i] && start == i * size <= pos
        decreases pos - start
      {
        assert (i + 1) * size == i * size + size;
        MulCancel(i + 1, |cs|, size);
        NextInChain(fat, cs, i);
        var next := NextCluster(g, cur);
        match next {
          case Some(c) =>
            cur, start, i := c, start + size, i + 1;
          case None => break;
        }
      }
    }

    /** Second loop of the read call: `count` bytes of the chain from `i * size + offset` on go to memory. */
    method ReadChunks(g: Geometry, cur: nat, readOffset: nat, ptr: nat, count: nat, ghost cs: seq<nat>, ghost i: nat,
                      ghost pos: nat)
      returns (total: nat)
      requires buf.Length == 512 && buf != mem && ptr + count <= mem.Length
      requires g.Fits(|disk|) && Linked(FatView(disk, g), cs) && AllNamed(g, cs) && i < |cs| && cur == cs[i]
      requires readOffset < g.ClusterSize() && pos == i * g.ClusterSize() + readOffset
      requires pos + count <= |cs| * g.ClusterSize()
      modifies buf, mem
      ensures total == count
      ensures Copied(old(mem[..]), mem[..], ptr, disk, g, cs, pos, count)
    {
      hide Linked;
      hide Copied;
      ghost var fat := FatView(disk, g);
      var size := g.spc * 512;
      var at := cur;
      var remaining: nat := count;
      var offset: nat := readOffset;
      ghost var k: nat := i;
      ghost var m0, m := mem[..], mem[..];
      total := 0;
      CopiedNothing(m0, ptr, disk, g, cs, pos);
      while remaining > 0
        invariant total + remaining == count && mem[..] == m
        invariant Copied(m0, m, ptr, disk, g, cs, pos, total)
        invariant remaining > 0 ==> k < |cs| && at == cs[k] && offset < size && pos + total == k * size + offset
        decreases remaining
      {
        var chunk := Min(remaining, size - offset);
        ModSmall(offset, size);
        var n := ReadCluster(g, at, ptr + total, chunk, offset);
        if n == 0 { break; }
        ChunkRead(m0, m, mem[..], ptr, disk, g, cs, k, offset, pos, total, n);
        m := mem[..];
        total := total + n;
        remaining := remaining - n;
        offset := 0;
        if remaining > 0 {
          assert (k + 1) * size == k * size + size;
          MulCancel(k + 1, |cs|, size);
          NextInChain(fat, cs, k);
          var next := NextCluster(g, at);
          match next {
            case Some(c) => at := c;
            case None => break;
          }
          k := k + 1;
        }
      }
    }

    /** The read system call of at most `len` bytes to memory at `ptr`. */
    method ReadFile(fd: nat, ptr: nat, len: nat) returns (r: int)
      requires Valid() && ptr + len <= mem.Length
      modifies buf, fds, mem
      ensures Valid()
      ensures !old(Accepts(fds[..], fd, ptr, len)) ==> r == -1 && fds[..] == old(fds[..]) && mem[..] == old(mem[..])
      ensures old(Accepts(fds[..], fd, ptr, len)) ==>
                && ReadOutcome(disk, chains, geo, old(GetFd(fd)).value, old(mem[..]), ptr, len, mem[..], r)
                && var f := old(GetFd(fd)).value; fds[..] == old(fds[..])[fd := Some(f.(position := f.position + r))]
    {
      hide VolumeOk;
      hide Linked;
      hide FdsOk;
      hide Copied;
      if ptr == 0 || len == 0 { return -1; }
      var entry := GetFd(fd);
      if entry.None? { return -1; }
      if entry.value.isDir { return -1; }
      var f := entry.value;
      FdsOkAt(fds[..], chains, geo, fd);
      var maxRead := ReadCount(f, len);
      if maxRead == 0 {
        assert f.(position := f.position + 0) == f;
        return 0;
      }
      RootFacts(disk, geo, chains);
      var fs := Init();
      if fs.None? { return -1; }
      var g := fs.value;
      ghost var cs := chains[f.cluster];
      VolumeFacts(disk, g, chains, f.cluster);
      var cur, start, i := SeekReading(g, f.cluster, f.position, cs);
      var total := ReadChunks(g, cur, f.position - start, ptr, maxRead, cs, i, f.position);
      FdsOkSet(fds[..], chains, geo, fd, f.(position := f.position + total));
      fds[fd] := Some(f.(position := f.position + total));
      r := total;
    }

    // ----------------------------------------------- open, close, seek, lseek

    /** Mounts a well-formed volume, all descriptors unused. */
    constructor (d: Disk, memory: array<byte>, ghost g: Geometry, ghost ch: Chains)
      requires VolumeOk(d, g, ch)
      ensures Valid() && fresh(buf) && fresh(fds) && mem == memory
      ensures disk == d && chains == ch && geo == g && forall i :: 0 <= i < 256 ==> fds[i] == None
    {
      disk, mem, geo, chains := d, memory, g, ch;
      buf := new byte[512](_ => 0);
      fds := new Option<FileDescriptor>[256](_ => None);
    }

    method Open(path: seq<byte>) returns (fd: int)
      requires Valid()
      modifies buf, fds
      ensures Valid()
      ensures |RootBytes(disk, geo, chains)| % 32 == 0
      ensures match FirstMatch(RootBytes(disk, geo, chains), 0, ByName(path))
              case None => fd == -1 && fds[..] == old(fds[..])
              case Some(m) =>
                match FreeSlot(old(fds[..]), 3)
                case None => fd == -1 && fds[..] == old(fds[..])
                case Some(i) =>
                  var e := Entry(RootBytes(disk, geo, chains), m);
                  fd == i && fds[..] == old(fds[..])[i := Some(FileDescriptor(FirstCluster(e), 0, false, FileSize(e)))]
    {
      hide VolumeOk;
      hide FdsOk;
      hide FirstMatch;
      RootFacts(disk, geo, chains);
      var fs := Init();
      if fs.None? { return -1; }
      var g := fs.value;
      var found := FindEntry(g, g.root, path, chains[g.root]);
      match found {
        case Some(e) =>
          EntryBacked(disk, geo, chains, ByName(path));
          fd := AllocateFd(e.0, false, e.1);
          if fd != -1 { FdsOkSet(old(fds[..]), chains, geo, fd, FileDescriptor(e.0, 0, false, e.1)); }
        case None => fd := -1;
      }
    }

    method Close(fd: nat) returns (ok: bool)
      requires Valid()
      modifies fds
      ensures Valid()
      ensures ok == (3 <= fd < 256)
      ensures fds[..] == if ok then old(fds[..])[fd := None] else old(fds[..])
    {
      if fd >= 3 && fd < 256 {
        fds[fd] := None;
        ok := true;
      } else {
        ok := false;
      }
    }

    method LSeek(fd: nat, offset: int, whence: nat) returns (r: int)
      requires Valid()
      modifies fds
      ensures Valid()
      ensures match old(GetFd(fd))
              case None => r == -1 && fds[..] == old(fds[..])
              case Some(f) =>
                match SeekTarget(f, offset, whence)
                case None => r == -1 && fds[..] == old(fds[..])
                case Some(p) => r == p && fds[..] == old(fds[..])[fd := Some(f.(position := p))]
    {
      hide VolumeOk;
      hide FdsOk;
      var entry := GetFd(fd);
      if entry.None? { return -1; }
      var f := entry.value;
      FdsOkAt(fds[..], chains, geo, fd);
      var newPos;
      if whence == 0 {
        newPos := offset;
      } else if whence == 1 {
        newPos := Signed64(Signed64(f.position) + offset);
      } else if whence == 2 {
        newPos := Signed64(f.fileSize + offset);
      } else {
        return -1;
      }
      if newPos < 0 { return -1; }
      FdsOkSet(fds[..], chains, geo, fd, f.(position := newPos));
      fds[fd] := Some(f.(position := newPos));
      r := newPos;
    }

    method Seek(fd: nat, pos: nat) returns (r: int)
      requires Valid()
      modifies fds
      ensures Valid()
      ensures match old(GetFd(fd))
              case None => r == -1 && fds[..] == old(fds[..])
              case Some(f) => r == Signed64(pos) && fds[..] == old(fds[..])[fd := Some(f.(position := pos))]
    {
      var entry := GetFd(fd);
      match entry {
        case Some(f) =>
          fds[fd] := Some(f.(position := pos));
          r := Signed64(pos);
        case None => r := -1;
      }
    }

    // --------------------------------------------------------- system calls

    /** The caller's view of this driver. */
    ghost function State(): Machine
      requires Valid()
      reads this, fds, mem
    {
      Snapshot(disk, geo, chains, fds[..], mem[..])
    }

    /** System call dispatch. */
    method Syscall(call: Call) returns (ret: int)
      requires Valid() && InDomain(State(), call)
      modifies buf, fds, mem, this`disk, this`chains
      ensures Valid() && Step(old(State()), call, State(), ret)
    {
      hide VolumeOk;
      hide FdsOk;
      hide FirstMatch;
      hide WriteOutcome;
      hide ReadOutcome;
      hide OpenStep;
      hide ReadStep;
      hide WriteStep;
      hide Listing;
      hide Files;
      hide Room;
      match call {
        case Open(path) =>
          ret := Open(path);
          OpenRefines(disk, geo, chains, old(fds[..]), fds[..], mem[..], path, ret);
        case Close(fd) =>
          var ok := Close(fd);
          ret := if ok then 0 else -1;
        case Seek(fd, pos) =>
          ret := Seek(fd, pos);
        case LSeek(fd, offset, whence) =>
          ret := LSeek(fd, offset, whence);
        case Read(fd, ptr, len) =>
          ret := ReadFile(fd, ptr, len);
          if old(Accepts(fds[..], fd, ptr, len)) {
            ReadRefines(disk, geo, chains, old(fds[..]), fd, old(mem[..]), ptr, len, mem[..], ret);
          }
        case Write(fd, ptr, len) =>
          ret := WriteFile(fd, ptr, len);
          if old(Accepts(fds[..], fd, ptr, len)) {
            WriteRefines(old(disk), old(chains), old(fds[..]), fd, disk, chains, fds[fd].value, geo,
                         mem[..], mem[ptr..ptr + len], ret);
          }
      }
    }

    lemma DomainSeen(call: Call)
      requires Valid()
      ensures InDomain(State(), call) == Permitted(fds[..], mem.Length, call)
    {
    }

    /** Any sequence of calls, up to the first that breaks what callers owe, is a run of the caller's files. */
    method Serve(calls: seq<Call>) returns (rets: seq<int>, ghost states: seq<Machine>)
      requires Valid()
      modifies buf, fds, mem, this`disk, this`chains
      ensures Valid() && Run(states, calls, rets) && Sound(states[0])
      ensures states[0] == old(State()) && states[|rets|] == State()
      ensures |rets| < |calls| ==> !InDomain(State(), calls[|rets|])
    {
      hide Step;
      hide VolumeOk;
      hide Snapshot;
      hide InDomain;
      hide Sound;
      SnapshotSound(disk, geo, chains, fds[..], mem[..]);
      rets := [];
      states := [State()];
      for i := 0 to |calls|
        invariant Valid() && |rets| == i && Run(states, calls, rets)
        invariant states[0] == old(State()) && states[i] == State()
      {
        DomainSeen(calls[i]);
        if !Permitted(fds[..], mem.Length, calls[i]) { return; }
        ghost var before := states;
        var ret := Syscall(calls[i]);
        ghost var was := rets;
        rets := rets + [ret];
        states := states + [State()];
        forall j | 0 <= j < |rets| ensures InDomain(states[j], calls[j]) && StepAt(states, calls, rets, j) {
          if j < |was| { assert StepAt(before, calls, was, j); }
        }
      }
    }
  }
}
