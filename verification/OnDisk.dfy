// Boot sectors and directory entries field by field, as the FAT32 specification has them, and what the driver reads.
module OnDisk {
  import opened Bytes
  import opened Layout
  import opened FileModel
  import opened Fat
  import opened Volume
  import opened Directory

  // ------------------------------------------------------------ boot sectors

  /** Master boot record: code, the first of four partition entries, the others, signature. */
  datatype BootRecord = BootRecord(code: seq<byte>, status: byte, firstChs: seq<byte>, kind: byte, lastChs: seq<byte>,
                                   lba: nat, sectors: nat, others: seq<byte>)
  {
    predicate Ok() {
      && |code| == 446 && |firstChs| == 3 && |lastChs| == 3 && lba < 0x1_0000_0000 && sectors < 0x1_0000_0000
      && |others| == 48
    }

    function Bytes(): (s: Sector)
      requires Ok()
    {
      code + [status] + firstChs + [kind] + lastChs + Le4(lba) + Le4(sectors) + others + [0x55, 0xAA]
    }
  }

  /** Boot sector of a FAT32 volume, up to the root cluster, and the rest of the sector. */
  datatype VolumeBoot = VolumeBoot(jump: seq<byte>, oem: seq<byte>, bytesPerSector: nat, sectorsPerCluster: byte,
                                   reserved: nat, copies: byte, rootEntries: nat, total16: nat, media: byte,
                                   fatSize16: nat, perTrack: nat, heads: nat, hidden: nat, total32: nat,
                                   fatSize32: nat, flags: nat, version: nat, root: nat, rest: seq<byte>)
  {
    predicate Ok() {
      && |jump| == 3 && |oem| == 8 && bytesPerSector < 0x1_0000 && reserved < 0x1_0000 && rootEntries < 0x1_0000
      && total16 < 0x1_0000 && fatSize16 < 0x1_0000 && perTrack < 0x1_0000 && heads < 0x1_0000
      && hidden < 0x1_0000_0000 && total32 < 0x1_0000_0000 && fatSize32 < 0x1_0000_0000
      && flags < 0x1_0000 && version < 0x1_0000 && root < 0x1_0000_0000 && |rest| == 464
    }

    function Bytes(): (s: Sector)
      requires Ok()
    {
      jump + oem + Le2(bytesPerSector) + [sectorsPerCluster] + Le2(reserved) + [copies] + Le2(rootEntries)
      + Le2(total16) + [media] + Le2(fatSize16) + Le2(perTrack) + Le2(heads) + Le4(hidden) + Le4(total32)
      + Le4(fatSize32) + Le2(flags) + Le2(version) + Le4(root) + rest
    }
  }

  lemma BootRecordReadBack(r: BootRecord)
    requires r.Ok()
    ensures U32At(r.Bytes(), 454) == r.lba
  {
    hide Le4;
    var s := r.Bytes();
    assert s[454..458] == Le4(r.lba);
    Reads4(s, 454, r.lba);
  }

  lemma VolumeBootReadBack(b: VolumeBoot)
    requires b.Ok()
    ensures var s := b.Bytes();
            && U16At(s, 11) == b.bytesPerSector && s[13] == b.sectorsPerCluster && U16At(s, 14) == b.reserved
            && s[16] == b.copies && U32At(s, 36) == b.fatSize32 && U32At(s, 44) == b.root
  {
    hide Le2;
    hide Le4;
    var s := b.Bytes();
    assert s[11..13] == Le2(b.bytesPerSector) && s[14..16] == Le2(b.reserved);
    assert s[36..40] == Le4(b.fatSize32) && s[44..48] == Le4(b.root);
    Reads2(s, 11, b.bytesPerSector);
    Reads2(s, 14, b.reserved);
    Reads4(s, 36, b.fatSize32);
    Reads4(s, 44, b.root);
  }

  /** The driver reads back the geometry that the two boot sectors were written with. */
  lemma GeometryAsWritten(d: Disk, r: BootRecord, b: VolumeBoot)
    requires r.Ok() && b.Ok() && r.lba < |d| && d[0] == r.Bytes() && d[r.lba] == b.Bytes()
    ensures HasBootSectors(d)
    ensures Parse(d) == if b.bytesPerSector != 512 then None
                        else Some(Geometry(r.lba, b.reserved, b.copies, b.fatSize32, b.sectorsPerCluster, b.root))
  {
    hide r.Bytes;
    hide b.Bytes;
    BootRecordReadBack(r);
    VolumeBootReadBack(b);
  }

  // -------------------------------------------------------- directory entries

  /** A short directory entry; the name field is split into base and extension. */
  datatype DirEntry = DirEntry(base: seq<byte>, ext: seq<byte>, attr: byte, reserved: byte, tenths: byte, time: nat,
                               date: nat, accessed: nat, clusterHigh: nat, writeTime: nat, writeDate: nat,
                               clusterLow: nat, size: nat)
  {
    predicate Ok() {
      && |base| == 8 && |ext| == 3 && time < 0x1_0000 && date < 0x1_0000 && accessed < 0x1_0000
      && clusterHigh < 0x1_0000 && writeTime < 0x1_0000 && writeDate < 0x1_0000 && clusterLow < 0x1_0000
      && size < 0x1_0000_0000
    }

    function Bytes(): (s: Entry32)
      requires Ok()
    {
      base + ext + [attr, reserved, tenths] + Le2(time) + Le2(date) + Le2(accessed) + Le2(clusterHigh)
      + Le2(writeTime) + Le2(writeDate) + Le2(clusterLow) + Le4(size)
    }
  }

  /** Every field of a directory entry that the driver uses is read as it was written. */
  lemma EntryReadBack(e: DirEntry)
    requires e.Ok()
    ensures Ends(e.Bytes()) <==> e.base[0] == 0x00
    ensures Hidden(e.Bytes()) <==> e.base[0] == 0xE5 || e.attr == 0x0F
    ensures FirstCluster(e.Bytes()) == e.clusterHigh * 0x1_0000 + e.clusterLow && FileSize(e.Bytes()) == e.size
    ensures e.Bytes()[..8] == e.base && e.Bytes()[8..11] == e.ext
  {
    hide Le2;
    hide Le4;
    var s := e.Bytes();
    assert s[..8] == e.base && s[8..11] == e.ext && s[11] == e.attr;
    assert s[0] == e.base[0];
    assert s[20..22] == Le2(e.clusterHigh) && s[26..28] == Le2(e.clusterLow) && s[28..32] == Le4(e.size);
    Reads2(s, 20, e.clusterHigh);
    Reads2(s, 26, e.clusterLow);
    Reads4(s, 28, e.size);
  }

  // ------------------------------------------------------------------- names

  /** `s` filled up with blanks. */
  function Padded(s: seq<byte>, n: nat): (r: seq<byte>)
    requires |s| <= n
    ensures |r| == n
  {
    s + seq(n - |s|, _ => 0x20)
  }

  predicate NoBlank(s: seq<byte>) { 0x20 !in s }

  /** `NAME.EXT`, or the bare name if there is no extension. */
  function Dotted(base: seq<byte>, ext: seq<byte>): seq<byte> {
    if ext == [] then base else base + [0x2E] + ext
  }

  /** Equal but for the case of the letters A to Z. */
  predicate SameUpToCase(a: seq<byte>, b: seq<byte>) {
    |a| == |b| && forall i :: 0 <= i < |a| ==> SameLetter(a[i], b[i])
  }

  predicate SameLetter(a: byte, b: byte) {
    a == b || (0x41 <= a <= 0x5A && b == a + 0x20) || (0x41 <= b <= 0x5A && a == b + 0x20)
  }

  /** Names are compared up to the case of the letters A to Z, and in nothing else. */
  lemma CaseRule(a: seq<byte>, b: seq<byte>)
    ensures SameName(a, b) <==> SameUpToCase(a, b)
  {
    assert forall x: byte, y: byte :: Lower(x) == Lower(y) <==> SameLetter(x, y);
  }

  lemma {:induction false} PackedAppend(a: seq<byte>, b: seq<byte>)
    ensures Packed(a + b) == Packed(a) + Packed(b)
  {
    if b == [] {
      assert a + b == a;
    } else {
      var n := |b| - 1;
      assert (a + b)[..|a| + n] == a + b[..n];
      PackedAppend(a, b[..n]);
    }
  }

  lemma {:induction false} PackedPlain(s: seq<byte>)
    requires NoBlank(s)
    ensures Packed(s) == s
  {
    if s == [] {
    } else {
      PackedPlain(s[..|s| - 1]);
      assert s == s[..|s| - 1] + [s[|s| - 1]];
    }
  }

  lemma {:induction false} PackedBlanks(s: seq<byte>)
    requires forall i :: 0 <= i < |s| ==> s[i] == 0x20
    ensures Packed(s) == []
  {
    if s == [] {
    } else {
      PackedBlanks(s[..|s| - 1]);
    }
  }

  lemma PackedPadded(s: seq<byte>, n: nat)
    requires |s| <= n && NoBlank(s)
    ensures Packed(Padded(s, n)) == s
  {
    PackedAppend(s, seq(n - |s|, _ => 0x20));
    PackedPlain(s);
    PackedBlanks(seq(n - |s|, _ => 0x20));
  }

  /** An entry for a blank-padded base and extension shows as `NAME.EXT`, with no dot when there is no extension. */
  lemma NameShown(e: Entry32, base: seq<byte>, ext: seq<byte>)
    requires |base| <= 8 && |ext| <= 3 && NoBlank(base) && NoBlank(ext)
    requires e[..8] == Padded(base, 8) && e[8..11] == Padded(ext, 3)
    ensures DisplayName(e) == Dotted(base, ext)
  {
    PackedPadded(base, 8);
    PackedPadded(ext, 3);
    assert e[8] == e[8..11][0];
  }

  /** Such an entry is found under a name if and only if the name is `NAME.EXT` up to case. */
  lemma FoundByName(e: Entry32, base: seq<byte>, ext: seq<byte>, name: seq<byte>)
    requires |base| <= 8 && |ext| <= 3 && NoBlank(base) && NoBlank(ext)
    requires e[..8] == Padded(base, 8) && e[8..11] == Padded(ext, 3)
    ensures Matches(e, ByName(name)) <==> SameUpToCase(Dotted(base, ext), name)
  {
    NameShown(e, base, ext);
    CaseRule(Dotted(base, ext), name);
  }

  /**
   * In a directory, the first live entry written for a base and extension is what a lookup of `NAME.EXT`, in any case,
   * finds, with the cluster and size written.
   */
  lemma LookupFinds(b: seq<byte>, k: nat, e: DirEntry, base: seq<byte>, ext: seq<byte>, name: seq<byte>)
    requires |b| % 32 == 0 && Live(b, k) && e.Ok() && Entry(b, k) == e.Bytes()
    requires |base| <= 8 && |ext| <= 3 && NoBlank(base) && NoBlank(ext)
    requires e.base == Padded(base, 8) && e.ext == Padded(ext, 3) && SameUpToCase(Dotted(base, ext), name)
    requires forall j :: 0 <= j < k && Live(b, j) ==> !SameUpToCase(DisplayName(Entry(b, j)), name)
    ensures FirstMatch(b, 0, ByName(name)) == Some(k)
    ensures FirstCluster(Entry(b, k)) == e.clusterHigh * 0x1_0000 + e.clusterLow && FileSize(Entry(b, k)) == e.size
  {
    hide e.Bytes;
    hide DisplayName;
    hide FirstCluster;
    hide FileSize;
    EntryReadBack(e);
    FoundByName(Entry(b, k), base, ext, name);
    forall j | 0 <= j < k && Live(b, j) ensures !Matches(Entry(b, j), ByName(name)) {
      CaseRule(DisplayName(Entry(b, j)), name);
    }
    FirstMatchMeans(b, ByName(name), k);
  }

  // ---------------------------------------------------------- table entries

  /** A store replaces the low 28 bits of an entry and keeps the top 4. */
  lemma StoreReplaces(top: nat, link: nat, value: nat)
    requires link < 0x1000_0000 && value < 0x1000_0000
    ensures Stored(top * 0x1000_0000 + link, value) == top * 0x1000_0000 + value
  {
  }

  /** A chain goes on from a stored entry unless its 28 bits are zero or one of the markers 0x0FFFFFF8 to 0x0FFFFFFF. */
  lemma EndMarkers(fat: seq<nat>, c: nat, top: nat, link: nat)
    requires c < |fat| && fat[c] == top * 0x1000_0000 + link && link < 0x1000_0000
    ensures Next(fat, c) == if link == 0 || 0x0FFF_FFF8 <= link <= 0x0FFF_FFFF then None else Some(link)
    ensures 2 <= c ==> (IsFree(fat, c) <==> link == 0)
  {
    assert Low28(fat[c]) == link;
  }
}
