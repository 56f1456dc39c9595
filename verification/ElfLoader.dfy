// The ELF loader: reads headers and segments through the file calls into freshly allocated frames.
module ElfLoader {
  import opened Bytes
  import opened FileModel
  import opened Volume
  import opened Directory
  import opened FileState
  import opened FileWrite
  import opened FileSystem
  import opened Ram
  import Frames

  const HEADER: nat := 64
  const PHDR: nat := 56
  const PT_LOAD: nat := 1
  const TWO64: nat := 0x1_0000_0000_0000_0000
  const MAX64: nat := 0xFFFF_FFFF_FFFF_FFFF

  function U64At(s: seq<byte>, i: nat): (v: nat)
    requires i + 8 <= |s|
    ensures v < TWO64
  {
    U32At(s, i) + 0x1_0000_0000 * U32At(s, i + 4)
  }

  datatype Phdr = Phdr(ty: nat, offset: nat, vaddr: nat, filesz: nat, memsz: nat)

  function PhdrOf(e: seq<byte>): (p: Phdr)
    requires |e| == PHDR
    ensures p.vaddr < TWO64 && p.offset < TWO64 && p.filesz < TWO64 && p.memsz < TWO64
  {
    Phdr(U32At(e, 0), U64At(e, 8), U64At(e, 16), U64At(e, 32), U64At(e, 40))
  }

  function PhdrAt(s: seq<byte>, at: nat): (p: Phdr)
    requires at + PHDR <= |s|
    ensures p.vaddr < TWO64 && p.offset < TWO64 && p.filesz < TWO64 && p.memsz < TWO64
  {
    PhdrOf(s[at..at + PHDR])
  }

  /** The magic number and a type the loader accepts: executable or shared object. */
  predicate HeaderOk(f: seq<byte>) {
    && |f| >= HEADER
    && f[0] == 0x7F && f[1] == 0x45 && f[2] == 0x4C && f[3] == 0x46
    && (U16At(f, 16) == 2 || U16At(f, 16) == 3)
  }

  function Entry(f: seq<byte>): nat requires |f| >= HEADER { U64At(f, 24) }
  function PhOff(f: seq<byte>): nat requires |f| >= HEADER { U64At(f, 32) }
  function PhSize(f: seq<byte>): nat requires |f| >= HEADER { U16At(f, 54) }
  function PhCount(f: seq<byte>): nat requires |f| >= HEADER { U16At(f, 56) }

  /** Bytes of the program header table. */
  function TableSize(f: seq<byte>): nat requires |f| >= HEADER { PhCount(f) * PhSize(f) }

  /** The program headers of a table of `n` entries of `size` bytes. */
  function Table(s: seq<byte>, at: nat, size: nat, n: nat): (t: seq<Phdr>)
    requires size >= PHDR && at + n * size <= |s|
    ensures |t| == n
    ensures forall i :: 0 <= i < n ==> at + i * size + PHDR <= |s| && t[i] == PhdrAt(s, at + i * size)
  {
    hide PhdrOf;
    EntriesInside(size, n);
    seq(n, i requires 0 <= i < n => PhdrAt(s, at + i * size))
  }

  lemma EntriesInside(size: nat, n: nat)
    ensures forall i: nat :: i < n ==> i * size + size <= n * size
  {
    forall i: nat | i < n ensures i * size + size <= n * size { MulStep(i, n, size); }
  }

  function Low(t: seq<Phdr>): (v: nat)
    ensures forall i :: 0 <= i < |t| && t[i].ty == PT_LOAD ==> v <= t[i].vaddr
  {
    if t == [] then MAX64
    else
      var p, v := t[|t| - 1], Low(t[..|t| - 1]);
      if p.ty == PT_LOAD && p.vaddr < v then p.vaddr else v
  }

  /** End addresses are summed in 64 bits. */
  function High(t: seq<Phdr>): (v: nat)
    ensures forall i :: 0 <= i < |t| && t[i].ty == PT_LOAD ==> (t[i].vaddr + t[i].memsz) % TWO64 <= v
  {
    if t == [] then 0
    else
      var p, v := t[|t| - 1], High(t[..|t| - 1]);
      if p.ty == PT_LOAD && (p.vaddr + p.memsz) % TWO64 > v then (p.vaddr + p.memsz) % TWO64 else v
  }

  predicate SegmentOk(p: Phdr) {
    p.ty == PT_LOAD ==> p.filesz <= p.memsz && p.vaddr + p.memsz < TWO64 && p.vaddr < MAX64
  }

  /** No address belongs to both segments. */
  predicate Apart(p: Phdr, q: Phdr) {
    p.ty == PT_LOAD && q.ty == PT_LOAD ==> p.vaddr + p.memsz <= q.vaddr || q.vaddr + q.memsz <= p.vaddr
  }

  /** What the loader trusts an accepted file for: it checks none of this. */
  ghost predicate Trustworthy(f: seq<byte>)
    requires |f| >= HEADER
  {
    && PhSize(f) >= PHDR && PhOff(f) + TableSize(f) <= |f|
    && SegmentsOk(Segments(f))
  }

  /** The program headers the file header points at. */
  function Segments(c: seq<byte>): seq<Phdr>
    requires |c| >= HEADER && PhSize(c) >= PHDR && PhOff(c) + TableSize(c) <= |c|
  {
    Table(c, PhOff(c), PhSize(c), PhCount(c))
  }

  ghost predicate SegmentsOk(t: seq<Phdr>) {
    (forall i :: 0 <= i < |t| ==> SegmentOk(t[i])) && High(t) + 4095 < TWO64
  }

  lemma {:induction false} LowHigh(t: seq<Phdr>, i: nat)
    requires i < |t| && t[i].ty == PT_LOAD && SegmentOk(t[i])
    ensures Low(t) <= t[i].vaddr && t[i].vaddr + t[i].memsz <= High(t) && Low(t) < MAX64
  {
    assert (t[i].vaddr + t[i].memsz) % TWO64 == t[i].vaddr + t[i].memsz;
  }

  /** Unless nothing is loadable, the lowest address is that of some loadable segment. */
  lemma {:induction false} LowAttained(t: seq<Phdr>)
    requires Low(t) != MAX64
    ensures exists i :: 0 <= i < |t| && t[i].ty == PT_LOAD && t[i].vaddr == Low(t)
  {
    var n := |t| - 1;
    if t[n].ty == PT_LOAD && t[n].vaddr == Low(t) {
    } else {
      LowAttained(t[..n]);
      var i :| 0 <= i < n && t[..n][i].ty == PT_LOAD && t[..n][i].vaddr == Low(t[..n]);
      assert t[i].ty == PT_LOAD && t[i].vaddr == Low(t);
    }
  }

  /** Unless it is zero, the highest end is that of some loadable segment. */
  lemma {:induction false} HighAttained(t: seq<Phdr>)
    requires High(t) != 0
    ensures exists i :: 0 <= i < |t| && t[i].ty == PT_LOAD && (t[i].vaddr + t[i].memsz) % TWO64 == High(t)
  {
    var n := |t| - 1;
    if t[n].ty == PT_LOAD && (t[n].vaddr + t[n].memsz) % TWO64 == High(t) {
    } else {
      HighAttained(t[..n]);
      var i :| 0 <= i < n && t[..n][i].ty == PT_LOAD && (t[..n][i].vaddr + t[..n][i].memsz) % TWO64 == High(t[..n]);
      assert t[i].ty == PT_LOAD && (t[i].vaddr + t[i].memsz) % TWO64 == High(t);
    }
  }

  // ---------------------------------------------------------------- the image

  /** The part of `c` a read of `len` bytes at `pos` delivers. */
  function Part(c: seq<byte>, pos: nat, len: nat): (p: seq<byte>)
    ensures |p| <= len && (pos + len <= |c| ==> p == c[pos..pos + len])
  {
    if pos >= |c| then [] else c[pos..Min(pos + len, |c|)]
  }

  /** Segment `p` delivers byte `x` of the image; its bytes are cut off at the end of the file. */
  predicate Covers(p: Phdr, f: seq<byte>, low: nat, x: nat) {
    p.ty == PT_LOAD && p.vaddr <= low + x < p.vaddr + |Part(f, p.offset, p.filesz)|
  }

  /** Byte `x` of the image after the first `n` segments: the last of them that delivers it decides, else it is zero. */
  function ImageByte(f: seq<byte>, t: seq<Phdr>, low: nat, n: nat, x: nat): byte
    requires n <= |t|
  {
    if n == 0 then 0
    else
      var p := t[n - 1];
      if Covers(p, f, low, x) then Part(f, p.offset, p.filesz)[low + x - p.vaddr]
      else ImageByte(f, t, low, n - 1, x)
  }

  ghost predicate Placed(image: seq<byte>, f: seq<byte>, t: seq<Phdr>, low: nat, n: nat)
    requires n <= |t|
  {
    forall x: nat :: x < |image| ==> image[x] == ImageByte(f, t, low, n, x)
  }

  lemma {:induction false} LastDecides(f: seq<byte>, t: seq<Phdr>, low: nat, n: nat, i: nat, x: nat)
    requires i < n <= |t| && Covers(t[i], f, low, x) && forall j :: i < j < n ==> !Covers(t[j], f, low, x)
    ensures ImageByte(f, t, low, n, x) == Part(f, t[i].offset, t[i].filesz)[low + x - t[i].vaddr]
  {
    if i == n - 1 {
    } else {
      LastDecides(f, t, low, n - 1, i, x);
    }
  }

  lemma {:induction false} ElseZero(f: seq<byte>, t: seq<Phdr>, low: nat, n: nat, x: nat)
    requires n <= |t| && forall j :: 0 <= j < n ==> !Covers(t[j], f, low, x)
    ensures ImageByte(f, t, low, n, x) == 0
  {
    if n == 0 {
    } else {
      ElseZero(f, t, low, n - 1, x);
    }
  }

  /** Byte `x` lies in the part of segment `p` that the file fills. */
  predicate FromFile(p: Phdr, low: nat, x: nat) {
    p.ty == PT_LOAD && p.vaddr <= low + x < p.vaddr + p.filesz
  }

  /**
   * The image of segments that lie in the file and share no address: every file byte of every segment is at its
   * distance from the lowest address, and all other bytes are zero.
   */
  lemma ImageOfDisjoint(image: seq<byte>, f: seq<byte>, t: seq<Phdr>, low: nat, x: nat)
    requires Placed(image, f, t, low, |t|) && SegmentsOk(t) && x < |image|
    requires forall i, j :: 0 <= i < j < |t| ==> Apart(t[i], t[j])
    requires forall i :: 0 <= i < |t| && t[i].ty == PT_LOAD ==> t[i].offset + t[i].filesz <= |f|
    ensures forall i :: 0 <= i < |t| && FromFile(t[i], low, x) ==> image[x] == f[t[i].offset + (low + x - t[i].vaddr)]
    ensures (forall i :: 0 <= i < |t| ==> !FromFile(t[i], low, x)) ==> image[x] == 0
  {
    forall i | 0 <= i < |t| && FromFile(t[i], low, x)
      ensures image[x] == f[t[i].offset + (low + x - t[i].vaddr)]
    {
      assert SegmentOk(t[i]);
      forall j | i < j < |t| ensures !Covers(t[j], f, low, x) { assert Apart(t[i], t[j]) && SegmentOk(t[j]); }
      LastDecides(f, t, low, |t|, i, x);
    }
    if forall i :: 0 <= i < |t| ==> !FromFile(t[i], low, x) {
      forall i | 0 <= i < |t| ensures !Covers(t[i], f, low, x) { assert !FromFile(t[i], low, x); }
      ElseZero(f, t, low, |t|, x);
    }
  }

  lemma PlacedNone(image: seq<byte>, f: seq<byte>, t: seq<Phdr>, low: nat)
    requires forall x :: 0 <= x < |image| ==> image[x] == 0
    ensures Placed(image, f, t, low, 0)
  {
  }

  /** Copying one more segment's file bytes places it over those placed before. */
  lemma PlacedNext(image: seq<byte>, image2: seq<byte>, f: seq<byte>, t: seq<Phdr>, low: nat, n: nat, at: nat)
    requires n < |t| && Placed(image, f, t, low, n)
    requires t[n].ty == PT_LOAD && low + at == t[n].vaddr && at + t[n].filesz <= |image|
    requires image2 == Splice(image, at, Part(f, t[n].offset, t[n].filesz))
    ensures Placed(image2, f, t, low, n + 1)
  {
  }

  lemma PlacedSkip(image: seq<byte>, f: seq<byte>, t: seq<Phdr>, low: nat, n: nat)
    requires n < |t| && Placed(image, f, t, low, n)
    requires t[n].ty != PT_LOAD || t[n].filesz == 0
    ensures Placed(image, f, t, low, n + 1)
  {
  }

  // ------------------------------------------------------- reading the file

  /** The bytes a descriptor can read. */
  ghost function Content(d: Disk, g: Geometry, ch: Chains, f: FileDescriptor): (c: seq<byte>)
    requires VolumeOk(d, g, ch) && Backed(f.cluster, f.fileSize, ch, g)
    ensures |c| == f.fileSize
  {
    if f.fileSize == 0 then [] else ChainBytes(d, g, ch[f.cluster])[..f.fileSize]
  }

  lemma OutcomePart(d: Disk, g: Geometry, ch: Chains, f: FileDescriptor, mem0: seq<byte>, ptr: nat, len: nat,
                    mem: seq<byte>, r: int)
    requires VolumeOk(d, g, ch) && Backed(f.cluster, f.fileSize, ch, g)
    requires ReadOutcome(d, ch, g, f, mem0, ptr, len, mem, r)
    ensures var p := Part(Content(d, g, ch, f), f.position, len); r == |p| && mem == Splice(mem0, ptr, p)
  {
    hide VolumeOk;
    var c := Content(d, g, ch, f);
    if r == 0 {
      assert Part(c, f.position, len) == [];
    } else {
      var b := ChainBytes(d, g, ch[f.cluster]);
      assert c[f.position..f.position + r] == b[f.position..f.position + r];
    }
  }

  /** Descriptor `fd` is open on a plain file with content `c`. */
  ghost predicate Reads(fs: FileSystem, fd: nat, c: seq<byte>)
    reads fs, fs.fds
  {
    && fs.Valid() && fd < 256 && fs.fds[fd].Some? && !fs.fds[fd].value.isDir
    && Backed(fs.fds[fd].value.cluster, fs.fds[fd].value.fileSize, fs.chains, fs.geo)
    && Content(fs.disk, fs.geo, fs.chains, fs.fds[fd].value) == c
  }

  /** Seek, then read `len` bytes to `ptr`. */
  method ReadAt(fs: FileSystem, fd: nat, pos: nat, ptr: nat, len: nat, ghost c: seq<byte>) returns (r: int)
    requires Reads(fs, fd, c) && ptr != 0 && ptr + len <= fs.mem.Length
    modifies fs.buf, fs.fds, fs.mem
    ensures Reads(fs, fd, c) && fs.fds[..] == old(fs.fds[..])[fd := fs.fds[fd]]
    ensures fs.mem[..] == Splice(old(fs.mem[..]), ptr, Part(c, pos, len))
    ensures r == if len == 0 then -1 else |Part(c, pos, len)|
  {
    hide VolumeOk;
    hide FdsOk;
    hide ReadOutcome;
    hide ChainBytes;
    var at := fs.Seek(fd, pos);
    ghost var f := fs.fds[fd].value;
    ghost var mem0 := fs.mem[..];
    r := fs.ReadFile(fd, ptr, len);
    if len > 0 { OutcomePart(fs.disk, fs.geo, fs.chains, f, mem0, ptr, len, fs.mem[..], r); }
  }

  // ---------------------------------------------------------------- memory

  /** Every sector of the range is in use, so the allocator will not hand it out. */
  ghost predicate InUse(b: seq<bool>, total: nat, lo: nat, len: nat) {
    forall s :: lo / PAGE_SIZE <= s <= (lo + len) / PAGE_SIZE && s * PAGE_SIZE < lo + len ==> Used(b, total, s)
  }

  ghost predicate RangesApart(a: nat, alen: nat, b: nat, blen: nat) { a + alen <= b || b + blen <= a }

  /** What a successful map call gives: whole free sectors, in use from then on, apart from everything in use before. */
  lemma MapGives(b: seq<bool>, total: nat, n: nat, c: seq<bool>, addr: nat)
    requires total <= |b| && (c, addr) == Frames.After(b, total, Frames.Mmap(n)) && addr != NO_ADDRESS
    ensures n > 0 && |c| == |b| && addr + n * PAGE_SIZE <= total * PAGE_SIZE
    ensures InUse(c, total, addr, n * PAGE_SIZE)
    ensures forall lo, len :: InUse(b, total, lo, len) ==> InUse(c, total, lo, len)
    ensures forall lo, len :: InUse(b, total, lo, len) && len > 0 ==> RangesApart(lo, len, addr, n * PAGE_SIZE)
  {
    var k := addr / PAGE_SIZE;
    assert addr == k * PAGE_SIZE && FreeRun(b, total, k, n) && c == Fill(b, k, n, true);
    RunInside(b, total, k, n);
    forall lo, len | InUse(b, total, lo, len) ensures InUse(c, total, lo, len) {
      forall s: nat | Used(b, total, s) ensures Used(c, total, s) {}
    }
    forall lo, len | InUse(b, total, lo, len) && len > 0 ensures RangesApart(lo, len, addr, n * PAGE_SIZE) {
      SectorShared(b, total, k, n, lo, len);
    }
  }

  lemma SectorShared(b: seq<bool>, total: nat, k: nat, n: nat, lo: nat, len: nat)
    requires FreeRun(b, total, k, n) && InUse(b, total, lo, len) && len > 0 && n > 0
    ensures RangesApart(lo, len, k * PAGE_SIZE, n * PAGE_SIZE)
  {
    var first := lo / PAGE_SIZE;
    assert Used(b, total, first);
    assert first < k && k * PAGE_SIZE < lo + len ==> Used(b, total, k);
  }

  // ----------------------------------------------------------------- loader

  datatype LoadResult = NotLoaded | Fault | Loaded(entry: nat, base: nat, size: nat)

  /** The table of program headers lies in memory at `at`. */
  ghost predicate TableAt(mem: seq<byte>, at: nat, size: nat, t: seq<Phdr>) {
    && size >= PHDR && at + |t| * size <= |mem|
    && Table(mem, at, size, |t|) == t
  }

  lemma TableEntry(mem: seq<byte>, at: nat, size: nat, t: seq<Phdr>, i: nat)
    requires TableAt(mem, at, size, t) && i < |t|
    ensures at + i * size + PHDR <= |mem| && PhdrAt(mem, at + i * size) == t[i]
  {
    MulStep(i, |t|, size);
  }

  /** A table copied elsewhere is the same table. */
  lemma TableCopied(s: seq<byte>, a: nat, r: seq<byte>, b: nat, size: nat, n: nat)
    requires size >= PHDR && a + n * size <= |s| && b + n * size <= |r| && s[a..a + n * size] == r[b..b + n * size]
    ensures Table(s, a, size, n) == Table(r, b, size, n)
  {
    hide PhdrOf;
    hide Table;
    forall i | 0 <= i < n ensures Table(s, a, size, n)[i] == Table(r, b, size, n)[i] {
      MulStep(i, n, size);
      SliceOfSlice(s, a, a + n * size, i * size, i * size + PHDR);
      SliceOfSlice(r, b, b + n * size, i * size, i * size + PHDR);
      assert s[a + i * size..a + i * size + PHDR] == r[b + i * size..b + i * size + PHDR];
    }
  }

  /** First pass over the program headers: lowest address and highest end of the loadable segments. */
  method Bounds(fs: FileSystem, at: nat, size: nat, count: nat, ghost t: seq<Phdr>) returns (low: nat, high: nat)
    requires |t| == count && TableAt(fs.mem[..], at, size, t)
    ensures low == Low(t) && high == High(t)
  {
    hide PhdrOf;
    hide TableAt;
    low, high := MAX64, 0;
    for i := 0 to count
      invariant low == Low(t[..i]) && high == High(t[..i])
    {
      TableEntry(fs.mem[..], at, size, t, i);
      var p := PhdrAt(fs.mem[..], at + i * size);
      assert t[..i + 1][..i] == t[..i];
      if p.ty == PT_LOAD {
        if p.vaddr < low { low := p.vaddr; }
        var end := (p.vaddr + p.memsz) % TWO64;
        if end > high { high := end; }
      }
    }
    assert t[..count] == t;
  }

  /** Memory before the second pass: the table at `at`, a zeroed image of `len` bytes at `base`, apart. */
  ghost predicate Prepared(mem: seq<byte>, at: nat, size: nat, f: seq<byte>, t: seq<Phdr>, base: nat, low: nat,
                           len: nat) {
    && TableAt(mem, at, size, t) && SegmentsOk(t)
    && low == Low(t) && low + len == High(t) && base != 0 && base + len <= |mem| && base + len < TWO64
    && RangesApart(at, |t| * size, base, len)
    && (forall x :: base <= x < base + len ==> mem[x] == 0)
  }

  /** Memory `m` is `m0` with `image` at `base`, and the first `i` segments are in the image. */
  ghost predicate Loading(m0: seq<byte>, m: seq<byte>, at: nat, size: nat, f: seq<byte>, t: seq<Phdr>, base: nat,
                          low: nat, len: nat, image: seq<byte>, i: nat) {
    && Prepared(m0, at, size, f, t, base, low, len) && |image| == len && i <= |t|
    && m == Splice(m0, base, image) && Placed(image, f, t, low, i)
  }

  lemma LoadingStarts(m: seq<byte>, at: nat, size: nat, f: seq<byte>, t: seq<Phdr>, base: nat, low: nat, len: nat)
    requires Prepared(m, at, size, f, t, base, low, len)
    ensures base + len <= |m| && Loading(m, m, at, size, f, t, base, low, len, m[base..base + len], 0)
  {
    PlacedNone(m[base..base + len], f, t, low);
  }

  /** The wrapping sum of an address and the load offset is its place in the image. */
  lemma Relocated(vaddr: nat, base: nat, low: nat, n: nat)
    requires low <= vaddr && base + (vaddr - low) + n < TWO64
    ensures (vaddr + base - low) % TWO64 == base + vaddr - low
  {
  }

  /** What the loop reads at its `i`-th round, and where it goes. */
  lemma LoadingReads(m0: seq<byte>, m: seq<byte>, at: nat, size: nat, f: seq<byte>, t: seq<Phdr>, base: nat, low: nat,
                     len: nat, image: seq<byte>, i: nat, p: Phdr, pos: nat)
    requires i < |t| && p == t[i] && pos == at + i * size && Loading(m0, m, at, size, f, t, base, low, len, image, i)
    ensures pos + PHDR <= |m| && PhdrAt(m, pos) == p
    ensures p.ty == PT_LOAD ==>
              && (p.vaddr + base - low) % TWO64 == base + p.vaddr - low
              && low <= p.vaddr && base + (p.vaddr - low) + p.filesz <= |m| && base != 0
  {
    hide Placed;
    hide PhdrOf;
    hide SegmentsOk;
    hide Table;
    hide Low;
    hide High;
    TableKept(m0, m, at, size, t, base, image);
    TableEntry(m, at, size, t, i);
    if t[i].ty == PT_LOAD {
      SegmentInImage(t, i);
      Relocated(p.vaddr, base, low, p.filesz);
    }
  }

  lemma LoadingNext(m0: seq<byte>, m: seq<byte>, m2: seq<byte>, at: nat, size: nat, f: seq<byte>, t: seq<Phdr>,
                    base: nat, low: nat, len: nat, image: seq<byte>, i: nat) returns (next: seq<byte>)
    requires Loading(m0, m, at, size, f, t, base, low, len, image, i) && i < |t| && t[i].ty == PT_LOAD
    requires var p := t[i];
             && low <= p.vaddr && base + (p.vaddr - low) + p.filesz <= |m|
             && m2 == Splice(m, base + (p.vaddr - low), Part(f, p.offset, p.filesz))
    ensures Loading(m0, m2, at, size, f, t, base, low, len, next, i + 1)
  {
    hide Placed;
    hide Table;
    hide TableAt;
    hide Part;
    var p := t[i];
    SegmentInImage(t, i);
    var data := Part(f, p.offset, p.filesz);
    next := Splice(image, p.vaddr - low, data);
    PlacedNext(image, next, f, t, low, i, p.vaddr - low);
    SpliceInside(m0, base, image, p.vaddr - low, data);
  }

  lemma LoadingSkips(m0: seq<byte>, m: seq<byte>, at: nat, size: nat, f: seq<byte>, t: seq<Phdr>, base: nat, low: nat,
                     len: nat, image: seq<byte>, i: nat)
    requires Loading(m0, m, at, size, f, t, base, low, len, image, i) && i < |t|
    requires (t[i].ty != PT_LOAD || t[i].filesz == 0)
    ensures Loading(m0, m, at, size, f, t, base, low, len, image, i + 1)
  {
    hide Prepared;
    hide Placed;
    PlacedSkip(image, f, t, low, i);
  }

  /** Second pass: reads every loadable segment's file bytes to its place in the zeroed image. */
  method LoadSegments(fs: FileSystem, fd: nat, at: nat, size: nat, count: nat, base: nat, low: nat,
                      ghost f: seq<byte>, ghost t: seq<Phdr>, ghost len: nat)
    returns (ghost image: seq<byte>)
    requires fd < fs.fds.Length && Reads(fs, fd, f) && |t| == count
    requires Prepared(fs.mem[..], at, size, f, t, base, low, len)
    modifies fs.buf, fs.fds, fs.mem
    ensures Reads(fs, fd, f) && fs.fds[..] == old(fs.fds[..])[fd := fs.fds[fd]]
    ensures Loading(old(fs.mem[..]), fs.mem[..], at, size, f, t, base, low, len, image, count)
  {
    hide Prepared;
    hide Loading;
    hide Reads;
    hide PhdrOf;
    hide Part;
    hide Table;
    hide Low;
    hide High;
    hide SegmentsOk;
    assert fs.fds[..][fd := fs.fds[fd]] == fs.fds[..];
    ghost var m0, m := fs.mem[..], fs.mem[..];
    LoadingStarts(m0, at, size, f, t, base, low, len);
    image := m0[base..base + len];
    for i := 0 to count
      invariant Reads(fs, fd, f) && fs.fds[..] == old(fs.fds[..])[fd := fs.fds[fd]]
      invariant fs.mem[..] == m && Loading(m0, m, at, size, f, t, base, low, len, image, i)
    {
      LoadingReads(m0, m, at, size, f, t, base, low, len, image, i, t[i], at + i * size);
      var p := PhdrAt(fs.mem[..], at + i * size);
      if p.ty == PT_LOAD && p.filesz > 0 {
        var dest := (p.vaddr + base - low) % TWO64;
        var n := ReadAt(fs, fd, p.offset, dest, p.filesz, f);
        image := LoadingNext(m0, m, fs.mem[..], at, size, f, t, base, low, len, image, i);
        m := fs.mem[..];
      } else {
        LoadingSkips(m0, m, at, size, f, t, base, low, len, image, i);
      }
    }
  }

  lemma SpliceInside<T>(s: seq<T>, base: nat, image: seq<T>, off: nat, data: seq<T>)
    requires base + |image| <= |s| && off + |data| <= |image|
    ensures Splice(Splice(s, base, image), base + off, data) == Splice(s, base, Splice(image, off, data))
  {
  }

  lemma TableKept(m0: seq<byte>, m: seq<byte>, at: nat, size: nat, t: seq<Phdr>, base: nat, image: seq<byte>)
    requires TableAt(m0, at, size, t) && base + |image| <= |m0| && m == Splice(m0, base, image)
    requires RangesApart(at, |t| * size, base, |image|)
    ensures TableAt(m, at, size, t)
  {
    assert m[at..at + |t| * size] == m0[at..at + |t| * size];
    TableCopied(m0, at, m, at, size, |t|);
  }

  lemma SegmentInImage(t: seq<Phdr>, i: nat)
    requires SegmentsOk(t) && i < |t| && t[i].ty == PT_LOAD
    ensures Low(t) <= t[i].vaddr && t[i].vaddr + t[i].memsz <= High(t) && t[i].filesz <= t[i].memsz
  {
    assert SegmentOk(t[i]);
    LowHigh(t, i);
  }

  /** Reads the file header to `ptr` and checks it. */
  method ReadHeader(fs: FileSystem, fd: nat, ptr: nat, ghost c: seq<byte>) returns (ok: bool)
    requires fd < fs.fds.Length && Reads(fs, fd, c) && ptr != 0 && ptr + HEADER <= fs.mem.Length
    modifies fs.buf, fs.fds, fs.mem
    ensures Reads(fs, fd, c) && fs.fds[..] == old(fs.fds[..])[fd := fs.fds[fd]]
    ensures fs.mem[..] == Splice(old(fs.mem[..]), ptr, Part(c, 0, HEADER))
    ensures ok == HeaderOk(c)
    ensures ok ==> fs.mem[ptr..ptr + HEADER] == c[..HEADER]
  {
    hide Reads;
    var n := ReadAt(fs, fd, 0, ptr, HEADER, c);
    if n != HEADER { return false; }
    var h := fs.mem[ptr..ptr + HEADER];
    assert h == c[..HEADER];
    HeaderFields(c);
    ok := HeaderOk(h);
  }

  /** The header's fields depend on its 64 bytes only. */
  lemma HeaderFields(c: seq<byte>)
    requires |c| >= HEADER
    ensures HeaderOk(c[..HEADER]) == HeaderOk(c)
    ensures Entry(c[..HEADER]) == Entry(c) && PhOff(c[..HEADER]) == PhOff(c)
    ensures PhSize(c[..HEADER]) == PhSize(c) && PhCount(c[..HEADER]) == PhCount(c)
    ensures TableSize(c[..HEADER]) == TableSize(c)
  {
  }

  function Pages(bytes: nat): nat { (bytes + 4095) / PAGE_SIZE }

  /** Bytes from the lowest address to the highest end. */
  function Extent(t: seq<Phdr>): nat { if Low(t) <= High(t) then High(t) - Low(t) else 0 }

  /** Where the allocator puts `n1` pages and then `n2`; None if a request for some fails. */
  ghost function Plan(b: seq<bool>, total: nat, n1: nat, n2: nat): Option<(nat, nat, seq<bool>)> {
    var (b1, a1) := Frames.After(b, total, Frames.Mmap(n1));
    var (b2, a2) := Frames.After(b1, total, Frames.Mmap(n2));
    if (a1 == NO_ADDRESS && n1 > 0) || (a2 == NO_ADDRESS && n2 > 0) then None else Some((a1, a2, b2))
  }

  /** The caller's part: memory covers every sector, and neither address zero nor the header buffer can be allocated. */
  ghost predicate MemoryOk(b: seq<bool>, total: nat, memLen: nat, hdrPtr: nat) {
    && total <= |b| && total * PAGE_SIZE <= memLen && memLen < TWO64
    && hdrPtr != 0 && hdrPtr + HEADER <= memLen
    && InUse(b, total, 0, 1) && InUse(b, total, hdrPtr, HEADER)
  }

  lemma PlaceNonzero(b: seq<bool>, total: nat, n: nat, addr: nat)
    requires InUse(b, total, 0, 1) && RangesApart(0, 1, addr, n * PAGE_SIZE) && n > 0
    ensures addr != 0
  {
  }

  /** As many pages as the bytes need, and not one more. */
  lemma PagesCover(bytes: nat)
    ensures bytes <= Pages(bytes) * PAGE_SIZE < bytes + PAGE_SIZE && (bytes > 0 ==> Pages(bytes) > 0)
  {
  }

  /** Memory in use before stays as it was, except the header buffer. */
  ghost predicate OldMemoryKept(b: seq<bool>, total: nat, m0: seq<byte>, m: seq<byte>, hdrPtr: nat) {
    && |m| == |m0|
    && forall lo: nat, len: nat ::
         InUse(b, total, lo, len) && 0 < len && lo + len <= |m0| && RangesApart(lo, len, hdrPtr, HEADER) ==>
           m[lo..lo + len] == m0[lo..lo + len]
  }

  /** A loaded program: the image in fresh pages, the entry at its distance from the lowest address. */
  ghost predicate ImageLoaded(mem: seq<byte>, c: seq<byte>, base: nat, size: nat, entry: nat)
    requires |c| >= HEADER && Trustworthy(c)
  {
    var t := Segments(c);
    && Low(t) <= High(t) && size == Extent(t)
    && entry == (Entry(c) + base - Low(t)) % TWO64
    && (size > 0 ==> base + size <= |mem| && Placed(mem[base..base + size], c, t, Low(t), |t|))
  }

  lemma SegmentsExtent(c: seq<byte>)
    requires |c| >= HEADER && Trustworthy(c)
    ensures SegmentsOk(Segments(c))
    ensures Low(Segments(c)) != MAX64 ==> Low(Segments(c)) <= High(Segments(c))
  {
    var t := Segments(c);
    if Low(t) != MAX64 {
      LowAttained(t);
      var i :| 0 <= i < |t| && t[i].ty == PT_LOAD;
      SegmentInImage(t, i);
    }
  }

  /** Every range in use, but possibly the header buffer, stays clear of `lo`..`lo + len`. */
  ghost predicate Untouchable(b: seq<bool>, total: nat, hdrPtr: nat, at: nat, size: nat) {
    forall lo: nat, len: nat :: InUse(b, total, lo, len) && len > 0 && RangesApart(lo, len, hdrPtr, HEADER) ==>
      RangesApart(lo, len, at, size)
  }

  lemma HeaderUntouchable(b: seq<bool>, total: nat, hdrPtr: nat)
    ensures Untouchable(b, total, hdrPtr, hdrPtr, HEADER)
  {
  }

  lemma KeptAtStart(b: seq<bool>, total: nat, m: seq<byte>, hdrPtr: nat)
    ensures OldMemoryKept(b, total, m, m, hdrPtr)
  {
  }

  lemma KeptStep(b: seq<bool>, total: nat, m0: seq<byte>, m: seq<byte>, m2: seq<byte>, hdrPtr: nat, at: nat,
                 data: seq<byte>, size: nat)
    requires OldMemoryKept(b, total, m0, m, hdrPtr) && Untouchable(b, total, hdrPtr, at, size) && |data| <= size
    requires at + |data| <= |m| && m2 == Splice(m, at, data)
    ensures OldMemoryKept(b, total, m0, m2, hdrPtr)
  {
    hide InUse;
    forall lo: nat, len: nat | InUse(b, total, lo, len) && 0 < len && lo + len <= |m0|
      && RangesApart(lo, len, hdrPtr, HEADER)
      ensures m2[lo..lo + len] == m0[lo..lo + len]
    {
      assert RangesApart(lo, len, at, size);
      assert m2[lo..lo + len] == m[lo..lo + len];
    }
  }

  lemma SliceApart(m: seq<byte>, m2: seq<byte>, lo: nat, len: nat, at: nat, data: seq<byte>)
    requires at + |data| <= |m| && m2 == Splice(m, at, data) && RangesApart(lo, len, at, |data|) && lo + len <= |m|
    ensures m2[lo..lo + len] == m[lo..lo + len]
  {
  }

  /** The facts about one successful map call that the loader uses. */
  lemma Mapped(b0: seq<bool>, total: nat, b: seq<bool>, n: nat, c: seq<bool>, addr: nat, memLen: nat, hdrPtr: nat)
    requires MemoryOk(b, total, memLen, hdrPtr) && (c, addr) == Frames.After(b, total, Frames.Mmap(n))
    requires addr != NO_ADDRESS
    requires forall lo: nat, len: nat :: InUse(b0, total, lo, len) ==> InUse(b, total, lo, len)
    ensures addr != 0 && n > 0 && addr + n * PAGE_SIZE <= memLen
    ensures MemoryOk(c, total, memLen, hdrPtr) && InUse(c, total, addr, n * PAGE_SIZE)
    ensures forall lo: nat, len: nat :: InUse(b, total, lo, len) ==> InUse(c, total, lo, len)
    ensures forall lo: nat, len: nat :: InUse(b, total, lo, len) && len > 0 ==>
              RangesApart(lo, len, addr, n * PAGE_SIZE)
    ensures RangesApart(hdrPtr, HEADER, addr, n * PAGE_SIZE)
    ensures Untouchable(b0, total, hdrPtr, addr, n * PAGE_SIZE)
  {
    hide InUse;
    hide Frames.After;
    MapGives(b, total, n, c, addr);
    PlaceNonzero(b, total, n, addr);
  }

  lemma Unmapped(b: seq<bool>, total: nat, n: nat)
    requires n == 0
    ensures Frames.After(b, total, Frames.Mmap(n)) == (b, NO_ADDRESS)
  {
  }

  lemma InUsePart(b: seq<bool>, total: nat, lo: nat, len: nat, part: nat)
    requires InUse(b, total, lo, len) && part <= len
    ensures InUse(b, total, lo, part)
  {
  }

  /** The zeroed image next to the copied table is what the second pass needs. */
  lemma ReadyToLoad(m2: seq<byte>, m3: seq<byte>, at: nat, size: nat, c: seq<byte>, t: seq<Phdr>, base: nat, low: nat,
                    len: nat)
    requires base != 0 && base + len <= |m2| && |m2| < TWO64
    requires m3 == Splice(m2, base, seq(len, _ => 0 as byte))
    requires low == Low(t) && low + len == High(t) && RangesApart(at, |t| * size, base, len)
    requires SegmentsOk(t) && TableAt(m2, at, size, t)
    ensures Prepared(m3, at, size, c, t, base, low, len)
  {
    hide SegmentsOk;
    hide PhdrOf;
    hide TableAt;
    TableKept(m2, m3, at, size, t, base, seq(len, _ => 0 as byte));
  }

  lemma TableRead(c: seq<byte>, m1: seq<byte>, at: nat, m2: seq<byte>)
    requires |c| >= HEADER && Trustworthy(c)
    requires at + TableSize(c) <= |m1| && m2 == Splice(m1, at, Part(c, PhOff(c), TableSize(c)))
    ensures TableAt(m2, at, PhSize(c), Segments(c)) && |Segments(c)| == PhCount(c)
  {
    hide SegmentsOk;
    hide PhdrOf;
    assert m2[at..at + TableSize(c)] == c[PhOff(c)..PhOff(c) + TableSize(c)];
    TableCopied(c, PhOff(c), m2, at, PhSize(c), PhCount(c));
  }

  /** Two requests in a row, as the loader makes them. */
  lemma PlanSteps(b: seq<bool>, total: nat, n1: nat, b1: seq<bool>, a1: nat, n2: nat, b2: seq<bool>, a2: nat)
    requires (b1, a1) == Frames.After(b, total, Frames.Mmap(n1)) && (b2, a2) == Frames.After(b1, total, Frames.Mmap(n2))
    ensures Plan(b, total, n1, n2)
        == if (a1 == NO_ADDRESS && n1 > 0) || (a2 == NO_ADDRESS && n2 > 0) then None else Some((a1, a2, b2))
  {
  }

  /** What the loader leaves behind, by the way it ends. */
  ghost predicate Outcome(b0: seq<bool>, total: nat, m0: seq<byte>, b: seq<bool>, m: seq<byte>, c: seq<byte>,
                          hdrPtr: nat, r: LoadResult)
    requires HeaderOk(c) ==> Trustworthy(c)
  {
    && OldMemoryKept(b0, total, m0, m, hdrPtr)
    && (!HeaderOk(c) ==> r == NotLoaded)
    && (HeaderOk(c) ==>
          var t := Segments(c);
          var plan := Plan(b0, total, Pages(TableSize(c)), Pages(Extent(t)));
          match r
          case Fault => plan.None?
          case NotLoaded => Low(t) == MAX64
          case Loaded(entry, base, size) =>
            && Low(t) != MAX64 && plan.Some? && base == plan.value.1 && b == plan.value.2
            && (size > 0 ==> InUse(b, total, base, size))
            && ImageLoaded(m, c, base, size, entry))
  }

  /** Clears the image and loads the segments into it. */
  method ZeroAndLoad(fs: FileSystem, fd: nat, at: nat, phSize: nat, count: nat, base: nat, low: nat, size: nat,
                     ghost c: seq<byte>, ghost t: seq<Phdr>)
    returns (ghost image: seq<byte>)
    requires fd < fs.fds.Length && |t| == count
    requires low == Low(t) && low + size == High(t) && base != 0
    requires base + size <= fs.mem.Length < TWO64 && RangesApart(at, count * phSize, base, size)
    requires SegmentsOk(t) && TableAt(fs.mem[..], at, phSize, t)
    requires Reads(fs, fd, c)
    modifies fs.buf, fs.fds, fs.mem
    ensures Reads(fs, fd, c) && fs.fds[..] == old(fs.fds[..])[fd := fs.fds[fd]]
    ensures |image| == size && fs.mem[..] == Splice(old(fs.mem[..]), base, image) && Placed(image, c, t, low, count)
  {
    hide Reads;
    hide TableAt;
    hide SegmentsOk;
    hide Placed;
    hide Prepared;
    hide PhdrOf;
    ghost var m2 := fs.mem[..];
    forall x | base <= x < base + size { fs.mem[x] := 0; }
    ghost var m3 := fs.mem[..];
    assert m3 == Splice(m2, base, seq(size, _ => 0 as byte));
    ReadyToLoad(m2, m3, at, phSize, c, t, base, low, size);
    image := LoadSegments(fs, fd, at, phSize, count, base, low, c, t, size);
    assert Splice(Splice(m2, base, seq(size, _ => 0 as byte)), base, image) == Splice(m2, base, image);
  }

  /** The image is where the result says, the memory in use before is kept, the header buffer too. */
  lemma LoadedOutcome(b0: seq<bool>, total: nat, m0: seq<byte>, b1: seq<bool>, b: seq<bool>, m2: seq<byte>,
                      m: seq<byte>, c: seq<byte>,
                      hdrPtr: nat, at: nat, base: nat, size: nat, image: seq<byte>)
    requires HeaderOk(c) && Trustworthy(c) && Low(Segments(c)) != MAX64 && size == Extent(Segments(c)) > 0
    requires (b1, at) == Frames.After(b0, total, Frames.Mmap(Pages(TableSize(c)))) && at != NO_ADDRESS
    requires (b, base) == Frames.After(b1, total, Frames.Mmap(Pages(size))) && base != NO_ADDRESS
    requires MemoryOk(b1, total, |m2|, hdrPtr) && OldMemoryKept(b0, total, m0, m2, hdrPtr)
    requires forall lo: nat, len: nat :: InUse(b0, total, lo, len) ==> InUse(b1, total, lo, len)
    requires m2[hdrPtr..hdrPtr + HEADER] == c[..HEADER]
    requires |image| == size && base + size <= |m2| && m == Splice(m2, base, image)
    requires Placed(image, c, Segments(c), Low(Segments(c)), PhCount(c))
    ensures m[hdrPtr..hdrPtr + HEADER] == c[..HEADER]
    ensures Outcome(b0, total, m0, b, m, c, hdrPtr, Loaded((Entry(c) + base - Low(Segments(c))) % TWO64, base, size))
  {
    hide InUse;
    hide OldMemoryKept;
    hide Frames.After;
    hide SegmentsOk;
    hide PhdrOf;
    hide Placed;
    hide Untouchable;
    hide MemoryOk;
    hide Low;
    hide High;
    hide TableSize;
    hide Table;
    hide PhSize;
    PagesCover(size);
    Mapped(b0, total, b1, Pages(size), b, base, |m2|, hdrPtr);
    HeaderRoom(b1, total, |m2|, hdrPtr);
    SliceApart(m2, m, hdrPtr, HEADER, base, image);
    KeptStep(b0, total, m0, m2, m, hdrPtr, base, image, Pages(size) * PAGE_SIZE);
    PlanSteps(b0, total, Pages(TableSize(c)), b1, at, Pages(size), b, base);
    InUsePart(b, total, base, Pages(size) * PAGE_SIZE, size);
    SegmentsExtent(c);
    assert m[base..base + size] == image;
  }

  lemma HeaderRoom(b: seq<bool>, total: nat, memLen: nat, hdrPtr: nat)
    requires MemoryOk(b, total, memLen, hdrPtr)
    ensures hdrPtr + HEADER <= memLen < TWO64 && total <= |b|
  {
  }

  /** A program without a byte of memory: nothing to load, and no address to load it to. */
  lemma EmptyOutcome(b0: seq<bool>, total: nat, m0: seq<byte>, b1: seq<bool>, m: seq<byte>, c: seq<byte>, hdrPtr: nat,
                     at: nat)
    requires HeaderOk(c) && Trustworthy(c) && Low(Segments(c)) != MAX64 && Extent(Segments(c)) == 0
    requires (b1, at) == Frames.After(b0, total, Frames.Mmap(Pages(TableSize(c)))) && at != NO_ADDRESS
    requires OldMemoryKept(b0, total, m0, m, hdrPtr) && total <= |b1|
    ensures Frames.After(b1, total, Frames.Mmap(0)) == (b1, NO_ADDRESS)
    ensures Outcome(b0, total, m0, b1, m, c, hdrPtr,
                    Loaded((Entry(c) + NO_ADDRESS - Low(Segments(c))) % TWO64, NO_ADDRESS, 0))
  {
    hide OldMemoryKept;
    hide SegmentsOk;
    hide PhdrOf;
    Unmapped(b1, total, 0);
    PlanSteps(b0, total, Pages(TableSize(c)), b1, at, 0, b1, NO_ADDRESS);
    SegmentsExtent(c);
  }

  /** The allocator's bitmap is none of the driver's arrays. */
  ghost predicate Separate(fs: FileSystem, m: RamManager) {
    m.bitmap as object != fs.fds as object && m.bitmap as object != fs.mem as object
    && m.bitmap as object != fs.buf as object
  }

  /** Second half, once the table is in memory: bounds, image, entry. */
  method LoadImage(fs: FileSystem, m: RamManager, fd: nat, hdrPtr: nat, at: nat, ghost c: seq<byte>,
                   ghost b0: seq<bool>, ghost m0: seq<byte>)
    returns (r: LoadResult)
    requires Separate(fs, m) && fd < fs.fds.Length && Reads(fs, fd, c) && m.Valid() && HeaderOk(c) && Trustworthy(c)
    requires MemoryOk(m.Map(), m.total, fs.mem.Length, hdrPtr) && fs.mem[hdrPtr..hdrPtr + HEADER] == c[..HEADER]
    requires TableAt(fs.mem[..], at, PhSize(c), Segments(c)) && TableSize(c) > 0
    requires (m.Map(), at) == Frames.After(b0, m.total, Frames.Mmap(Pages(TableSize(c)))) && at != NO_ADDRESS
    requires InUse(m.Map(), m.total, at, TableSize(c))
    requires forall lo: nat, len: nat :: InUse(b0, m.total, lo, len) ==> InUse(m.Map(), m.total, lo, len)
    requires OldMemoryKept(b0, m.total, m0, fs.mem[..], hdrPtr)
    modifies fs.buf, fs.fds, fs.mem, m.bitmap
    ensures Reads(fs, fd, c) && fs.fds[..] == old(fs.fds[..])[fd := fs.fds[fd]] && m.Valid()
    ensures Outcome(b0, m.total, m0, m.Map(), fs.mem[..], c, hdrPtr, r)
  {
    hide Reads;
    hide InUse;
    hide OldMemoryKept;
    hide TableAt;
    hide Frames.After;
    hide SegmentsOk;
    hide PhdrOf;
    hide Placed;
    hide Plan;
    hide MemoryOk;
    hide Outcome;
    hide ImageLoaded;
    hide U64At;
    hide U16At;
    hide Table;
    hide Low;
    hide High;
    assert fs.fds[..][fd := fs.fds[fd]] == fs.fds[..];
    HeaderRoom(m.Map(), m.total, fs.mem.Length, hdrPtr);
    ghost var m2 := fs.mem[..];
    var h := fs.mem[hdrPtr..hdrPtr + HEADER];
    HeaderFields(c);
    ghost var t := Segments(c);
    var low, high := Bounds(fs, at, PhSize(h), PhCount(h), t);
    if low == MAX64 {
      NoSegmentsOutcome(b0, m.total, m0, m.Map(), m2, c, hdrPtr);
      return NotLoaded;
    }
    SegmentsExtent(c);
    var size := high - low;
    ghost var b1 := m.Map();
    var base := Frames.SysMmap(m, Pages(size));
    PagesCover(size);
    if size == 0 {
      EmptyOutcome(b0, m.total, m0, b1, m2, c, hdrPtr, at);
    } else if base == NO_ADDRESS {
      FaultOutcome(b0, m.total, m0, b1, m.Map(), m2, c, hdrPtr, at);
      return Fault;
    } else {
      Mapped(b0, m.total, b1, Pages(size), m.Map(), base, fs.mem.Length, hdrPtr);
      ghost var image := ZeroAndLoad(fs, fd, at, PhSize(h), PhCount(h), base, low, size, c, t);
      LoadedOutcome(b0, m.total, m0, b1, m.Map(), m2, fs.mem[..], c, hdrPtr, at, base, size, image);
    }
    var entry := (Entry(fs.mem[hdrPtr..hdrPtr + HEADER]) + base - low) % TWO64;
    r := Loaded(entry, base, size);
  }

  lemma NoSegmentsOutcome(b0: seq<bool>, total: nat, m0: seq<byte>, b: seq<bool>, m: seq<byte>, c: seq<byte>,
                          hdrPtr: nat)
    requires HeaderOk(c) && Trustworthy(c) && Low(Segments(c)) == MAX64 && OldMemoryKept(b0, total, m0, m, hdrPtr)
    ensures Outcome(b0, total, m0, b, m, c, hdrPtr, NotLoaded)
  {
  }

  lemma FaultOutcome(b0: seq<bool>, total: nat, m0: seq<byte>, b1: seq<bool>, b: seq<bool>, m: seq<byte>,
                     c: seq<byte>, hdrPtr: nat, at: nat)
    requires HeaderOk(c) && Trustworthy(c) && Extent(Segments(c)) > 0 && OldMemoryKept(b0, total, m0, m, hdrPtr)
    requires (b1, at) == Frames.After(b0, total, Frames.Mmap(Pages(TableSize(c))))
    requires (b, NO_ADDRESS) == Frames.After(b1, total, Frames.Mmap(Pages(Extent(Segments(c)))))
    ensures Outcome(b0, total, m0, b, m, c, hdrPtr, Fault)
  {
    hide Frames.After;
    hide SegmentsOk;
    hide PhdrOf;
    PlanSteps(b0, total, Pages(TableSize(c)), b1, at, Pages(Extent(Segments(c))), b, NO_ADDRESS);
    PagesCover(Extent(Segments(c)));
  }

  lemma BadHeaderOutcome(b0: seq<bool>, total: nat, m0: seq<byte>, b: seq<bool>, m: seq<byte>, c: seq<byte>,
                         hdrPtr: nat)
    requires !HeaderOk(c) && OldMemoryKept(b0, total, m0, m, hdrPtr)
    ensures Outcome(b0, total, m0, b, m, c, hdrPtr, NotLoaded)
  {
  }

  lemma NoTableOutcome(b0: seq<bool>, total: nat, m0: seq<byte>, b: seq<bool>, m: seq<byte>, c: seq<byte>, hdrPtr: nat)
    requires HeaderOk(c) && Trustworthy(c) && TableSize(c) == 0 && OldMemoryKept(b0, total, m0, m, hdrPtr)
    ensures Outcome(b0, total, m0, b, m, c, hdrPtr, NotLoaded)
  {
    hide SegmentsOk;
    hide OldMemoryKept;
    assert PhCount(c) == 0 by { NoEntries(PhCount(c), PhSize(c)); }
    assert Segments(c) == [];
  }

  lemma NoEntries(n: nat, size: nat)
    requires n * size == 0 && size >= PHDR
    ensures n == 0
  {
    if n > 0 { MulMono(1, n, size); }
  }

  lemma FirstFaultOutcome(b0: seq<bool>, total: nat, m0: seq<byte>, b: seq<bool>, m: seq<byte>, c: seq<byte>,
                          hdrPtr: nat)
    requires HeaderOk(c) && Trustworthy(c) && TableSize(c) > 0 && OldMemoryKept(b0, total, m0, m, hdrPtr)
    requires (b, NO_ADDRESS) == Frames.After(b0, total, Frames.Mmap(Pages(TableSize(c))))
    ensures Outcome(b0, total, m0, b, m, c, hdrPtr, Fault)
  {
    hide Frames.After;
    hide SegmentsOk;
    hide PhdrOf;
    PagesCover(TableSize(c));
  }

  /** The loader between opening and closing the file. */
  method LoadOpened(fs: FileSystem, m: RamManager, fd: nat, hdrPtr: nat, ghost c: seq<byte>) returns (r: LoadResult)
    requires Separate(fs, m) && fd < fs.fds.Length && Reads(fs, fd, c) && m.Valid()
    requires MemoryOk(m.Map(), m.total, fs.mem.Length, hdrPtr) && (HeaderOk(c) ==> Trustworthy(c))
    modifies fs.buf, fs.fds, fs.mem, m.bitmap
    ensures Reads(fs, fd, c) && fs.fds[..] == old(fs.fds[..])[fd := fs.fds[fd]] && m.Valid()
    ensures Outcome(old(m.Map()), m.total, old(fs.mem[..]), m.Map(), fs.mem[..], c, hdrPtr, r)
  {
    hide Reads;
    hide InUse;
    hide OldMemoryKept;
    hide TableAt;
    hide Frames.After;
    hide SegmentsOk;
    hide PhdrOf;
    hide MemoryOk;
    hide Outcome;
    hide Untouchable;
    hide Part;
    hide TableSize;
    hide PhOff;
    ghost var b0, m0 := m.Map(), fs.mem[..];
    HeaderRoom(b0, m.total, fs.mem.Length, hdrPtr);
    KeptAtStart(b0, m.total, m0, hdrPtr);
    HeaderUntouchable(b0, m.total, hdrPtr);
    HeaderPlace(b0, m.total, fs.mem.Length, hdrPtr);
    var ok := ReadHeader(fs, fd, hdrPtr, c);
    ghost var m1 := fs.mem[..];
    KeptStep(b0, m.total, m0, m0, m1, hdrPtr, hdrPtr, Part(c, 0, HEADER), HEADER);
    if !ok {
      BadHeaderOutcome(b0, m.total, m0, b0, m1, c, hdrPtr);
      return NotLoaded;
    }
    var h := fs.mem[hdrPtr..hdrPtr + HEADER];
    HeaderFields(c);
    var total := TableSize(h);
    PagesCover(total);
    var at := Frames.SysMmap(m, Pages(total));
    if total == 0 {
      NoTableOutcome(b0, m.total, m0, m.Map(), m1, c, hdrPtr);
      return NotLoaded;
    }
    if at == NO_ADDRESS {
      FirstFaultOutcome(b0, m.total, m0, m.Map(), m1, c, hdrPtr);
      return Fault;
    }
    Mapped(b0, m.total, b0, Pages(total), m.Map(), at, fs.mem.Length, hdrPtr);
    var n := ReadAt(fs, fd, PhOff(h), at, total, c);
    ghost var m2 := fs.mem[..];
    ghost var data := Part(c, PhOff(c), TableSize(c));
    KeptStep(b0, m.total, m0, m1, m2, hdrPtr, at, data, Pages(total) * PAGE_SIZE);
    SliceApart(m1, m2, hdrPtr, HEADER, at, data);
    TableRead(c, m1, at, m2);
    InUsePart(m.Map(), m.total, at, Pages(total) * PAGE_SIZE, total);
    r := LoadImage(fs, m, fd, hdrPtr, at, c, b0, m0);
  }

  lemma HeaderPlace(b: seq<bool>, total: nat, memLen: nat, hdrPtr: nat)
    requires MemoryOk(b, total, memLen, hdrPtr)
    ensures hdrPtr != 0
  {
  }

  // ------------------------------------------------------------ the whole call

  function UntilNul(s: seq<byte>): (r: seq<byte>)
    ensures r <= s && 0 !in r && (|r| < |s| ==> s[|r|] == 0)
  {
    if s == [] || s[0] == 0 then [] else [s[0]] + UntilNul(s[1..])
  }

  /** The name the open call sees: at most 127 bytes, ended by the first zero. */
  function CPath(path: seq<byte>): seq<byte> { UntilNul(path[..Min(|path|, 127)]) }

  /** A name without zero bytes is cut off after 127 bytes. */
  lemma CPathCuts(path: seq<byte>)
    requires 0 !in path
    ensures CPath(path) == if |path| <= 127 then path else path[..127]
  {
    var s := path[..Min(|path|, 127)];
    assert forall k :: 0 <= k < |s| ==> s[k] == path[k];
    assert |UntilNul(s)| == |s|;
  }

  /** Content of the root file of that name. */
  ghost function FileContent(d: Disk, g: Geometry, ch: Chains, name: seq<byte>): Option<seq<byte>>
    requires VolumeOk(d, g, ch)
  {
    EntryBacked(d, g, ch, ByName(name));
    match FirstMatch(RootBytes(d, g, ch), 0, ByName(name))
    case None => None
    case Some(k) =>
      var e := Directory.Entry(RootBytes(d, g, ch), k);
      Some(Content(d, g, ch, FileDescriptor(FirstCluster(e), 0, false, FileSize(e))))
  }

  /**
   * Loads a program. A file that cannot be opened leaves everything as it was; otherwise the outcome is that of its
   * content, and unless the kernel faulted no descriptor is left open.
   */
  method LoadElf(fs: FileSystem, m: RamManager, path: seq<byte>, hdrPtr: nat) returns (r: LoadResult)
    requires Separate(fs, m) && fs.Valid() && m.Valid()
    requires MemoryOk(m.Map(), m.total, fs.mem.Length, hdrPtr)
    requires var c := FileContent(fs.disk, fs.geo, fs.chains, CPath(path));
             c.Some? && HeaderOk(c.value) ==> Trustworthy(c.value)
    modifies fs.buf, fs.fds, fs.mem, m.bitmap
    ensures fs.Valid() && m.Valid()
    ensures var c := FileContent(fs.disk, fs.geo, fs.chains, CPath(path));
            if c.None? || FreeSlot(old(fs.fds[..]), 3).None? then
              r == NotLoaded && fs.fds[..] == old(fs.fds[..])
              && fs.mem[..] == old(fs.mem[..]) && m.Map() == old(m.Map())
            else
              && (HeaderOk(c.value) ==> Trustworthy(c.value))
              && Outcome(old(m.Map()), m.total, old(fs.mem[..]), m.Map(), fs.mem[..], c.value, hdrPtr, r)
              && (r.Fault? || fs.fds[..] == old(fs.fds[..]))
  {
    hide VolumeOk;
    hide FdsOk;
    hide FirstMatch;
    hide Outcome;
    hide MemoryOk;
    hide Trustworthy;
    hide HeaderOk;
    hide Content;
    EntryBacked(fs.disk, fs.geo, fs.chains, ByName(CPath(path)));
    var fd := fs.Open(CPath(path));
    if fd < 0 { return NotLoaded; }
    ghost var c := FileContent(fs.disk, fs.geo, fs.chains, CPath(path)).value;
    r := LoadOpened(fs, m, fd, hdrPtr, c);
    if r.Fault? { return; }
    ghost var was := fs.fds[..];
    var closed := fs.Close(fd);
  }
}
