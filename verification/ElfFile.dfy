// Executable files as the System V gABI lays them out, and what the loader makes of the numbers written in them.
module ElfFile {
  import opened Bytes
  import opened Layout
  import opened Ram
  import opened ElfLoader

  predicate Half(v: nat) { v < 0x1_0000 }
  predicate Word(v: nat) { v < 0x1_0000_0000 }
  predicate Xword(v: nat) { v < 0x1_0000_0000_0000_0000 }

  /** A file header, fields in the order of gABI chapter 4, "ELF Header". */
  datatype Header = Header(ident: seq<byte>, kind: nat, machine: nat, version: nat, entry: nat, phoff: nat, shoff: nat,
                           flags: nat, ehsize: nat, phentsize: nat, phnum: nat, shentsize: nat, shnum: nat,
                           shstrndx: nat)
  {
    predicate Ok() {
      && |ident| == 16 && Half(kind) && Half(machine) && Word(version) && Xword(entry) && Xword(phoff) && Xword(shoff)
      && Word(flags) && Half(ehsize) && Half(phentsize) && Half(phnum) && Half(shentsize) && Half(shnum)
      && Half(shstrndx)
    }

    function Bytes(): (s: seq<byte>)
      requires Ok()
      ensures |s| == 64
    {
      ident + Le2(kind) + Le2(machine) + Le4(version) + Le8(entry) + Le8(phoff) + Le8(shoff)
      + Le4(flags) + Le2(ehsize) + Le2(phentsize) + Le2(phnum) + Le2(shentsize) + Le2(shnum) + Le2(shstrndx)
    }
  }

  /** A program header, fields in the order of gABI chapter 5, "Program Header". */
  datatype Segment = Segment(kind: nat, flags: nat, offset: nat, vaddr: nat, paddr: nat, filesz: nat, memsz: nat,
                             align: nat)
  {
    predicate Ok() {
      && Word(kind) && Word(flags) && Xword(offset) && Xword(vaddr) && Xword(paddr)
      && Xword(filesz) && Xword(memsz) && Xword(align)
    }

    function Bytes(): (s: seq<byte>)
      requires Ok()
      ensures |s| == 56
    {
      Le4(kind) + Le4(flags) + Le8(offset) + Le8(vaddr) + Le8(paddr) + Le8(filesz) + Le8(memsz) + Le8(align)
    }

    /** Loaded into memory, as type 1 says. */
    predicate Loadable() { kind == 1 }
  }

  lemma Reads8(s: seq<byte>, at: nat, v: nat)
    requires Xword(v) && at + 8 <= |s| && s[at..at + 8] == Le8(v)
    ensures U64At(s, at) == v
  {
    assert s[at..at + 4] == s[at..at + 8][..4] && s[at + 4..at + 8] == s[at..at + 8][4..];
    Reads4(s, at, v % 0x1_0000_0000);
    Reads4(s, at + 4, v / 0x1_0000_0000);
  }

  /** Every field of a program header the loader uses is read back as it was written. */
  lemma SegmentReadBack(p: Segment)
    requires p.Ok()
    ensures PhdrOf(p.Bytes()) == Phdr(p.kind, p.offset, p.vaddr, p.filesz, p.memsz)
  {
    hide Le4;
    hide Le8;
    hide U64At;
    var s := p.Bytes();
    assert s[0..4] == Le4(p.kind) && s[8..16] == Le8(p.offset) && s[16..24] == Le8(p.vaddr);
    assert s[32..40] == Le8(p.filesz) && s[40..48] == Le8(p.memsz);
    Reads4(s, 0, p.kind);
    Reads8(s, 8, p.offset);
    Reads8(s, 16, p.vaddr);
    Reads8(s, 32, p.filesz);
    Reads8(s, 40, p.memsz);
  }

  /** So is every field of a file header. */
  lemma HeaderReadBack(h: Header, c: seq<byte>)
    requires h.Ok() && |c| >= 64 && c[..64] == h.Bytes()
    ensures HeaderOk(c) <==> h.ident[..4] == [0x7F, 0x45, 0x4C, 0x46] && (h.kind == 2 || h.kind == 3)
    ensures Entry(c) == h.entry && PhOff(c) == h.phoff && PhSize(c) == h.phentsize && PhCount(c) == h.phnum
  {
    hide Le2;
    hide Le4;
    hide Le8;
    hide U64At;
    hide U16At;
    var s := h.Bytes();
    assert s[..16] == h.ident && s[16..18] == Le2(h.kind) && s[24..32] == Le8(h.entry) && s[32..40] == Le8(h.phoff);
    assert s[54..56] == Le2(h.phentsize) && s[56..58] == Le2(h.phnum);
    HeaderFields(c);
    Reads2(s, 16, h.kind);
    Reads8(s, 24, h.entry);
    Reads8(s, 32, h.phoff);
    Reads2(s, 54, h.phentsize);
    Reads2(s, 56, h.phnum);
    assert forall i :: 0 <= i < 4 ==> s[i] == h.ident[i];
  }

  // ------------------------------------------------------------ a whole file

  predicate Lies(c: seq<byte>, at: nat, p: Segment) {
    p.Ok() && at + 56 <= |c| && c[at..at + 56] == p.Bytes()
  }

  /** Where header `h` says program header `i` lies. */
  function Place(h: Header, i: nat): nat {
    MulMono(0, i, h.phentsize);
    h.phoff + i * h.phentsize
  }

  /** File `c` starts with header `h`, which says where the program headers `ps` lie. */
  ghost predicate Laid(c: seq<byte>, h: Header, ps: seq<Segment>) {
    && h.Ok() && |c| >= 64 && c[..64] == h.Bytes()
    && h.ident[..4] == [0x7F, 0x45, 0x4C, 0x46] && (h.kind == 2 || h.kind == 3)
    && h.phentsize >= 56 && h.phnum == |ps| && h.phoff + |ps| * h.phentsize <= |c|
    && forall i :: 0 <= i < |ps| ==> Lies(c, Place(h, i), ps[i])
  }

  /** No segment has more file bytes than memory, and no end, rounded up to a page, wraps around. */
  predicate Sane(ps: seq<Segment>) {
    forall i :: 0 <= i < |ps| && ps[i].Loadable() ==>
      ps[i].filesz <= ps[i].memsz && ps[i].vaddr + ps[i].memsz + 4095 < 0x1_0000_0000_0000_0000
  }

  /** The loadable segments' memory reaches from `lo` to `hi`, and no further inwards. */
  ghost predicate Spans(ps: seq<Segment>, lo: nat, hi: nat) {
    && (forall i :: 0 <= i < |ps| && ps[i].Loadable() ==> lo <= ps[i].vaddr && ps[i].vaddr + ps[i].memsz <= hi)
    && (exists i :: 0 <= i < |ps| && ps[i].Loadable() && ps[i].vaddr == lo)
    && (exists i :: 0 <= i < |ps| && ps[i].Loadable() && ps[i].vaddr + ps[i].memsz == hi)
  }

  predicate DisjointMemory(ps: seq<Segment>) {
    forall i, j :: 0 <= i < j < |ps| && ps[i].Loadable() && ps[j].Loadable() ==>
      ps[i].vaddr + ps[i].memsz <= ps[j].vaddr || ps[j].vaddr + ps[j].memsz <= ps[i].vaddr
  }

  predicate InsideFile(ps: seq<Segment>, fileLen: nat) {
    forall i :: 0 <= i < |ps| && ps[i].Loadable() ==> ps[i].offset + ps[i].filesz <= fileLen
  }

  lemma LiesReadBack(c: seq<byte>, at: nat, p: Segment)
    requires Lies(c, at, p)
    ensures at + 56 <= |c| && PhdrAt(c, at) == Phdr(p.kind, p.offset, p.vaddr, p.filesz, p.memsz)
  {
    SegmentReadBack(p);
  }

  /** The loader's view of a file laid out so is the list of the numbers written. */
  lemma SegmentsAsWritten(c: seq<byte>, h: Header, ps: seq<Segment>)
    requires Laid(c, h, ps)
    ensures HeaderOk(c) && PhSize(c) >= PHDR && PhOff(c) + TableSize(c) <= |c| && |Segments(c)| == |ps|
    ensures Entry(c) == h.entry
    ensures forall i :: 0 <= i < |ps| ==>
              Segments(c)[i] == Phdr(ps[i].kind, ps[i].offset, ps[i].vaddr, ps[i].filesz, ps[i].memsz)
  {
    hide PhdrOf;
    hide PhdrAt;
    hide Lies;
    hide HeaderOk;
    hide Entry;
    hide PhOff;
    hide PhSize;
    hide PhCount;
    hide Table;
    HeaderReadBack(h, c);
    assert PhOff(c) + TableSize(c) == h.phoff + |ps| * h.phentsize;
    forall i | 0 <= i < |ps|
      ensures Segments(c)[i] == Phdr(ps[i].kind, ps[i].offset, ps[i].vaddr, ps[i].filesz, ps[i].memsz)
    {
      assert Lies(c, Place(h, i), ps[i]);
      LiesReadBack(c, Place(h, i), ps[i]);
    }
  }

  lemma NoWrap(x: nat)
    requires x < 0x1_0000_0000_0000_0000
    ensures x % TWO64 == x
  {
  }

  /** The loader's headers `t` hold the numbers of `ps`. */
  ghost predicate Matching(t: seq<Phdr>, ps: seq<Segment>) {
    && |t| == |ps|
    && forall i :: 0 <= i < |ps| ==> t[i] == Phdr(ps[i].kind, ps[i].offset, ps[i].vaddr, ps[i].filesz, ps[i].memsz)
  }

  lemma LowestOf(t: seq<Phdr>, ps: seq<Segment>)
    requires Matching(t, ps) && Low(t) != MAX64
    ensures exists i :: 0 <= i < |ps| && ps[i].Loadable() && ps[i].vaddr == Low(t)
  {
    LowAttained(t);
    var i :| 0 <= i < |t| && t[i].ty == PT_LOAD && t[i].vaddr == Low(t);
    assert ps[i].Loadable() && ps[i].vaddr == Low(t);
  }

  lemma HighestOf(t: seq<Phdr>, ps: seq<Segment>)
    requires Matching(t, ps) && Sane(ps) && exists i :: 0 <= i < |ps| && ps[i].Loadable()
    ensures exists i :: 0 <= i < |ps| && ps[i].Loadable() && ps[i].vaddr + ps[i].memsz == High(t)
  {
    hide High;
    if High(t) != 0 {
      HighAttained(t);
      var i :| 0 <= i < |t| && t[i].ty == PT_LOAD && (t[i].vaddr + t[i].memsz) % TWO64 == High(t);
      NoWrap(ps[i].vaddr + ps[i].memsz);
      assert ps[i].Loadable();
    } else {
      var i :| 0 <= i < |ps| && ps[i].Loadable();
      EndBelow(t, ps, i);
      assert ps[i].vaddr + ps[i].memsz == High(t);
    }
  }

  lemma EndBelow(t: seq<Phdr>, ps: seq<Segment>, i: nat)
    requires Matching(t, ps) && Sane(ps) && i < |ps| && ps[i].Loadable()
    ensures Low(t) <= ps[i].vaddr && Low(t) != MAX64 && ps[i].vaddr + ps[i].memsz <= High(t)
  {
    LowHigh(t, i);
  }

  lemma HighFits(t: seq<Phdr>, ps: seq<Segment>)
    requires Matching(t, ps) && Sane(ps)
    ensures High(t) + 4095 < TWO64
  {
    if High(t) != 0 {
      HighAttained(t);
      var i :| 0 <= i < |t| && t[i].ty == PT_LOAD && (t[i].vaddr + t[i].memsz) % TWO64 == High(t);
      assert ps[i].Loadable();
      NoWrap(ps[i].vaddr + ps[i].memsz);
    }
  }

  lemma SpanOf(t: seq<Phdr>, ps: seq<Segment>)
    requires Matching(t, ps) && Sane(ps)
    ensures SegmentsOk(t)
    ensures Low(t) != MAX64 ==> Spans(ps, Low(t), High(t))
    ensures Low(t) == MAX64 <==> forall i :: 0 <= i < |ps| ==> !ps[i].Loadable()
  {
    hide Low;
    hide High;
    forall i | 0 <= i < |t| ensures SegmentOk(t[i]) { assert ps[i].Loadable() <==> t[i].ty == PT_LOAD; }
    forall i | 0 <= i < |ps| && ps[i].Loadable()
      ensures Low(t) <= ps[i].vaddr && Low(t) != MAX64 && ps[i].vaddr + ps[i].memsz <= High(t)
    {
      EndBelow(t, ps, i);
    }
    if Low(t) != MAX64 {
      LowestOf(t, ps);
      HighestOf(t, ps);
    }
    HighFits(t, ps);
  }

  lemma SaneTrustworthy(c: seq<byte>, h: Header, ps: seq<Segment>)
    requires Laid(c, h, ps) && Sane(ps)
    ensures HeaderOk(c) && Trustworthy(c)
    ensures Low(Segments(c)) != MAX64 ==> Spans(ps, Low(Segments(c)), High(Segments(c)))
    ensures Low(Segments(c)) == MAX64 <==> forall i :: 0 <= i < |ps| ==> !ps[i].Loadable()
  {
    hide Low;
    hide High;
    hide Lies;
    hide PhdrOf;
    hide Table;
    hide SegmentsOk;
    hide Spans;
    hide Sane;
    SegmentsAsWritten(c, h, ps);
    SpanOf(Segments(c), ps);
  }

  /** Byte `x` of the image is one that the file fills through segment `p`. */
  predicate FromSegment(p: Segment, lo: nat, x: nat) {
    p.Loadable() && p.vaddr <= lo + x < p.vaddr + p.filesz
  }

  /** Byte `x` is the file's where a segment fills it, and zero elsewhere. */
  ghost predicate ByteHolds(v: byte, c: seq<byte>, ps: seq<Segment>, lo: nat, x: nat) {
    && (forall i :: 0 <= i < |ps| && FromSegment(ps[i], lo, x) ==>
          var at := ps[i].offset + (lo + x - ps[i].vaddr); at < |c| && v == c[at])
    && ((forall i :: 0 <= i < |ps| ==> !FromSegment(ps[i], lo, x)) ==> v == 0)
  }

  /** Every file byte of every segment is at its distance from `lo`, and all other bytes are zero. */
  ghost predicate ImageHolds(image: seq<byte>, c: seq<byte>, ps: seq<Segment>, lo: nat) {
    forall x: nat :: x < |image| ==> ByteHolds(image[x], c, ps, lo, x)
  }

  lemma ImageAsWritten(image: seq<byte>, c: seq<byte>, t: seq<Phdr>, ps: seq<Segment>)
    requires |t| == |ps| && SegmentsOk(t) && Placed(image, c, t, Low(t), |t|)
    requires forall i :: 0 <= i < |ps| ==>
               t[i] == Phdr(ps[i].kind, ps[i].offset, ps[i].vaddr, ps[i].filesz, ps[i].memsz)
    requires DisjointMemory(ps) && InsideFile(ps, |c|)
    ensures ImageHolds(image, c, ps, Low(t))
  {
    hide Low;
    hide Placed;
    hide SegmentsOk;
    var lo := Low(t);
    forall i, j | 0 <= i < j < |t| ensures Apart(t[i], t[j]) {
      assert (ps[i].Loadable() <==> t[i].ty == PT_LOAD) && (ps[j].Loadable() <==> t[j].ty == PT_LOAD);
    }
    forall i | 0 <= i < |t| && t[i].ty == PT_LOAD ensures t[i].offset + t[i].filesz <= |c| {
      assert ps[i].Loadable();
    }
    forall x: nat | x < |image| ensures ByteHolds(image[x], c, ps, lo, x) {
      ImageOfDisjoint(image, c, t, lo, x);
      forall i | 0 <= i < |ps| ensures FromSegment(ps[i], lo, x) <==> FromFile(t[i], lo, x) {}
    }
  }

  /**
   * What the loader leaves of a file, in terms of the numbers written in it. It returns nothing only if no segment is
   * loadable. A loaded image has the size of the segments' span and the entry keeps its distance from the span's start;
   * if the segments lie in the file and share no memory, every file byte of every segment is at its distance from that
   * start, and all other bytes are zero.
   */
  lemma LoadedAsWritten(b0: seq<bool>, total: nat, m0: seq<byte>, b: seq<bool>, m: seq<byte>, c: seq<byte>,
                        hdrPtr: nat, r: LoadResult, h: Header, ps: seq<Segment>) returns (lo: nat, hi: nat)
    requires Laid(c, h, ps) && Sane(ps) && (HeaderOk(c) ==> Trustworthy(c))
    requires Outcome(b0, total, m0, b, m, c, hdrPtr, r)
    ensures r.NotLoaded? ==> forall i :: 0 <= i < |ps| ==> !ps[i].Loadable()
    ensures r.Loaded? ==> Spans(ps, lo, hi) && r.size == hi - lo
    ensures r.Loaded? ==> r.entry == (h.entry + r.base - lo) % 0x1_0000_0000_0000_0000
    ensures r.Loaded? && r.size > 0 ==> r.base + r.size <= |m|
    ensures r.Loaded? && r.size > 0 && DisjointMemory(ps) && InsideFile(ps, |c|) ==>
              ImageHolds(m[r.base..r.base + r.size], c, ps, lo)
  {
    hide Low;
    hide High;
    hide PhdrOf;
    hide Table;
    hide SegmentsOk;
    hide OldMemoryKept;
    hide Plan;
    hide Placed;
    hide Laid;
    hide Spans;
    SaneTrustworthy(c, h, ps);
    SegmentsAsWritten(c, h, ps);
    var t := Segments(c);
    lo, hi := Low(t), High(t);
    if r.Loaded? && r.size > 0 && DisjointMemory(ps) && InsideFile(ps, |c|) {
      ImageAsWritten(m[r.base..r.base + r.size], c, t, ps);
    }
  }
}
