// The kernel's page tables, built in freshly allocated frames, and what the processor's walk makes of them.
module Paging {
  import opened Bytes
  import opened Ram
  import Frames

  const ENTRIES: nat := 512
  const PRESENT: nat := 1
  const WRITABLE: nat := 2
  const USER: nat := 4
  const WRITE_THROUGH: nat := 8
  const CACHE_DISABLE: nat := 16
  const HUGE: nat := 128
  const KIB4: nat := 0x1000
  const MIB2: nat := 0x20_0000
  const GIB1: nat := 0x4000_0000
  const GIB512: nat := 0x80_0000_0000
  const BITS52: nat := 0x10_0000_0000_0000

  /** Bits 12 to 51, the frame address an entry holds. */
  function Frame(e: nat): nat { e % BITS52 / KIB4 * KIB4 }

  /** The entry that points at the next table. */
  function Link(table: nat): nat { Frame(table) + PRESENT + WRITABLE + USER }

  /** The 2 MiB entry for directory `j`, slot `i`. */
  function Leaf(j: nat, i: nat): nat {
    Frame(j * GIB1 + i * MIB2) + (PRESENT + WRITABLE + HUGE + USER) + (WRITE_THROUGH + CACHE_DISABLE)
  }

  function Zeros(): (t: seq<nat>)
    ensures |t| == ENTRIES && forall i :: 0 <= i < ENTRIES ==> t[i] == 0
  {
    seq(ENTRIES, _ => 0)
  }

  function Directory(j: nat): (t: seq<nat>)
    ensures |t| == ENTRIES
  {
    seq(ENTRIES, i requires 0 <= i < ENTRIES => Leaf(j, i))
  }

  // ---------------------------------------------------------- processor's walk

  /** What an address maps to: rights, and the cache control bits of the entry that maps its page. */
  datatype Mapping = Mapping(address: nat, writable: bool, user: bool, writeThrough: bool, cacheDisabled: bool)

  // Bits of an entry, by the numbers the processor gives them.
  predicate IsPresent(e: nat) { e % 2 == 1 }
  predicate IsWritable(e: nat) { e / 2 % 2 == 1 }
  predicate IsUser(e: nat) { e / 4 % 2 == 1 }
  predicate IsWriteThrough(e: nat) { e / 8 % 2 == 1 }
  predicate IsCacheDisabled(e: nat) { e / 16 % 2 == 1 }
  predicate MapsPage(e: nat) { e / 128 % 2 == 1 }

  /** The entry at `index` of the table in frame `table`; absent memory reads as not present. */
  function EntryOf(mem: map<nat, seq<nat>>, table: nat, index: nat): nat {
    if table in mem && index < |mem[table]| then mem[table][index] else 0
  }

  predicate Canonical(va: nat) {
    va < 0x8000_0000_0000 || 0xFFFF_8000_0000_0000 <= va < 0x1_0000_0000_0000_0000
  }

  function Page(e: nat, size: nat, va: nat, writable: bool, user: bool): Mapping
    requires size > 0
  {
    Mapping(e % BITS52 / size * size + va % size, writable && IsWritable(e), user && IsUser(e),
            IsWriteThrough(e), IsCacheDisabled(e))
  }

  /** The 4-level walk, with 1 GiB, 2 MiB and 4 KiB pages; rights are those all levels grant. */
  function Walk(mem: map<nat, seq<nat>>, root: nat, va: nat): Option<Mapping> {
    if !Canonical(va) then None else
    var e4 := EntryOf(mem, root, va / GIB512 % 512);
    if !IsPresent(e4) then None else
    WalkDirectoryPointers(mem, Frame(e4), va, IsWritable(e4), IsUser(e4))
  }

  function WalkDirectoryPointers(mem: map<nat, seq<nat>>, table: nat, va: nat, w: bool, u: bool): Option<Mapping> {
    var e3 := EntryOf(mem, table, va / GIB1 % 512);
    if !IsPresent(e3) then None
    else if MapsPage(e3) then Some(Page(e3, GIB1, va, w, u))
    else WalkDirectory(mem, Frame(e3), va, w && IsWritable(e3), u && IsUser(e3))
  }

  function WalkDirectory(mem: map<nat, seq<nat>>, table: nat, va: nat, w: bool, u: bool): Option<Mapping> {
    var e2 := EntryOf(mem, table, va / MIB2 % 512);
    if !IsPresent(e2) then None
    else if MapsPage(e2) then Some(Page(e2, MIB2, va, w, u))
    else
      var e1 := EntryOf(mem, Frame(e2), va / KIB4 % 512);
      if !IsPresent(e1) then None
      else Some(Page(e1, KIB4, va, w && IsWritable(e2), u && IsUser(e2)))
  }

  // --------------------------------------------------------------- the tables

  /** `pml4` points at `pdpt`, whose first 64 entries point at the directories `pds`, each mapping one GiB. */
  ghost predicate Built(mem: map<nat, seq<nat>>, pml4: nat, pdpt: nat, pds: seq<nat>) {
    && pml4 in mem && mem[pml4] == Zeros()[0 := Link(pdpt)]
    && pdpt in mem && |mem[pdpt]| == ENTRIES && |pds| == 64
    && Frame(pdpt) == pdpt
    && (forall j :: 0 <= j < 64 ==> mem[pdpt][j] == Link(pds[j]) && Frame(pds[j]) == pds[j])
    && (forall j :: 64 <= j < ENTRIES ==> mem[pdpt][j] == 0)
    && (forall j :: 0 <= j < 64 ==> pds[j] in mem && mem[pds[j]] == Directory(j))
  }

  /** An entry that points at a table has just the present, writable and user bits. */
  lemma LinkFields(table: nat)
    requires Frame(table) == table
    ensures var e := Link(table);
            && e == table + 0x7 && Frame(e) == table
            && IsPresent(e) && IsWritable(e) && IsUser(e) && !MapsPage(e)
  {
    var e, k := Link(table), table / KIB4;
    assert e == 4096 * k + 7;
    BitSet(e, 2, k * 1024 + 1, 1);
    BitSet(e, 4, k * 512, 3);
    assert e / 128 == k * 32;
  }

  /** An entry for a 2 MiB page maps its own address, present, writable, user, write-through and with caching off. */
  lemma LeafFields(j: nat, i: nat)
    requires j < 64 && i < ENTRIES
    ensures var e := Leaf(j, i);
            && e == (j * 512 + i) * 0x20_0000 + 0x9F
            && IsPresent(e) && IsWritable(e) && IsUser(e) && MapsPage(e) && IsWriteThrough(e) && IsCacheDisabled(e)
            && e % BITS52 / MIB2 * MIB2 == j * GIB1 + i * MIB2
  {
    var k := j * 512 + i;
    assert j * GIB1 + i * MIB2 == k * MIB2;
    FrameOfHuge(k);
    HugeFields(k);
  }

  lemma FrameOfHuge(k: nat)
    requires k < 0x8000
    ensures Frame(k * MIB2) == k * MIB2
  {
    assert k * MIB2 == k * 512 * KIB4;
  }

  lemma HugeFields(k: nat)
    requires k < 0x8000
    ensures var e := k * MIB2 + 0x9F;
            && IsPresent(e) && IsWritable(e) && IsUser(e) && MapsPage(e) && IsWriteThrough(e) && IsCacheDisabled(e)
            && e % BITS52 / MIB2 * MIB2 == k * MIB2
  {
    var e := k * MIB2 + 0x9F;
    assert e == 2 * (k * 0x10_0000 + 79) + 1;
    BitSet(e, 2, k * 0x8_0000 + 39, 1);
    BitSet(e, 4, k * 0x4_0000 + 19, 3);
    BitSet(e, 8, k * 0x2_0000 + 9, 7);
    BitSet(e, 16, k * 0x1_0000 + 4, 15);
    BitSet(e, 128, k * 0x2000, 31);
    assert e % BITS52 == e && e / MIB2 == k;
  }

  /** A word with quotient `2 * q + 1` by `unit` has that bit set. */
  lemma BitSet(e: nat, unit: nat, q: nat, r: nat)
    requires unit > 0 && r < unit && e == unit * (2 * q + 1) + r
    ensures e / unit % 2 == 1
  {
    var d := e / unit - (2 * q + 1);
    assert unit * d == r - e % unit;
    assert d >= 1 ==> unit * d >= unit;
    assert d <= -1 ==> unit * d <= 0 - unit;
  }

  /** Address arithmetic: below 64 GiB an address is its GiB, its 2 MiB page within that, and an offset. */
  lemma Split(va: nat)
    requires va < 64 * GIB1
    ensures va / GIB512 % 512 == 0
    ensures va / GIB1 % 512 == va / GIB1 < 64
    ensures va == va / GIB1 * GIB1 + va / MIB2 % 512 * MIB2 + va % MIB2
  {
    assert va / MIB2 / 512 == va / GIB1;
  }

  /**
   * The walk of the built tables is the identity below 64 GiB, with present, writable and user rights, every page
   * write-through and with caching off, and maps nothing else.
   */
  lemma WalkIsIdentity(mem: map<nat, seq<nat>>, pml4: nat, pdpt: nat, pds: seq<nat>, va: nat)
    requires Built(mem, pml4, pdpt, pds) && va < 0x1_0000_0000_0000_0000
    ensures Walk(mem, pml4, va) == if va < 64 * GIB1 then Some(Mapping(va, true, true, true, true)) else None
  {
    LinkFields(pdpt);
    var j := va / GIB1 % 512;
    if va < 64 * GIB1 {
      Split(va);
      LinkFields(pds[j]);
      LeafFields(j, va / MIB2 % 512);
    } else if Canonical(va) {
      if va / GIB512 % 512 == 0 { assert j >= 64; }
    }
  }

  // ------------------------------------------------------------- construction

  function Changed(t: seq<nat>, i: nat, v: nat): (r: seq<nat>)
    requires i < |t|
    ensures |r| == |t| && forall k :: 0 <= k < |t| ==> r[k] == if k == i then v else t[k]
  {
    t[..i] + [v] + t[i + 1..]
  }

  class PhysicalMemory {
    var tables: map<nat, seq<nat>>                    // frame address to the 512 words of the page table there

    method Clear(frame: nat)
      modifies this
      ensures tables == old(tables)[frame := Zeros()]
    {
      tables := tables[frame := Zeros()];
    }

    method SetEntry(frame: nat, i: nat, v: nat)
      requires frame in tables && i < |tables[frame]|
      modifies this
      ensures tables == old(tables)[frame := Changed(old(tables[frame]), i, v)]
    {
      tables := tables[frame := Changed(tables[frame], i, v)];
    }

    /** Inner loop: the 512 entries of directory `j`. */
    method FillDirectory(frame: nat, j: nat)
      requires frame in tables && |tables[frame]| == ENTRIES
      modifies this
      ensures tables == old(tables)[frame := Directory(j)]
    {
      for i := 0 to 512
        invariant frame in tables && |tables[frame]| == ENTRIES
        invariant tables == old(tables)[frame := tables[frame]]
        invariant forall k :: 0 <= k < i ==> tables[frame][k] == Leaf(j, k)
      {
        var addr := j * GIB1 + i * MIB2;
        var flags := PRESENT + WRITABLE + HUGE + USER;
        flags := flags + (WRITE_THROUGH + CACHE_DISABLE);
        SetEntry(frame, i, Frame(addr) + flags);
      }
      assert tables[frame] == Directory(j);
    }
  }

  /** A frame the allocator handed out earlier. */
  ghost predicate Allocated(b: seq<bool>, total: nat, frame: nat) {
    frame % PAGE_SIZE == 0 && frame / PAGE_SIZE < total && Used(b, total, frame / PAGE_SIZE)
  }

  lemma OneFrame(b: seq<bool>, total: nat)
    requires total <= |b|
    ensures FirstFit(b, total, 1, 1, 0).None? <==> Frames.FreeSectors(b, total) == {}
    ensures var s := FirstFit(b, total, 1, 1, 0);
            s.Some? ==>
              && s.value in Frames.FreeSectors(b, total)
              && Frames.FreeSectors(Fill(b, s.value, 1, true), total) == Frames.FreeSectors(b, total) - {s.value}
  {
    var s := FirstFit(b, total, 1, 1, 0);
    if s.None? {
      forall i: nat | i < total ensures Used(b, total, i) {
        if !Used(b, total, i) { assert FreeRun(b, total, i, 1); }
      }
    } else {
      var first: nat := s.value;
      assert !Used(b, total, first);
      assert first in Frames.FreeSectors(b, total);
      var c := Fill(b, s.value, 1, true);
      forall i: nat | i < total ensures Used(c, total, i) == (i == s.value || Used(b, total, i)) {}
    }
  }

  lemma AllocatedStays(b: seq<bool>, total: nat, k: nat, frame: nat)
    requires k < |b| && Allocated(b, total, frame)
    ensures Allocated(Fill(b, k, 1, true), total, frame)
  {
  }

  lemma FrameOfSector(k: nat)
    requires k < 0x100_0000_0000
    ensures Frame(k * PAGE_SIZE) == k * PAGE_SIZE && k * PAGE_SIZE / PAGE_SIZE == k && k * PAGE_SIZE % PAGE_SIZE == 0
  {
  }

  /** One frame: fails only when none is free; otherwise it is none of those allocated before. */
  method AllocateFrame(m: RamManager) returns (r: Option<nat>)
    requires m.Valid() && m.total <= 0x100_0000_0000
    modifies m.bitmap
    ensures r.None? <==> Frames.FreeSectors(old(m.Map()), m.total) == {}
    ensures r.None? ==> m.Map() == old(m.Map())
    ensures r.Some? ==>
              && Frame(r.value) == r.value
              && Allocated(m.Map(), m.total, r.value) && !Allocated(old(m.Map()), m.total, r.value)
              && r.value / PAGE_SIZE in Frames.FreeSectors(old(m.Map()), m.total)
              && Frames.FreeSectors(m.Map(), m.total) == Frames.FreeSectors(old(m.Map()), m.total)
                   - {r.value / PAGE_SIZE}
              && |Frames.FreeSectors(m.Map(), m.total)| + 1 == |Frames.FreeSectors(old(m.Map()), m.total)|
    ensures forall f :: Allocated(old(m.Map()), m.total, f) ==> Allocated(m.Map(), m.total, f)
  {
    hide FirstFit;
    hide FreeRun;
    hide Frames.FreeSectors;
    ghost var b := m.Map();
    ghost var s := FirstFit(b, m.total, 1, 1, 0);
    OneFrame(b, m.total);
    r := m.AllocateSectors(1);
    if r.Some? {
      FrameOfSector(s.value);
      FreshSector(b, m.total, s.value);
      forall f | Allocated(b, m.total, f)
        ensures Allocated(m.Map(), m.total, f)
      {
        AllocatedStays(b, m.total, s.value, f);
      }
    }
  }

  lemma FreshSector(b: seq<bool>, total: nat, k: nat)
    requires k in Frames.FreeSectors(b, total)
    ensures k < total && !Used(b, total, k)
  {
  }

  /** The tables of the first `n` directories are in place, in frames of their own. */
  ghost predicate Partial(b: seq<bool>, total: nat, mem: map<nat, seq<nat>>, pml4: nat, pdpt: nat, pds: seq<nat>) {
    && |pds| <= 64 && pml4 != pdpt
    && Allocated(b, total, pml4) && Allocated(b, total, pdpt) && Frame(pml4) == pml4 && Frame(pdpt) == pdpt
    && pml4 in mem && mem[pml4] == Zeros()[0 := Link(pdpt)]
    && pdpt in mem && |mem[pdpt]| == ENTRIES
    && (forall j :: 0 <= j < |pds| ==> mem[pdpt][j] == Link(pds[j]))
    && (forall j :: |pds| <= j < ENTRIES ==> mem[pdpt][j] == 0)
    && (forall j :: 0 <= j < |pds| ==> DirectoryAt(b, total, mem, pml4, pdpt, pds[j], j))
  }

  ghost predicate DirectoryAt(b: seq<bool>, total: nat, mem: map<nat, seq<nat>>, pml4: nat, pdpt: nat, pd: nat,
                              j: nat) {
    && Allocated(b, total, pd) && Frame(pd) == pd && pd != pml4 && pd != pdpt
    && pd in mem && mem[pd] == Directory(j)
  }

  /** Adding a directory in a frame not allocated before leaves the tables so far as they are. */
  lemma PartialGrows(b: seq<bool>, c: seq<bool>, total: nat, mem: map<nat, seq<nat>>, pml4: nat, pdpt: nat,
                     pds: seq<nat>,
                     pd: nat, mem2: map<nat, seq<nat>>)
    requires Partial(b, total, mem, pml4, pdpt, pds) && |pds| < 64
    requires forall f :: Allocated(b, total, f) ==> Allocated(c, total, f)
    requires Allocated(c, total, pd) && !Allocated(b, total, pd) && Frame(pd) == pd
    requires mem2 == mem[pd := Directory(|pds|)][pdpt := Changed(mem[pdpt], |pds|, Link(pd))]
    ensures Partial(c, total, mem2, pml4, pdpt, pds + [pd])
  {
    var more := pds + [pd];
    forall j | 0 <= j < |more| ensures DirectoryAt(c, total, mem2, pml4, pdpt, more[j], j) {
      if j < |pds| { assert DirectoryAt(b, total, mem, pml4, pdpt, pds[j], j); }
    }
  }

  lemma PartialStarts(b: seq<bool>, total: nat, mem: map<nat, seq<nat>>, pml4: nat, pdpt: nat)
    requires pml4 != pdpt && Allocated(b, total, pml4) && Allocated(b, total, pdpt) && Frame(pml4) == pml4
    requires Frame(pdpt) == pdpt
    ensures Partial(b, total, mem[pml4 := Zeros()][pdpt := Zeros()][pml4 := Changed(Zeros(), 0, Link(pdpt))],
                    pml4, pdpt, [])
  {
    assert Changed(Zeros(), 0, Link(pdpt)) == Zeros()[0 := Link(pdpt)];
  }

  lemma PartialDone(b: seq<bool>, total: nat, mem: map<nat, seq<nat>>, pml4: nat, pdpt: nat, pds: seq<nat>)
    requires Partial(b, total, mem, pml4, pdpt, pds) && |pds| == 64
    ensures Built(mem, pml4, pdpt, pds)
  {
    forall j | 0 <= j < 64 ensures Frame(pds[j]) == pds[j] && pds[j] in mem && mem[pds[j]] == Directory(j) {
      assert DirectoryAt(b, total, mem, pml4, pdpt, pds[j], j);
    }
  }

  /** Only frames that were free before are written. */
  ghost predicate OthersKept(b: seq<bool>, total: nat, before: map<nat, seq<nat>>, after: map<nat, seq<nat>>) {
    forall f :: f in before && (f % PAGE_SIZE != 0 || f / PAGE_SIZE !in Frames.FreeSectors(b, total)) ==>
      f in after && after[f] == before[f]
  }

  lemma PartialFacts(b: seq<bool>, total: nat, mem: map<nat, seq<nat>>, pml4: nat, pdpt: nat, pds: seq<nat>, pd: nat)
    requires Partial(b, total, mem, pml4, pdpt, pds) && !Allocated(b, total, pd)
    ensures pdpt in mem && |mem[pdpt]| == ENTRIES && pd != pdpt
  {
  }

  lemma OthersKeptTrans(b: seq<bool>, total: nat, m0: map<nat, seq<nat>>, m1: map<nat, seq<nat>>, m2: map<nat,
                        seq<nat>>, p: nat, q: nat)
    requires OthersKept(b, total, m0, m1)
    requires p % PAGE_SIZE == 0 && p / PAGE_SIZE in Frames.FreeSectors(b, total)
    requires q % PAGE_SIZE == 0 && q / PAGE_SIZE in Frames.FreeSectors(b, total)
    requires forall f :: f in m1 && f != p && f != q ==> f in m2 && m2[f] == m1[f]
    ensures OthersKept(b, total, m0, m2)
  {
    hide Frames.FreeSectors;
  }

  /** One round of the outer loop: a directory for GiB `j`. */
  method AddDirectory(m: RamManager, pm: PhysicalMemory, j: nat, ghost pml4: nat, pdpt: nat, ghost pds: seq<nat>)
    returns (pd: Option<nat>)
    requires m.Valid() && m.total <= 0x100_0000_0000
    requires |pds| == j < 64 && Partial(m.Map(), m.total, pm.tables, pml4, pdpt, pds)
    modifies m.bitmap, pm
    ensures pd.None? <==> Frames.FreeSectors(old(m.Map()), m.total) == {}
    ensures pd.None? ==> pm.tables == old(pm.tables)
    ensures pd.Some? ==>
              && Partial(m.Map(), m.total, pm.tables, pml4, pdpt, pds + [pd.value])
              && |Frames.FreeSectors(m.Map(), m.total)| + 1 == |Frames.FreeSectors(old(m.Map()), m.total)|
              && Frames.FreeSectors(m.Map(), m.total) <= Frames.FreeSectors(old(m.Map()), m.total)
              && pd.value % PAGE_SIZE == 0 && pd.value / PAGE_SIZE in Frames.FreeSectors(old(m.Map()), m.total)
              && forall f :: f in old(pm.tables) && f != pd.value && f != pdpt ==>
                   f in pm.tables && pm.tables[f] == old(pm.tables)[f]
  {
    hide Frames.FreeSectors;
    hide Partial;
    hide Frame;
    ghost var b, mem := m.Map(), pm.tables;
    pd := AllocateFrame(m);
    if pd.None? { return; }
    PartialFacts(b, m.total, mem, pml4, pdpt, pds, pd.value);
    pm.Clear(pd.value);
    pm.SetEntry(pdpt, j, Frame(pd.value) + PRESENT + WRITABLE + USER);
    pm.FillDirectory(pd.value, j);
    ghost var done: map<nat, seq<nat>> := mem[pd.value := Directory(j)];
    assert pm.tables == done[pdpt := Changed(mem[pdpt], j, Link(pd.value))];
    PartialGrows(b, m.Map(), m.total, mem, pml4, pdpt, pds, pd.value, pm.tables);
  }

  /**
   * Builds the kernel's page tables in 66 fresh frames and returns the root. It gives up (None) exactly when fewer
   * than 66 sectors are free.
   */
  method InitOsPaging(m: RamManager, pm: PhysicalMemory) returns (r: Option<nat>, ghost pdpt: nat, ghost pds: seq<nat>)
    requires m.Valid() && m.total <= 0x100_0000_0000
    modifies m.bitmap, pm
    ensures r.Some? <==> |Frames.FreeSectors(old(m.Map()), m.total)| >= 66
    ensures r.Some? ==>
              && Built(pm.tables, r.value, pdpt, pds)
              && |Frames.FreeSectors(m.Map(), m.total)| == |Frames.FreeSectors(old(m.Map()), m.total)| - 66
    ensures OthersKept(old(m.Map()), m.total, old(pm.tables), pm.tables)
  {
    hide Frames.FreeSectors;
    hide Partial;
    hide Built;
    hide Frame;
    ghost var b0 := m.Map();
    ghost var free := Frames.FreeSectors(b0, m.total);
    pdpt, pds := 0, [];
    var pml4 := AllocateFrame(m);
    if pml4.None? { return None, pdpt, pds; }
    var pdptPhys := AllocateFrame(m);
    if pdptPhys.None? { return None, pdpt, pds; }
    pdpt := pdptPhys.value;
    pm.Clear(pml4.value);
    pm.Clear(pdptPhys.value);
    pm.SetEntry(pml4.value, 0, Frame(pdptPhys.value) + PRESENT + WRITABLE + USER);
    PartialStarts(m.Map(), m.total, old(pm.tables), pml4.value, pdpt);
    OthersKeptTrans(b0, m.total, old(pm.tables), old(pm.tables), pm.tables, pml4.value, pdpt);
    for j := 0 to 64
      invariant m.Valid() && Frames.FreeSectors(m.Map(), m.total) <= free
      invariant |Frames.FreeSectors(m.Map(), m.total)| == |free| - 2 - j
      invariant |pds| == j && Partial(m.Map(), m.total, pm.tables, pml4.value, pdpt, pds)
      invariant OthersKept(b0, m.total, old(pm.tables), pm.tables)
    {
      ghost var mem := pm.tables;
      var pd := AddDirectory(m, pm, j, pml4.value, pdptPhys.value, pds);
      if pd.None? { return None, pdpt, pds; }
      OthersKeptTrans(b0, m.total, old(pm.tables), mem, pm.tables, pd.value, pdpt);
      pds := pds + [pd.value];
    }
    PartialDone(m.Map(), m.total, pm.tables, pml4.value, pdpt, pds);
    r := Some(Frame(pml4.value));
  }
}
