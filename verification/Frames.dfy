// The frame allocator in use: boot from the firmware's memory map, then any run of map and unmap system calls.
module Frames {
  import opened Bytes
  import opened Ram

  /** One firmware memory-map descriptor: type, physical start, number of 4 KiB pages. */
  datatype MemDesc = MemDesc(ty: nat, start: nat, pages: nat)

  const CONVENTIONAL: nat := 7
  const FIRST_USABLE: nat := 0x400_0000

  function TotalPages(descs: seq<MemDesc>): nat {
    if descs == [] then 0
    else TotalPages(descs[..|descs| - 1])
         + if descs[|descs| - 1].ty == CONVENTIONAL then descs[|descs| - 1].pages else 0
  }

  /** The total is the sum over all regions, of which only the usable ones count. */
  lemma {:induction false} TotalIsSum(a: seq<MemDesc>, b: seq<MemDesc>)
    ensures TotalPages(a + b) == TotalPages(a) + TotalPages(b)
    ensures forall d :: d in a ==> TotalPages([d]) == if d.ty == 7 then d.pages else 0
  {
    assert forall d: MemDesc :: [d][..0] == [];
    if b == [] {
      assert a + b == a;
    } else {
      TotalIsSum(a, b[..|b| - 1]);
      assert (a + b)[..|a| + |b| - 1] == a + b[..|b| - 1];
    }
  }

  /** Sector `i` is one of the first `n` pages of a usable region, and high enough. */
  predicate OfferedBy(desc: MemDesc, n: nat, i: nat) {
    && desc.ty == CONVENTIONAL
    && desc.start / PAGE_SIZE <= i < desc.start / PAGE_SIZE + n
    && desc.start + (i - desc.start / PAGE_SIZE) * PAGE_SIZE >= FIRST_USABLE
  }

  ghost predicate Offered(descs: seq<MemDesc>, i: nat) {
    exists d :: 0 <= d < |descs| && OfferedBy(descs[d], descs[d].pages, i)
  }

  /** Sets up the allocator: exactly the sectors below the total that a usable region offers are free. */
  method Boot(descs: seq<MemDesc>) returns (m: RamManager)
    ensures fresh(m) && fresh(m.bitmap) && m.Valid() && m.total == TotalPages(descs)
    ensures forall i: nat :: i < |m.Map()| ==> m.Map()[i] == !(i < m.total && Offered(descs, i))
  {
    var totalRam := 0;
    for k := 0 to |descs|
      invariant totalRam == TotalPages(descs[..k]) * PAGE_SIZE
    {
      assert descs[..k + 1][..k] == descs[..k];
      if descs[k].ty == CONVENTIONAL { totalRam := totalRam + descs[k].pages * PAGE_SIZE; }
    }
    assert descs[..|descs|] == descs;
    m := new RamManager(totalRam);
    for k := 0 to |descs|
      invariant m.Valid() && fresh(m.bitmap)
      invariant forall i: nat :: i < |m.Map()| ==> m.Map()[i] == !(i < m.total && Offered(descs[..k], i))
    {
      if descs[k].ty == CONVENTIONAL {
        FreeRegion(m, descs[..k], descs[k]);
      }
      forall i: nat
        ensures Offered(descs[..k + 1], i) == (Offered(descs[..k], i) || OfferedBy(descs[k], descs[k].pages, i))
      {
        OfferedNext(descs, k, i);
      }
    }
  }

  lemma OfferedNext(descs: seq<MemDesc>, k: nat, i: nat)
    requires k < |descs|
    ensures Offered(descs[..k + 1], i) == (Offered(descs[..k], i) || OfferedBy(descs[k], descs[k].pages, i))
  {
    var more, less := descs[..k + 1], descs[..k];
    if Offered(less, i) {
      var d :| 0 <= d < |less| && OfferedBy(less[d], less[d].pages, i);
      assert more[d] == less[d];
    }
    if Offered(more, i) {
      var d :| 0 <= d < |more| && OfferedBy(more[d], more[d].pages, i);
      assert d < k ==> less[d] == more[d];
    }
    assert more[k] == descs[k];
  }

  /** The inner boot loop for one usable region. */
  method FreeRegion(m: RamManager, ghost done: seq<MemDesc>, desc: MemDesc)
    requires m.Valid() && desc.ty == CONVENTIONAL
    requires forall i: nat :: i < |m.Map()| ==> m.Map()[i] == !(i < m.total && Offered(done, i))
    modifies m.bitmap
    ensures forall i: nat :: i < |m.Map()| ==>
              m.Map()[i] == !(i < m.total && (Offered(done, i) || OfferedBy(desc, desc.pages, i)))
  {
    hide Offered;
    for j := 0 to desc.pages
      invariant forall i: nat :: i < |m.Map()| ==>
                m.Map()[i] == !(i < m.total && (Offered(done, i) || OfferedBy(desc, j, i)))
    {
      var addr := desc.start + j * PAGE_SIZE;
      assert addr / PAGE_SIZE == desc.start / PAGE_SIZE + j;
      if addr >= FIRST_USABLE { m.MarkFree(addr / PAGE_SIZE); }
    }
  }

  // ------------------------------------------------------------ system calls

  /** System call 13: the address of `pages` fresh sectors, or all ones. */
  method SysMmap(m: RamManager, pages: nat) returns (addr: nat)
    requires m.Valid()
    modifies m.bitmap
    ensures (m.Map(), addr) == After(old(m.Map()), m.total, Mmap(pages))
    ensures CountedFit(old(m.Map()), m.total, pages).None? ==> addr == 0xFFFF_FFFF_FFFF_FFFF
  {
    var r := m.AllocateSectors(pages);
    match r
    case Some(a) => addr := a;
    case None => addr := NO_ADDRESS;
  }

  /** System call 33. */
  method SysMunmap(m: RamManager, addr: nat, pages: nat)
    requires m.Valid()
    modifies m.bitmap
    ensures (m.Map(), 0) == After(old(m.Map()), m.total, Munmap(addr, pages))
  {
    var start := addr / PAGE_SIZE;
    for i := 0 to pages
      invariant m.Map() == Cleared(old(m.Map()), m.total, start, i)
    {
      m.MarkFree(start + i);
    }
  }

  datatype FrameCall = Mmap(pages: nat) | Munmap(addr: nat, pages: nat)

  function Cleared(b: seq<bool>, total: nat, s: nat, n: nat): (r: seq<bool>)
    ensures |r| == |b|
    ensures forall i :: 0 <= i < |b| ==> r[i] == (b[i] && !(i < total && s <= i < s + n))
  {
    seq(|b|, i requires 0 <= i < |b| => b[i] && !(i < total && s <= i < s + n))
  }

  /** Bitmap and result after one call. */
  function After(b: seq<bool>, total: nat, call: FrameCall): (seq<bool>, nat) {
    match call
    case Mmap(n) =>
      var (c, r) := Taken(b, n, CountedFit(b, total, n));
      (c, if r.None? then NO_ADDRESS else r.value)
    case Munmap(addr, n) => (Cleared(b, total, addr / PAGE_SIZE, n), 0)
  }

  /** Unmapping a block right after it was mapped restores the bitmap, so the same request gets the same answer. */
  lemma UnmapRestores(b: seq<bool>, total: nat, n: nat)
    requires total <= |b|
    ensures var (c, addr) := After(b, total, Mmap(n));
            addr != NO_ADDRESS ==> After(c, total, Munmap(addr, n)).0 == b
  {
    var (c, addr) := After(b, total, Mmap(n));
    if addr != NO_ADDRESS {
      var s := CountedFit(b, total, n).value;
      assert addr / PAGE_SIZE == s;
      forall i | s <= i < s + n ensures !b[i] { assert !Used(b, total, i); }
    }
  }

  /** Mapping, unmapping and mapping again: the bitmap is back byte for byte in between, and the address is the same. */
  method MapAgain(m: RamManager, pages: nat) returns (first: nat, second: nat, ghost between: seq<bv8>)
    requires m.Valid()
    modifies m.bitmap
    ensures second == first && (m.Map(), first) == After(old(m.Map()), m.total, Mmap(pages))
    ensures between == old(m.bitmap[..])
  {
    first := SysMmap(m, pages);
    if first != NO_ADDRESS { SysMunmap(m, first, pages); }
    UnmapRestores(old(m.Map()), m.total, pages);
    BitsInjective(m.bitmap[..], old(m.bitmap[..]));
    between := m.bitmap[..];
    second := SysMmap(m, pages);
  }

  // -------------------------------------------------------------- whole runs

  ghost predicate FrameRun(states: seq<seq<bool>>, total: nat, calls: seq<FrameCall>, rets: seq<nat>) {
    && |states| == |calls| + 1 && |rets| == |calls| && total <= |states[0]|
    && forall i, j :: 0 <= i < |calls| && j == i + 1 ==> (states[j], rets[i]) == After(states[i], total, calls[i])
  }

  /** Any sequence of map and unmap calls is such a run. */
  method Serve(m: RamManager, calls: seq<FrameCall>) returns (rets: seq<nat>, ghost states: seq<seq<bool>>)
    requires m.Valid()
    modifies m.bitmap
    ensures FrameRun(states, m.total, calls, rets)
    ensures states[0] == old(m.Map()) && states[|calls|] == m.Map()
  {
    hide After;
    rets, states := [], [m.Map()];
    for k := 0 to |calls|
      invariant FrameRun(states, m.total, calls[..k], rets)
      invariant states[0] == old(m.Map()) && states[k] == m.Map()
    {
      ghost var (rets0, states0) := (rets, states);
      var ret := 0;
      match calls[k] {
        case Mmap(n) => ret := SysMmap(m, n);
        case Munmap(addr, n) => SysMunmap(m, addr, n);
      }
      rets, states := rets + [ret], states + [m.Map()];
      forall i, j | 0 <= i < k + 1 && j == i + 1
        ensures (states[j], rets[i]) == After(states[i], m.total, calls[..k + 1][i])
      {
        if i < k { assert (states0[j], rets0[i]) == After(states0[i], m.total, calls[..k][i]); }
      }
    }
    assert calls[..|calls|] == calls;
  }

  predicate InBlock(s: nat, n: nat, i: nat) { s <= i < s + n }

  ghost function Block(s: nat, n: nat): set<nat> { set i: nat | i < s + n && InBlock(s, n, i) }

  /** Sectors a call hands out. */
  ghost function Given(call: FrameCall, ret: nat): set<nat> {
    match call
    case Mmap(n) => if ret == NO_ADDRESS then {} else Block(ret / PAGE_SIZE, n)
    case Munmap(addr, n) => {}
  }

  ghost function Returned(call: FrameCall): set<nat> {
    match call
    case Mmap(n) => {}
    case Munmap(addr, n) => Block(addr / PAGE_SIZE, n)
  }

  /** Sectors outstanding after the first `k` calls. */
  ghost function Owned(calls: seq<FrameCall>, rets: seq<nat>, k: nat): set<nat>
    requires k <= |calls| == |rets|
  {
    if k == 0 then {} else Owned(calls, rets, k - 1) + Given(calls[k - 1], rets[k - 1]) - Returned(calls[k - 1])
  }

  /** Callers unmap only what they own. */
  ghost predicate Owed(calls: seq<FrameCall>, rets: seq<nat>)
    requires |calls| == |rets|
  {
    forall k :: 0 <= k < |calls| ==> Returned(calls[k]) <= Owned(calls, rets, k)
  }

  ghost function UsedSet(b: seq<bool>, total: nat): set<nat> { set i: nat | i < total && Used(b, total, i) }

  ghost function FreeSectors(b: seq<bool>, total: nat): set<nat> { set i: nat | i < total && !Used(b, total, i) }

  lemma MapTakesFree(b: seq<bool>, total: nat, n: nat)
    requires total <= |b|
    ensures var (c, ret) := After(b, total, Mmap(n));
            && |c| == |b| && Given(Mmap(n), ret) <= FreeSectors(b, total)
            && UsedSet(c, total) == UsedSet(b, total) + Given(Mmap(n), ret)
  {
    var (c, ret) := After(b, total, Mmap(n));
    var s := CountedFit(b, total, n);
    if s.Some? && s.value + n <= |b| {
      assert ret == s.value * PAGE_SIZE && ret != NO_ADDRESS && ret / PAGE_SIZE == s.value;
      forall i | i in Block(s.value, n) ensures i in FreeSectors(b, total) {
        assert !Used(b, total, i);
      }
      assert Given(Mmap(n), ret) == Block(s.value, n);
      forall i: nat | i < total ensures Used(c, total, i) == (Used(b, total, i) || InBlock(s.value, n, i)) {}
    }
  }

  lemma UnmapFrees(b: seq<bool>, total: nat, addr: nat, n: nat)
    requires total <= |b|
    ensures var (c, ret) := After(b, total, Munmap(addr, n));
            |c| == |b| && UsedSet(c, total) == UsedSet(b, total) - Returned(Munmap(addr, n))
  {
  }

  lemma OneCall(b: seq<bool>, total: nat, call: FrameCall)
    requires total <= |b|
    ensures var (c, ret) := After(b, total, call);
            && |c| == |b|
            && Given(call, ret) <= FreeSectors(b, total)
            && UsedSet(c, total) == UsedSet(b, total) + Given(call, ret) - Returned(call)
  {
    hide After;
    match call
    case Mmap(n) => MapTakesFree(b, total, n);
    case Munmap(addr, n) => UnmapFrees(b, total, addr, n);
  }

  lemma SetSteps(used0: set<nat>, owned: set<nat>, given: set<nat>, returned: set<nat>)
    requires owned !! used0 && returned <= owned && given !! used0
    ensures used0 + owned + given - returned == used0 + (owned + given - returned)
    ensures owned + given - returned !! used0
  {
  }

  lemma FreeIsNotUsed(b: seq<bool>, total: nat)
    ensures FreeSectors(b, total) !! UsedSet(b, total)
  {
  }

  /**
   * Over every run from boot, sectors in use are those reserved at the start and those outstanding, never both.
   */
  lemma {:induction false} Accounting(states: seq<seq<bool>>, total: nat, calls: seq<FrameCall>, rets: seq<nat>, k: nat)
    requires FrameRun(states, total, calls, rets) && Owed(calls, rets) && k <= |calls|
    ensures |states[k]| == |states[0]|
    ensures UsedSet(states[k], total) == UsedSet(states[0], total) + Owned(calls, rets, k)
    ensures Owned(calls, rets, k) !! UsedSet(states[0], total)
  {
    hide After;
    hide UsedSet;
    hide FreeSectors;
    hide Given;
    hide Returned;
    if k > 0 {
      Accounting(states, total, calls, rets, k - 1);
      var i, j := k - 1, k;
      assert (states[j], rets[i]) == After(states[i], total, calls[i]);
      OneCall(states[i], total, calls[i]);
      FreeIsNotUsed(states[i], total);
      SetSteps(UsedSet(states[0], total), Owned(calls, rets, i), Given(calls[i], rets[i]), Returned(calls[i]));
    } else {
      NothingOwned(states[0], total, calls, rets);
    }
  }

  lemma NothingOwned(b: seq<bool>, total: nat, calls: seq<FrameCall>, rets: seq<nat>)
    requires |calls| == |rets|
    ensures UsedSet(b, total) == UsedSet(b, total) + Owned(calls, rets, 0) && Owned(calls, rets, 0) == {}
  {
  }

  /** Free, outstanding and reserved sectors always add up to all of them. */
  lemma Conservation(states: seq<seq<bool>>, total: nat, calls: seq<FrameCall>, rets: seq<nat>, k: nat)
    requires FrameRun(states, total, calls, rets) && Owed(calls, rets) && k <= |calls|
    ensures |FreeSectors(states[k], total)| + |Owned(calls, rets, k)| + |UsedSet(states[0], total)| == total
  {
    hide After;
    hide Owned;
    Accounting(states, total, calls, rets, k);
    var o, u := Owned(calls, rets, k), UsedSet(states[0], total);
    FreeAndUsed(states[k], total);
    assert u + o == UsedSet(states[k], total) && |u + o| == |u| + |o|;
  }

  lemma FreeAndUsed(b: seq<bool>, total: nat)
    ensures |FreeSectors(b, total)| + |UsedSet(b, total)| == total
  {
    var f, u := FreeSectors(b, total), UsedSet(b, total);
    assert f + u == Block(0, total) && f !! u;
    BlockSize(total);
    assert |f + u| == |f| + |u|;
  }

  lemma {:induction false} BlockSize(n: nat)
    ensures |Block(0, n)| == n
  {
    if n == 0 {
    } else {
      BlockSize(n - 1);
      assert Block(0, n) == Block(0, n - 1) + {n - 1};
    }
  }

  /** What a call hands out was not outstanding: outstanding allocations are pairwise disjoint. */
  lemma HandedOutFresh(states: seq<seq<bool>>, total: nat, calls: seq<FrameCall>, rets: seq<nat>, k: nat)
    requires FrameRun(states, total, calls, rets) && Owed(calls, rets) && k < |calls|
    ensures Given(calls[k], rets[k]) !! Owned(calls, rets, k)
    ensures Given(calls[k], rets[k]) !! UsedSet(states[0], total)
    ensures forall i :: i in Given(calls[k], rets[k]) ==> i < total
  {
    Accounting(states, total, calls, rets, k);
    var j := k + 1;
    assert (states[j], rets[k]) == After(states[k], total, calls[k]);
    OneCall(states[k], total, calls[k]);
  }

  lemma {:induction false} StaysOwned(calls: seq<FrameCall>, rets: seq<nat>, i: nat, j: nat, x: nat)
    requires i <= j <= |calls| == |rets| && x in Owned(calls, rets, i)
    requires forall k :: i <= k < j ==> x !in Returned(calls[k])
    ensures x in Owned(calls, rets, j)
  {
    if i == j {
    } else {
      StaysOwned(calls, rets, i, j - 1, x);
    }
  }

  /** A sector is handed out a second time only if it was unmapped in between. */
  lemma NoDoubleHandout(states: seq<seq<bool>>, total: nat, calls: seq<FrameCall>, rets: seq<nat>, i: nat, j: nat,
                        x: nat)
    requires FrameRun(states, total, calls, rets) && Owed(calls, rets) && i < j < |calls|
    requires x in Given(calls[i], rets[i]) && x in Given(calls[j], rets[j])
    ensures exists k :: i < k < j && x in Returned(calls[k])
  {
    hide After;
    hide Block;
    hide UsedSet;
    if forall k :: i < k < j ==> x !in Returned(calls[k]) {
      assert x in Owned(calls, rets, i + 1);
      StaysOwned(calls, rets, i + 1, j, x);
      HandedOutFresh(states, total, calls, rets, j);
    }
  }

  // ------------------------------------------------ which pages are handed out

  /** Some run from bitmap `b`, its callers unmapping only what they own, hands out sector `x`. */
  ghost predicate HandsOut(b: seq<bool>, total: nat, x: nat) {
    exists states, calls, rets, k: nat ::
      FrameRun(states, total, calls, rets) && states[0] == b && Owed(calls, rets) && GivenAt(calls, rets, k, x)
  }

  ghost predicate GivenAt(calls: seq<FrameCall>, rets: seq<nat>, k: nat, x: nat) {
    k < |calls| == |rets| && x in Given(calls[k], rets[k])
  }

  /** While a sector is free, a request for one sector is met with some free sector. */
  lemma OneSector(b: seq<bool>, total: nat, x: nat) returns (s: nat)
    requires total <= |b| && x in FreeSectors(b, total)
    ensures s in FreeSectors(b, total)
    ensures var (c, ret) := After(b, total, Mmap(1));
            Given(Mmap(1), ret) == {s} && |c| == |b| && FreeSectors(c, total) == FreeSectors(b, total) - {s}
  {
    assert FreeRun(b, total, x, 1);
    s := CountedFit(b, total, 1).value;
    assert !Used(b, total, s);
    var (c, ret) := After(b, total, Mmap(1));
    assert ret == s * PAGE_SIZE && ret != NO_ADDRESS && ret / PAGE_SIZE == s;
    assert Given(Mmap(1), ret) == {s};
  }

  /** A call in front of a run. */
  lemma RunPrepended(b: seq<bool>, total: nat, call: FrameCall, c: seq<bool>, ret: nat,
                     states: seq<seq<bool>>, calls: seq<FrameCall>, rets: seq<nat>)
    requires total <= |b| && (c, ret) == After(b, total, call)
    requires FrameRun(states, total, calls, rets) && states[0] == c
    ensures FrameRun([b] + states, total, [call] + calls, [ret] + rets)
  {
    hide After;
    var states1, calls1, rets1 := [b] + states, [call] + calls, [ret] + rets;
    forall i, j | 0 <= i < |calls1| && j == i + 1
      ensures (states1[j], rets1[i]) == After(states1[i], total, calls1[i])
    {
      if i > 0 {
        var i0, j0 := i - 1, i;
        assert (states[j0], rets[i0]) == After(states[i0], total, calls[i0]);
      }
    }
  }

  /** Asking for one sector often enough reaches every free sector. */
  lemma {:induction false} ReachesFree(b: seq<bool>, total: nat, x: nat)
    returns (states: seq<seq<bool>>, calls: seq<FrameCall>, rets: seq<nat>, k: nat)
    requires total <= |b| && x in FreeSectors(b, total)
    ensures FrameRun(states, total, calls, rets) && states[0] == b && GivenAt(calls, rets, k, x)
    ensures forall i :: 0 <= i < |calls| ==> calls[i].Mmap?
    decreases |FreeSectors(b, total)|
  {
    hide After;
    hide FreeSectors;
    hide Given;
    var s := OneSector(b, total, x);
    var (c, ret) := After(b, total, Mmap(1));
    if s == x {
      states, calls, rets, k := [c], [], [], 0;
    } else {
      states, calls, rets, k := ReachesFree(c, total, x);
      k := k + 1;
    }
    RunPrepended(b, total, Mmap(1), c, ret, states, calls, rets);
    states, calls, rets := [b] + states, [Mmap(1)] + calls, [ret] + rets;
  }

  /** Over all runs, exactly the sectors free at the start are ever handed out. */
  lemma HandsOutFree(b: seq<bool>, total: nat, x: nat)
    requires total <= |b|
    ensures HandsOut(b, total, x) <==> x in FreeSectors(b, total)
  {
    hide After;
    if x in FreeSectors(b, total) {
      var states, calls, rets, k := ReachesFree(b, total, x);
      assert Owed(calls, rets);
    }
    if HandsOut(b, total, x) {
      var states, calls, rets, k: nat :|
        FrameRun(states, total, calls, rets) && states[0] == b && Owed(calls, rets) && GivenAt(calls, rets, k, x);
      HandedOutFresh(states, total, calls, rets, k);
    }
  }

  // ---------------------------------------------- pages and the firmware's map

  /** The bitmap is as boot leaves it. */
  ghost predicate Booted(b: seq<bool>, total: nat, descs: seq<MemDesc>) {
    total <= |b| && forall i: nat :: i < |b| ==> b[i] == !(i < total && Offered(descs, i))
  }

  /** Page `x` lies in a usable region of the memory map. */
  predicate InRegion(descs: seq<MemDesc>, x: nat) {
    exists d :: 0 <= d < |descs| && descs[d].ty == CONVENTIONAL && PageIn(descs[d], x * PAGE_SIZE)
  }

  predicate PageIn(desc: MemDesc, addr: nat) {
    desc.start <= addr && addr + PAGE_SIZE <= desc.start + desc.pages * PAGE_SIZE
  }

  /** The region is usable and boot takes it to begin on the page its start falls into, before that start. */
  predicate BeginsEarly(desc: MemDesc, total: nat) {
    && desc.ty == CONVENTIONAL && desc.pages > 0 && desc.start >= FIRST_USABLE
    && desc.start % PAGE_SIZE != 0 && desc.start / PAGE_SIZE < total
  }

  /** The page on which such a region is taken to begin belongs to some usable region after all. */
  predicate StartsCovered(descs: seq<MemDesc>, total: nat) {
    forall d :: 0 <= d < |descs| && BeginsEarly(descs[d], total) ==> InRegion(descs, descs[d].start / PAGE_SIZE)
  }

  lemma OfferedInside(desc: MemDesc, total: nat, x: nat)
    requires OfferedBy(desc, desc.pages, x) && x < total
    ensures x * PAGE_SIZE >= FIRST_USABLE
    ensures PageIn(desc, x * PAGE_SIZE) || (BeginsEarly(desc, total) && x == desc.start / PAGE_SIZE)
  {
    assert desc.start == desc.start / PAGE_SIZE * PAGE_SIZE + desc.start % PAGE_SIZE;
  }

  lemma InsideOffered(desc: MemDesc, x: nat)
    requires desc.ty == CONVENTIONAL && PageIn(desc, x * PAGE_SIZE) && x * PAGE_SIZE >= FIRST_USABLE
    ensures OfferedBy(desc, desc.pages, x)
  {
    assert desc.start == desc.start / PAGE_SIZE * PAGE_SIZE + desc.start % PAGE_SIZE;
  }

  /**
   * Every page handed out after boot is at or above 0x4000000, and every page of a usable region from there on, below
   * the total, can be handed out. All pages handed out, over all runs, lie in usable regions if and only if the memory
   * map meets `StartsCovered`.
   */
  lemma HandedOutUsable(descs: seq<MemDesc>, b: seq<bool>, total: nat)
    requires Booted(b, total, descs)
    ensures forall x: nat :: HandsOut(b, total, x) ==> x < total && x * PAGE_SIZE >= 0x400_0000
    ensures forall x: nat :: x < total && InRegion(descs, x) && x * PAGE_SIZE >= 0x400_0000 ==> HandsOut(b, total, x)
    ensures (forall x: nat :: HandsOut(b, total, x) ==> InRegion(descs, x)) <==> StartsCovered(descs, total)
  {
    hide HandsOut;
    forall x: nat | HandsOut(b, total, x)
      ensures x < total && x * PAGE_SIZE >= FIRST_USABLE
      ensures StartsCovered(descs, total) ==> InRegion(descs, x)
    {
      HandsOutFree(b, total, x);
      assert Offered(descs, x);
      var d :| 0 <= d < |descs| && OfferedBy(descs[d], descs[d].pages, x);
      OfferedInside(descs[d], total, x);
    }
    forall x: nat | x < total && InRegion(descs, x) && x * PAGE_SIZE >= FIRST_USABLE ensures HandsOut(b, total, x) {
      var d :| 0 <= d < |descs| && descs[d].ty == CONVENTIONAL && PageIn(descs[d], x * PAGE_SIZE);
      InsideOffered(descs[d], x);
      HandsOutFree(b, total, x);
    }
    forall d | 0 <= d < |descs| && BeginsEarly(descs[d], total) ensures HandsOut(b, total, descs[d].start / PAGE_SIZE) {
      var x := descs[d].start / PAGE_SIZE;
      assert OfferedBy(descs[d], descs[d].pages, x);
      HandsOutFree(b, total, x);
    }
  }

  /** With usable regions on page boundaries every page handed out lies in a usable region. */
  lemma HandedOutInside(descs: seq<MemDesc>, b: seq<bool>, total: nat, x: nat)
    requires Booted(b, total, descs) && HandsOut(b, total, x)
    requires forall d :: 0 <= d < |descs| && descs[d].ty == CONVENTIONAL ==> descs[d].start % PAGE_SIZE == 0
    ensures InRegion(descs, x)
  {
    hide HandsOut;
    HandedOutUsable(descs, b, total);
  }

  /** A map that does not meet the condition: the first page handed out begins before the only region. */
  lemma UnalignedRegion(b: seq<bool>, descs: seq<MemDesc>)
    requires descs == [MemDesc(CONVENTIONAL, 0x400_0800, 0x8000)] && |b| == 0x8000 && Booted(b, 0x8000, descs)
    ensures After(b, 0x8000, Mmap(1)).1 == 0x400_0000 && HandsOut(b, 0x8000, 0x4000) && !InRegion(descs, 0x4000)
  {
    hide HandsOut;
    assert OfferedBy(descs[0], descs[0].pages, 0x4000);
    assert forall i: nat :: i < 0x4000 ==> !OfferedBy(descs[0], descs[0].pages, i);
    forall k: nat | k < 0x4000 ensures Used(b, 0x8000, k) {}
    FirstFitAt(b, 0x8000, 1, 1, 0, 0x4000);
    HandsOutFree(b, 0x8000, 0x4000);
  }
}
