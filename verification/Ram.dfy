// The physical frame allocator: a bitmap with one bit per 4 KiB sector, set when the sector is used.
module Ram {
  import opened Bytes

  const PAGE_SIZE: nat := 4096
  const NO_ADDRESS: nat := 0xFFFF_FFFF_FFFF_FFFF

  function Mask(k: nat): bv8
    requires k < 8
  {
    match k
    case 0 => 1
    case 1 => 2
    case 2 => 4
    case 3 => 8
    case 4 => 16
    case 5 => 32
    case 6 => 64
    case 7 => 128
  }

  /** The masks are the powers of two: sector `8 * i + k` is bit `k` of byte `i`, counted from the lowest. */
  lemma MaskIsShift(k: nat)
    requires k < 8
    ensures Mask(k) == 1 << k
  {
  }

  predicate BitAt(v: bv8, k: nat)
    requires k < 8
  {
    v & Mask(k) != 0
  }

  lemma SetBit(v: bv8, j: nat, k: nat)
    requires j < 8 && k < 8
    ensures BitAt(v | Mask(j), k) == (j == k || BitAt(v, k))
  {
  }

  lemma ClearBit(v: bv8, j: nat, k: nat)
    requires j < 8 && k < 8
    ensures BitAt(v & !Mask(j), k) == (j != k && BitAt(v, k))
  {
  }

  lemma SameBits(v: bv8, w: bv8)
    requires forall k :: 0 <= k < 8 ==> BitAt(v, k) == BitAt(w, k)
    ensures v == w
  {
    assert BitAt(v, 0) == BitAt(w, 0) && BitAt(v, 1) == BitAt(w, 1);
    assert BitAt(v, 2) == BitAt(w, 2) && BitAt(v, 3) == BitAt(w, 3);
    assert BitAt(v, 4) == BitAt(w, 4) && BitAt(v, 5) == BitAt(w, 5);
    assert BitAt(v, 6) == BitAt(w, 6) && BitAt(v, 7) == BitAt(w, 7);
  }

  /** The bitmap bytes as one bit per sector, lowest bit first. */
  function Bits(s: seq<bv8>): (b: seq<bool>)
    ensures |b| == 8 * |s|
    ensures forall i :: 0 <= i < |b| ==> b[i] == BitAt(s[i / 8], i % 8)
  {
    seq(8 * |s|, i requires 0 <= i < 8 * |s| => BitAt(s[i / 8], i % 8))
  }

  /** Two bitmaps with the same bits have the same bytes. */
  lemma BitsInjective(s: seq<bv8>, t: seq<bv8>)
    requires Bits(s) == Bits(t)
    ensures s == t
  {
    assert 8 * |s| == 8 * |t|;
    forall i | 0 <= i < |s| ensures s[i] == t[i] {
      forall k | 0 <= k < 8 ensures BitAt(s[i], k) == BitAt(t[i], k) {
        var at := 8 * i + k;
        assert at / 8 == i && at % 8 == k;
        assert Bits(s)[at] == Bits(t)[at];
      }
      SameBits(s[i], t[i]);
    }
  }

  lemma BitsUpdate(s: seq<bv8>, i: nat, v: bv8, bit: bool)
    requires i < 8 * |s|
    requires forall k :: 0 <= k < 8 ==> BitAt(v, k) == if k == i % 8 then bit else BitAt(s[i / 8], k)
    ensures Bits(s[i / 8 := v]) == Bits(s)[i := bit]
  {
    var t := s[i / 8 := v];
    forall j | 0 <= j < 8 * |s| ensures Bits(t)[j] == Bits(s)[i := bit][j] {
      if j / 8 == i / 8 && j % 8 == i % 8 { assert j == i; }
    }
  }

  // ---------------------------------------------------------------- first fit

  /** Sectors past the end count as used. */
  predicate Used(b: seq<bool>, total: nat, i: nat) {
    i >= total || i >= |b| || b[i]
  }

  predicate FreeRun(b: seq<bool>, total: nat, s: nat, n: nat) {
    forall i :: s <= i < s + n ==> !Used(b, total, i)
  }

  /** Naive first fit: the lowest start at or above `from` of `n` free sectors whose address `align` divides. */
  function FirstFit(b: seq<bool>, total: nat, n: nat, align: nat, from: nat): (r: Option<nat>)
    requires align > 0
    ensures r.Some? ==> from <= r.value < total && r.value + n <= total
    ensures r.Some? ==> FreeRun(b, total, r.value, n) && !Used(b, total, r.value) && r.value * PAGE_SIZE % align == 0
    ensures r.Some? ==>
              forall s :: from <= s < r.value && s * PAGE_SIZE % align == 0 && !Used(b, total, s) ==>
                !FreeRun(b, total, s, n)
    ensures r.None? ==>
              forall s :: from <= s && s * PAGE_SIZE % align == 0 && !Used(b, total, s) ==> !FreeRun(b, total, s, n)
    decreases total - from
  {
    if from >= total then None
    else if !Used(b, total, from) && from * PAGE_SIZE % align == 0 && FreeRun(b, total, from, n) then
      (RunInside(b, total, from, n); Some(from))
    else FirstFit(b, total, n, align, from + 1)
  }

  /** `b` with sectors `s`..`s + n` set to `v`. */
  function Fill(b: seq<bool>, s: nat, n: nat, v: bool): (r: seq<bool>)
    requires s + n <= |b|
    ensures |r| == |b|
    ensures forall i :: 0 <= i < |b| ==> r[i] == if s <= i < s + n then v else b[i]
  {
    Splice(b, s, seq(n, _ => v))
  }

  /** Where the run counter looks: a request for no sectors never succeeds. */
  function CountedFit(b: seq<bool>, total: nat, n: nat): Option<nat> {
    if n == 0 then None else FirstFit(b, total, n, 1, 0)
  }

  /** Bitmap and answer after `n` sectors from the chosen start on are taken. */
  function Taken(b: seq<bool>, n: nat, start: Option<nat>): (seq<bool>, Option<nat>) {
    if start.None? || start.value + n > |b| then (b, None)
    else (Fill(b, start.value, n, true), Some(start.value * PAGE_SIZE))
  }

  lemma DividesMultiple(a: nat, k: nat)
    requires a > 0 && PAGE_SIZE % a == 0
    ensures k * PAGE_SIZE % a == 0
  {
    var q := PAGE_SIZE / a;
    assert PAGE_SIZE == a * q;
    assert k * PAGE_SIZE == a * (k * q);
    MultipleMod(a, k * q, k * PAGE_SIZE);
  }

  lemma MultipleMod(a: nat, m: nat, x: nat)
    requires a > 0 && x == a * m
    ensures x % a == 0
  {
    var d := m - x / a;
    assert x == a * (x / a) + x % a;
    assert a * d == x % a;
    assert d >= 1 ==> a * d >= a;
    assert d <= -1 ==> a * d <= 0 - a;
  }

  /** An alignment that divides the page size changes nothing. */
  lemma {:induction false} AlignmentWithinPage(b: seq<bool>, total: nat, n: nat, align: nat, from: nat)
    requires align > 0 && PAGE_SIZE % align == 0
    ensures FirstFit(b, total, n, align, from) == FirstFit(b, total, n, 1, from)
    decreases total - from
  {
    if from >= total {
    } else {
      DividesMultiple(align, from);
      AlignmentWithinPage(b, total, n, align, from + 1);
    }
  }

  /**
   * For an alignment that divides the page size the two allocators give the same answer and the same bitmap if and
   * only if at least one sector is asked for, or none is free.
   */
  lemma AllocatorsAgree(b: seq<bool>, total: nat, n: nat, align: nat)
    requires total <= |b| && align > 0 && PAGE_SIZE % align == 0
    ensures Taken(b, n, FirstFit(b, total, n, align, 0)) == Taken(b, n, CountedFit(b, total, n))
       <==> n >= 1 || forall i :: 0 <= i < total ==> Used(b, total, i)
  {
    AlignmentWithinPage(b, total, n, align, 0);
    if n == 0 && FirstFit(b, total, 0, 1, 0).None? {
      forall i | 0 <= i < total ensures Used(b, total, i) { assert FreeRun(b, total, i, 0); }
    }
  }

  /** First fit found at `s`, given that no start before `s` works. */
  lemma {:induction false} FirstFitAt(b: seq<bool>, total: nat, n: nat, align: nat, from: nat, s: nat)
    requires align > 0 && from <= s < total && !Used(b, total, s) && s * PAGE_SIZE % align == 0
    requires FreeRun(b, total, s, n)
    requires NoFit(b, total, n, align, from, s)
    ensures FirstFit(b, total, n, align, from) == Some(s)
    decreases s - from
  {
    if from == s {
    } else {
      FirstFitAt(b, total, n, align, from + 1, s);
    }
  }

  /** No start in `lo`..`hi` works. */
  ghost predicate NoFit(b: seq<bool>, total: nat, n: nat, align: nat, lo: nat, hi: nat)
    requires align > 0
  {
    forall k :: lo <= k < hi && k * PAGE_SIZE % align == 0 && !Used(b, total, k) ==> !FreeRun(b, total, k, n)
  }

  lemma SearchStart(b: seq<bool>, total: nat, n: nat, align: nat, s: nat)
    requires align > 0
    ensures NoFit(b, total, n, align, s, s) && FreeRun(b, total, s, 0)
  {
  }

  lemma NoFitNext(b: seq<bool>, total: nat, n: nat, align: nat, i: nat)
    requires align > 0 && NoFit(b, total, n, align, 0, i)
    requires i * PAGE_SIZE % align == 0 && !Used(b, total, i) ==> !FreeRun(b, total, i, n)
    ensures NoFit(b, total, n, align, 0, i + 1)
  {
  }

  /** A used sector rules out every start whose run would cover it. */
  lemma NoFitPastUsed(b: seq<bool>, total: nat, n: nat, lo: nat, i: nat)
    requires NoFit(b, total, n, 1, 0, lo) && lo <= i < lo + n && Used(b, total, i)
    ensures NoFit(b, total, n, 1, 0, i + 1)
  {
    forall k | lo <= k < i + 1 && !Used(b, total, k) ensures !FreeRun(b, total, k, n) {
      assert k <= i < k + n;
    }
  }

  lemma RunInside(b: seq<bool>, total: nat, s: nat, n: nat)
    requires FreeRun(b, total, s, n) && s < total
    ensures s + n <= total
  {
    if n > 0 { assert !Used(b, total, s + n - 1); }
  }

  lemma FreeRunGrows(b: seq<bool>, total: nat, s: nat, n: nat)
    requires FreeRun(b, total, s, n) && !Used(b, total, s + n)
    ensures FreeRun(b, total, s, n + 1)
  {
  }

  /** The unfinished run at the end of the bitmap is too short, and no later start is left. */
  lemma NoFitAtEnd(b: seq<bool>, total: nat, n: nat, lo: nat)
    requires NoFit(b, total, n, 1, 0, lo) && lo <= total < lo + n
    ensures NoFit(b, total, n, 1, 0, total)
  {
    forall k | lo <= k < total && !Used(b, total, k) ensures !FreeRun(b, total, k, n) {
      assert k <= total < k + n && Used(b, total, total);
    }
  }

  lemma {:induction false} FirstFitNone(b: seq<bool>, total: nat, n: nat, align: nat, from: nat)
    requires align > 0 && NoFit(b, total, n, align, from, total)
    ensures FirstFit(b, total, n, align, from) == None
    decreases total - from
  {
    if from >= total {
    } else {
      FirstFitNone(b, total, n, align, from + 1);
    }
  }

  /** What the run counter knows before sector `i`: the last `run` sectors are free, and no earlier start works. */
  ghost predicate Counting(b: seq<bool>, total: nat, n: nat, i: nat, run: nat) {
    && run <= i && (n > 0 ==> run < n)
    && FreeRun(b, total, i - run, run)
    && (n > 0 ==> NoFit(b, total, n, 1, 0, i - run))
  }

  lemma CountStart(b: seq<bool>, total: nat, n: nat)
    ensures Counting(b, total, n, 0, 0)
  {
  }

  lemma CountFree(b: seq<bool>, total: nat, n: nat, i: nat, run: nat)
    requires Counting(b, total, n, i, run) && i < total <= |b| && !Used(b, total, i)
    ensures run <= i
    ensures run + 1 != n ==> Counting(b, total, n, i + 1, run + 1)
    ensures run + 1 == n ==> i - run + n <= total
    ensures run + 1 == n ==>
              Taken(b, n, CountedFit(b, total, n)) == (Fill(b, i - run, n, true), Some((i - run) * PAGE_SIZE))
  {
    FreeRunGrows(b, total, i - run, run);
    if run + 1 == n {
      assert !Used(b, total, i - run);
      FirstFitAt(b, total, n, 1, 0, i - run);
    }
  }

  lemma CountUsed(b: seq<bool>, total: nat, n: nat, i: nat, run: nat)
    requires Counting(b, total, n, i, run) && Used(b, total, i)
    ensures Counting(b, total, n, i + 1, 0)
  {
    if n > 0 { NoFitPastUsed(b, total, n, i - run, i); }
  }

  lemma CountEnd(b: seq<bool>, total: nat, n: nat, run: nat)
    requires Counting(b, total, n, total, run)
    ensures Taken(b, n, CountedFit(b, total, n)) == (b, None)
  {
    if n > 0 {
      NoFitAtEnd(b, total, n, total - run);
      FirstFitNone(b, total, n, 1, 0);
    }
  }

  // ------------------------------------------------------------------ manager

  class RamManager {
    const bitmap: array<bv8>
    const total: nat

    ghost predicate Valid() { bitmap.Length == (total + 7) / 8 }

    /** Every bit of the bitmap, the unused ones of the last byte included. */
    ghost function Map(): (b: seq<bool>)
      reads bitmap
      ensures |b| == 8 * bitmap.Length
    {
      Bits(bitmap[..])
    }

    constructor (totalRam: nat)
      ensures Valid() && fresh(bitmap) && total == totalRam / PAGE_SIZE
      ensures forall i :: 0 <= i < |Map()| ==> Map()[i]
    {
      var sectors := totalRam / PAGE_SIZE;
      total := sectors;
      bitmap := new bv8[(sectors + 7) / 8];
      new;
      for i := 0 to bitmap.Length
        invariant forall j :: 0 <= j < i ==> bitmap[j] == 0xFF
      {
        bitmap[i] := 0xFF;
      }
    }

    method MarkUsed(i: nat)
      requires Valid()
      modifies bitmap
      ensures Map() == if i < total then old(Map())[i := true] else old(Map())
    {
      if i >= total { return; }
      var val := bitmap[i / 8];
      forall k | 0 <= k < 8 ensures BitAt(val | Mask(i % 8), k) == (k == i % 8 || BitAt(val, k)) {
        SetBit(val, i % 8, k);
      }
      BitsUpdate(bitmap[..], i, val | Mask(i % 8), true);
      bitmap[i / 8] := val | Mask(i % 8);
      assert bitmap[..] == old(bitmap[..])[i / 8 := val | Mask(i % 8)];
    }

    method MarkFree(i: nat)
      requires Valid()
      modifies bitmap
      ensures Map() == if i < total then old(Map())[i := false] else old(Map())
    {
      if i >= total { return; }
      var val := bitmap[i / 8];
      forall k | 0 <= k < 8 ensures BitAt(val & !Mask(i % 8), k) == (k != i % 8 && BitAt(val, k)) {
        ClearBit(val, i % 8, k);
      }
      BitsUpdate(bitmap[..], i, val & !Mask(i % 8), false);
      bitmap[i / 8] := val & !Mask(i % 8);
      assert bitmap[..] == old(bitmap[..])[i / 8 := val & !Mask(i % 8)];
    }

    method IsUsed(i: nat) returns (used: bool)
      requires Valid()
      ensures used == Used(Map(), total, i)
    {
      if i >= total { return true; }
      assert Map()[i] == BitAt(bitmap[i / 8], i % 8);
      used := bitmap[i / 8] & Mask(i % 8) != 0;
    }

    method MarkRun(s: nat, n: nat)
      requires Valid() && s + n <= total
      modifies bitmap
      ensures Map() == Fill(old(Map()), s, n, true)
    {
      for j := 0 to n
        invariant Map() == Fill(old(Map()), s, j, true)
      {
        MarkUsed(s + j);
      }
    }

    /** Searches with a running count of consecutive free sectors; a request for none never succeeds. */
    method AllocateSectors(n: nat) returns (r: Option<nat>)
      requires Valid()
      modifies bitmap
      ensures (Map(), r) == Taken(old(Map()), n, CountedFit(old(Map()), total, n))
    {
      hide Counting;
      hide FirstFit;
      hide Taken;
      hide Fill;
      ghost var b := Map();
      var consecutive: nat := 0;
      var start: nat := 0;
      CountStart(b, total, n);
      for i := 0 to total
        invariant Map() == b
        invariant Counting(b, total, n, i, consecutive)
        invariant consecutive > 0 ==> start == i - consecutive
      {
        var used := IsUsed(i);
        if !used {
          if consecutive == 0 { start := i; }
          CountFree(b, total, n, i, consecutive);
          consecutive := consecutive + 1;
          if consecutive == n {
            MarkRun(start, n);
            return Some(start * PAGE_SIZE);
          }
        } else {
          CountUsed(b, total, n, i, consecutive);
          consecutive := 0;
        }
      }
      CountEnd(b, total, n, consecutive);
      return None;
    }

    /** Tries every aligned free sector in turn. */
    method AllocateAligned(n: nat, alignment: nat) returns (r: Option<nat>)
      requires Valid() && alignment > 0
      modifies bitmap
      ensures (Map(), r) == Taken(old(Map()), n, FirstFit(old(Map()), total, n, alignment, 0))
    {
      hide NoFit;
      hide FreeRun;
      hide FirstFit;
      ghost var b := Map();
      SearchStart(b, total, n, alignment, 0);
      for i := 0 to total
        invariant Map() == b
        invariant NoFit(b, total, n, alignment, 0, i)
      {
        var addr := i * PAGE_SIZE;
        var used := IsUsed(i);
        if !used && addr % alignment == 0 {
          var fit := Fits(i, n);
          if fit {
            FirstFitAt(b, total, n, alignment, 0, i);
            RunInside(b, total, i, n);
            MarkRun(i, n);
            return Some(addr);
          }
        }
        NoFitNext(b, total, n, alignment, i);
      }
      FirstFitNone(b, total, n, alignment, 0);
      return None;
    }

    method Fits(i: nat, n: nat) returns (fit: bool)
      requires Valid()
      ensures fit == FreeRun(Map(), total, i, n)
    {
      fit := true;
      for j := 0 to n
        invariant FreeRun(Map(), total, i, j)
      {
        var taken := IsUsed(i + j);
        if taken { return false; }
      }
    }
  }
}
