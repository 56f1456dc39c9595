// The file allocation table as one flat array of 32-bit entries, and the cluster chains in it.
module Fat {
  import opened Bytes

  // Low 28 bits at or above this value end a chain.
  const END_OF_CHAIN: nat := 0x0FFF_FFF8
  const LAST: nat := 0x0FFF_FFFF

  function Low28(v: nat): nat { v % 0x1000_0000 }

  function Top4(v: nat): nat { v / 0x1000_0000 }

  /** `value` stored in an entry: its low 28 bits replace those of `before`, the top 4 bits of `before` stay. */
  function Stored(before: nat, value: nat): (r: nat)
    ensures Low28(r) == Low28(value) && Top4(r) == Top4(before)
    ensures before < 0x1_0000_0000 ==> r < 0x1_0000_0000
  {
    Top4(before) * 0x1000_0000 + Low28(value)
  }

  ghost predicate FatOk(fat: seq<nat>) {
    |fat| <= 0x0FFF_FFF7
  }

  /** The cluster after `c`; None at the end of a chain and also on a free entry. */
  function Next(fat: seq<nat>, c: nat): Option<nat>
    requires c < |fat|
  {
    var n := Low28(fat[c]);
    if n < END_OF_CHAIN && n != 0 then Some(n) else None
  }

  predicate IsFree(fat: seq<nat>, c: nat) {
    2 <= c < |fat| && Low28(fat[c]) == 0
  }

  ghost function FreeSet(fat: seq<nat>): set<nat> {
    set c: nat | c < |fat| && IsFree(fat, c)
  }

  /** The lowest free cluster at or above `from`. */
  function LowestFree(fat: seq<nat>, from: nat): (r: Option<nat>)
    ensures r.Some? ==> from <= r.value && IsFree(fat, r.value)
    ensures r.Some? ==> forall c: nat :: from <= c < r.value ==> !IsFree(fat, c)
    ensures r.None? ==> forall c: nat :: from <= c ==> !IsFree(fat, c)
    decreases |fat| - from
  {
    if from >= |fat| then None
    else if IsFree(fat, from) then Some(from)
    else LowestFree(fat, from + 1)
  }

  // ---------------------------------------------------------------- chains

  /** `cs` is exactly what repeated `Next` visits from `cs[0]`. */
  ghost predicate Linked(fat: seq<nat>, cs: seq<nat>) {
    && |cs| > 0
    && (forall i :: 0 <= i < |cs| ==> 2 <= cs[i] < |fat|)
    && (forall i, j :: 0 <= i && j == i + 1 < |cs| ==> Next(fat, cs[i]) == Some(cs[j]))
    && Next(fat, cs[|cs| - 1]) == None
  }

  lemma NextInChain(fat: seq<nat>, cs: seq<nat>, i: nat)
    requires Linked(fat, cs) && i + 1 < |cs|
    ensures cs[i] < |fat| && Next(fat, cs[i]) == Some(cs[i + 1])
  {
    var j := i + 1;
    assert cs[j] == cs[i + 1];
  }

  ghost predicate Occupied(fat: seq<nat>, cs: seq<nat>)
    requires forall i :: 0 <= i < |cs| ==> 2 <= cs[i] < |fat|
  {
    forall i :: 0 <= i < |cs| ==> Low28(fat[cs[i]]) != 0
  }

  lemma LinkedSuffix(fat: seq<nat>, cs: seq<nat>, k: nat)
    requires Linked(fat, cs) && k < |cs|
    ensures Linked(fat, cs[k..])
  {
    var t := cs[k..];
    forall i, j | 0 <= i && j == i + 1 < |t| ensures Next(fat, t[i]) == Some(t[j]) {
      assert t[i] == cs[k + i] && t[j] == cs[k + j];
    }
    assert t[|t| - 1] == cs[|cs| - 1];
  }

  /** A chain is determined by the table and its first cluster. */
  lemma {:induction false} ChainUnique(fat: seq<nat>, a: seq<nat>, b: seq<nat>)
    requires Linked(fat, a) && Linked(fat, b) && a[0] == b[0]
    ensures a == b
    decreases |a|
  {
    assert |a| > 1 ==> Next(fat, a[0]) == Some(a[1]);
    assert |b| > 1 ==> Next(fat, b[0]) == Some(b[1]);
    if |a| == 1 || |b| == 1 {
    } else {
      LinkedSuffix(fat, a, 1);
      LinkedSuffix(fat, b, 1);
      ChainUnique(fat, a[1..], b[1..]);
      assert a == [a[0]] + a[1..] && b == [b[0]] + b[1..];
    }
  }

  /** A chain that ends never repeats a cluster. */
  lemma LinkedAcyclic(fat: seq<nat>, cs: seq<nat>, i: nat, j: nat)
    requires Linked(fat, cs) && i < |cs| && j < |cs| && cs[i] == cs[j]
    ensures i == j
  {
    LinkedSuffix(fat, cs, i);
    LinkedSuffix(fat, cs, j);
    ChainUnique(fat, cs[i..], cs[j..]);
  }

  /** What follows the first `k` clusters of a chain is not among them. */
  lemma TailApart(fat: seq<nat>, cs: seq<nat>, k: nat, c: nat)
    requires Linked(fat, cs) && k <= |cs| && c in cs[k..]
    ensures c !in cs[..k]
  {
    if c in cs[..k] {
      var i :| 0 <= i < k && cs[i] == c;
      var j :| k <= j < |cs| && cs[j] == c;
      LinkedAcyclic(fat, cs, i, j);
    }
  }

  /** Two chains that meet anywhere share everything from there on. */
  lemma ChainsMerge(fat: seq<nat>, a: seq<nat>, b: seq<nat>, i: nat, j: nat)
    requires Linked(fat, a) && Linked(fat, b) && i < |a| && j < |b| && a[i] == b[j]
    ensures a[i..] == b[j..]
  {
    LinkedSuffix(fat, a, i);
    LinkedSuffix(fat, b, j);
    ChainUnique(fat, a[i..], b[j..]);
  }

  ghost predicate Disjoint(chains: map<nat, seq<nat>>) {
    forall h1, h2, c | h1 in chains && h2 in chains && c in chains[h1] && c in chains[h2] :: h1 == h2
  }

  /** Every recorded chain starts at its key, is linked, occupied, and shares no cluster with another. */
  ghost predicate ChainsOk(fat: seq<nat>, chains: map<nat, seq<nat>>) {
    && (forall h | h in chains :: Linked(fat, chains[h]) && Occupied(fat, chains[h]) && chains[h][0] == h)
    && Disjoint(chains)
  }

  // ------------------------------------------------------- growing a chain

  /** The table after the first of the two stores that append `extra` to the chain ending in `last`. */
  function AfterLink(fat: seq<nat>, last: nat, extra: nat): (r: seq<nat>)
    requires last < |fat|
    ensures |r| == |fat|
  {
    fat[last := Stored(fat[last], extra)]
  }

  /** The table after both stores. */
  function AfterAppend(fat: seq<nat>, last: nat, extra: nat): (r: seq<nat>)
    requires last < |fat| && extra < |fat|
    ensures |r| == |fat|
  {
    var linked := AfterLink(fat, last, extra);
    linked[extra := Stored(linked[extra], LAST)]
  }

  /** Whoever follows the chain between the two stores already sees it extended and ended. */
  lemma LinkedBetweenStores(fat: seq<nat>, cs: seq<nat>, extra: nat)
    requires FatOk(fat) && Linked(fat, cs) && Occupied(fat, cs) && IsFree(fat, extra)
    ensures Linked(AfterLink(fat, cs[|cs| - 1], extra), cs + [extra])
  {
    var last := cs[|cs| - 1];
    var mid := AfterLink(fat, last, extra);
    var more := cs + [extra];
    forall i, j | 0 <= i && j == i + 1 < |more| ensures Next(mid, more[i]) == Some(more[j]) {
      if j < |cs| {
        assert Next(fat, cs[i]) == Some(cs[j]);
      }
    }
  }

  lemma LinkElsewhere(fat: seq<nat>, cs: seq<nat>, last: nat, extra: nat)
    requires Linked(fat, cs) && last < |fat| && last !in cs
    ensures Linked(AfterLink(fat, last, extra), cs)
  {
    var mid := AfterLink(fat, last, extra);
    assert forall i :: 0 <= i < |cs| ==> mid[cs[i]] == fat[cs[i]];
  }

  /** Between the stores the growing chain already ends in the new cluster, and all others are as they were. */
  lemma BetweenStores(fat: seq<nat>, chains: map<nat, seq<nat>>, h: nat, extra: nat, k: nat)
    requires FatOk(fat) && ChainsOk(fat, chains) && h in chains && k in chains && IsFree(fat, extra)
    ensures var cs := chains[h]; Linked(AfterLink(fat, cs[|cs| - 1], extra), if k == h then cs + [extra] else chains[k])
  {
    hide Next;
    hide AfterLink;
    var cs := chains[h];
    var last := cs[|cs| - 1];
    if k == h {
      LinkedBetweenStores(fat, cs, extra);
    } else {
      assert last in cs && last !in chains[k];
      LinkElsewhere(fat, chains[k], last, extra);
    }
  }

  lemma LinkedAfterAppend(fat: seq<nat>, cs: seq<nat>, extra: nat)
    requires FatOk(fat) && Linked(fat, cs) && Occupied(fat, cs) && IsFree(fat, extra)
    ensures Linked(AfterAppend(fat, cs[|cs| - 1], extra), cs + [extra])
    ensures Occupied(AfterAppend(fat, cs[|cs| - 1], extra), cs + [extra])
  {
    var last := cs[|cs| - 1];
    var mid := AfterLink(fat, last, extra);
    var done := AfterAppend(fat, last, extra);
    var more := cs + [extra];
    LinkedBetweenStores(fat, cs, extra);
    forall i, j | 0 <= i && j == i + 1 < |more| ensures Next(done, more[i]) == Some(more[j]) {
      assert more[i] == cs[i];
      assert Next(mid, more[i]) == Some(more[j]);
    }
  }

  /** The stores leave a chain alone that owns neither cluster. */
  lemma LinkedElsewhere(fat: seq<nat>, cs: seq<nat>, last: nat, extra: nat)
    requires Linked(fat, cs) && Occupied(fat, cs) && last < |fat| && extra < |fat|
    requires last !in cs && extra !in cs
    ensures Linked(AfterAppend(fat, last, extra), cs) && Occupied(AfterAppend(fat, last, extra), cs)
  {
    var done := AfterAppend(fat, last, extra);
    assert forall i :: 0 <= i < |cs| ==> done[cs[i]] == fat[cs[i]];
  }

  /** Appending a free cluster to one chain keeps the whole table well formed, with one free cluster less. */
  lemma AppendKeepsChains(fat: seq<nat>, chains: map<nat, seq<nat>>, h: nat, extra: nat)
    requires FatOk(fat) && ChainsOk(fat, chains) && h in chains && IsFree(fat, extra)
    ensures var cs := chains[h]; var done := AfterAppend(fat, cs[|cs| - 1], extra);
            && ChainsOk(done, chains[h := cs + [extra]])
            && FreeSet(done) == FreeSet(fat) - {extra}
  {
    var cs := chains[h];
    var last := cs[|cs| - 1];
    var done := AfterAppend(fat, last, extra);
    var after := chains[h := cs + [extra]];
    LinkedAfterAppend(fat, cs, extra);
    assert last in cs;
    forall k | k in chains ensures extra !in chains[k] {
      assert Occupied(fat, chains[k]);
    }
    forall k | k in after ensures Linked(done, after[k]) && Occupied(done, after[k]) && after[k][0] == k {
      if k != h { LinkedElsewhere(fat, chains[k], last, extra); }
    }
    forall h1, h2, c | h1 in after && h2 in after && c in after[h1] && c in after[h2] ensures h1 == h2 {
      if c != extra { assert c in chains[h1] && c in chains[h2]; }
    }
    forall c: nat | c < |fat| ensures IsFree(done, c) <==> (IsFree(fat, c) && c != extra) {
      if c == last { assert Low28(fat[last]) != 0; }
    }
  }

  /**
   * From (f0, ch0) to (f1, ch1) chain `h` grew by clusters that were free, each growth used up one free
   * cluster, no entry outside the grown chain changed, and no entry lost its top 4 bits.
   */
  ghost predicate ChainGrew(f0: seq<nat>, ch0: map<nat, seq<nat>>, f1: seq<nat>, ch1: map<nat, seq<nat>>, h: nat) {
    && |f1| == |f0| && h in ch0 && h in ch1
    && ch1 == ch0[h := ch1[h]] && ch0[h] <= ch1[h]
    && (forall i :: |ch0[h]| <= i < |ch1[h]| ==> IsFree(f0, ch1[h][i]))
    && FreeSet(f1) <= FreeSet(f0)
    && |FreeSet(f1)| + |ch1[h]| == |FreeSet(f0)| + |ch0[h]|
    && (forall c :: 0 <= c < |f0| ==> Top4(f1[c]) == Top4(f0[c]))
    && (forall c :: 0 <= c < |f0| && c !in ch1[h] ==> f1[c] == f0[c])
  }

  lemma AppendGrows(fat: seq<nat>, chains: map<nat, seq<nat>>, h: nat, extra: nat)
    requires FatOk(fat) && ChainsOk(fat, chains) && h in chains && IsFree(fat, extra)
    ensures var cs := chains[h];
            ChainGrew(fat, chains, AfterAppend(fat, cs[|cs| - 1], extra), chains[h := cs + [extra]], h)
  {
    AppendKeepsChains(fat, chains, h, extra);
    var cs := chains[h];
    assert cs[|cs| - 1] in cs;
    assert extra in FreeSet(fat);
    assert extra in cs + [extra] && forall c :: c in cs ==> c in cs + [extra];
  }

  lemma ChainGrewTrans(f0: seq<nat>, ch0: map<nat, seq<nat>>, f1: seq<nat>, ch1: map<nat, seq<nat>>,
                       f2: seq<nat>, ch2: map<nat, seq<nat>>, h: nat)
    requires ChainGrew(f0, ch0, f1, ch1, h) && ChainGrew(f1, ch1, f2, ch2, h)
    ensures ChainGrew(f0, ch0, f2, ch2, h)
  {
    forall i | |ch0[h]| <= i < |ch2[h]| ensures IsFree(f0, ch2[h][i]) {
      if i < |ch1[h]| {
        assert ch2[h][i] == ch1[h][i];
      } else {
        assert ch2[h][i] in FreeSet(f1);
      }
    }
    assert forall c :: c in ch1[h] ==> c in ch2[h];
  }
}
