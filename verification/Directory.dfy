// Directory bytes as a list of 32-byte entries: lookup by 8.3 name or by first cluster, and the size field.
module Directory {
  import opened Bytes
  import opened FileModel

  const SPACE: byte := 0x20
  const DOT: byte := 0x2E

  type Entry32 = e: seq<byte> | |e| == 32 witness seq(32, _ => 0)

  function Entry(b: seq<byte>, k: nat): Entry32
    requires 32 * k + 32 <= |b|
  {
    b[32 * k..32 * k + 32]
  }

  /** The all-zero marker after the last entry. */
  predicate Ends(e: Entry32) { e[0] == 0x00 }

  /** Deleted and long-name entries. */
  predicate Hidden(e: Entry32) { e[0] == 0xE5 || e[11] == 0x0F }

  function FirstCluster(e: Entry32): nat { U16At(e, 20) * 0x1_0000 + U16At(e, 26) }

  function FileSize(e: Entry32): (n: nat)
    ensures n < 0x1_0000_0000
  {
    U32At(e, 28)
  }

  function Packed(s: seq<byte>): seq<byte> {
    if s == [] then []
    else if s[|s| - 1] != SPACE then Packed(s[..|s| - 1]) + [s[|s| - 1]]
    else Packed(s[..|s| - 1])
  }

  lemma PackedStep(e: seq<byte>, lo: nat, k: nat)
    requires lo <= k < |e|
    ensures Packed(e[lo..k + 1]) == if e[k] != SPACE then Packed(e[lo..k]) + [e[k]] else Packed(e[lo..k])
  {
    assert e[lo..k + 1][..k - lo] == e[lo..k];
  }

  /** `NAME.EXT` without padding; no dot when the extension starts with a blank. */
  function DisplayName(e: Entry32): seq<byte> {
    Packed(e[..8]) + if e[8] != SPACE then [DOT] + Packed(e[8..11]) else []
  }

  predicate Matches(e: Entry32, key: Key) {
    match key
    case ByName(name) => SameName(DisplayName(e), name)
    case ByCluster(c) => FirstCluster(e) == c
  }

  ghost predicate Live(b: seq<byte>, k: nat) {
    && 32 * k + 32 <= |b|
    && !Hidden(Entry(b, k))
    && forall j :: 0 <= j <= k ==> !Ends(Entry(b, j))
  }

  /** Index of the first live entry from `k` on that matches, looking no further than the end marker. */
  function FirstMatch(b: seq<byte>, k: nat, key: Key): (r: Option<nat>)
    requires |b| % 32 == 0 && 32 * k <= |b|
    ensures r.Some? ==> k <= r.value && 32 * r.value + 32 <= |b|
    decreases |b| - 32 * k
  {
    if 32 * k == |b| || Ends(Entry(b, k)) then None
    else if !Hidden(Entry(b, k)) && Matches(Entry(b, k), key) then Some(k)
    else FirstMatch(b, k + 1, key)
  }

  /** One entry of the scan; `s` is the sector that starts with entry `k`. */
  lemma ScanStep(b: seq<byte>, k: nat, s: seq<byte>, j: nat, key: Key)
    requires |b| % 32 == 0 && 32 * k + 512 <= |b| && s == b[32 * k..32 * k + 512] && j < 16
    ensures var e: Entry32 := s[32 * j..32 * j + 32];
            && e == Entry(b, k + j)
            && (Ends(e) ==> FirstMatch(b, k + j, key) == None)
            && (!Ends(e) && !Hidden(e) && Matches(e, key) ==> FirstMatch(b, k + j, key) == Some(k + j))
            && (!Ends(e) && (Hidden(e) || !Matches(e, key)) ==>
                  FirstMatch(b, k + j, key) == FirstMatch(b, k + (j + 1), key))
  {
    SliceOfSlice(b, 32 * k, 32 * k + 512, 32 * j, 32 * j + 32);
  }

  lemma {:induction false} FirstMatchFrom(b: seq<byte>, k: nat, key: Key, m: nat)
    requires |b| % 32 == 0 && 32 * k <= |b| && k <= m
    requires forall j :: 0 <= j < k ==> !Ends(Entry(b, j))
    ensures FirstMatch(b, k, key) == Some(m)
       <==> Live(b, m) && Matches(Entry(b, m), key)
            && forall j :: k <= j < m ==> !(Live(b, j) && Matches(Entry(b, j), key))
    decreases |b| - 32 * k
  {
    if 32 * k == |b| || Ends(Entry(b, k)) {
    } else if !Hidden(Entry(b, k)) && Matches(Entry(b, k), key) {
      assert Live(b, k);
    } else if k < m {
      FirstMatchFrom(b, k + 1, key, m);
    } else if FirstMatch(b, k + 1, key).Some? {
    }
  }

  /** The scan finds `m` exactly when `m` is live, matches, and no earlier live entry matches. */
  lemma FirstMatchMeans(b: seq<byte>, key: Key, m: nat)
    requires |b| % 32 == 0
    ensures FirstMatch(b, 0, key) == Some(m)
       <==> Live(b, m) && Matches(Entry(b, m), key)
            && forall j :: 0 <= j < m ==> !(Live(b, j) && Matches(Entry(b, j), key))
  {
    FirstMatchFrom(b, 0, key, m);
  }

  // ---------------------------------------------------------------- size field

  /** The directory after the size field of entry `k` is overwritten. */
  function WithSize(b: seq<byte>, k: nat, size: nat): (r: seq<byte>)
    requires 32 * k + 32 <= |b| && size < 0x1_0000_0000
    ensures |r| == |b|
  {
    Splice(b, 32 * k + 28, U32Bytes(size))
  }

  /** Only entry `k` changes, and of it only the size. */
  lemma WithSizeEntry(b: seq<byte>, k: nat, size: nat, j: nat)
    requires 32 * k + 32 <= |b| && 32 * j + 32 <= |b| && size < 0x1_0000_0000
    ensures j != k ==> Entry(WithSize(b, k, size), j) == Entry(b, j)
    ensures j == k ==> var e := Entry(WithSize(b, k, size), j); e[..28] == Entry(b, k)[..28] && FileSize(e) == size
  {
    var r := WithSize(b, k, size);
    if j == k {
      assert Entry(r, k)[28..] == U32Bytes(size);
      assert Entry(r, k)[..28] == Entry(b, k)[..28];
    } else {
      assert Entry(r, j) == Entry(b, j);
    }
  }

  lemma SameKeys(e: Entry32, f: Entry32, key: Key)
    requires e[..28] == f[..28]
    ensures Ends(e) == Ends(f) && Hidden(e) == Hidden(f) && Matches(e, key) == Matches(f, key)
    ensures FirstCluster(e) == FirstCluster(f) && DisplayName(e) == DisplayName(f)
  {
    assert forall i :: 0 <= i < 28 ==> e[i] == e[..28][i] && f[i] == f[..28][i];
    assert e[..8] == f[..8] && e[8..11] == f[8..11];
  }

  lemma WithSizeKeys(b: seq<byte>, k: nat, size: nat, j: nat, key: Key)
    requires 32 * k + 32 <= |b| && 32 * j + 32 <= |b| && size < 0x1_0000_0000
    ensures var r := WithSize(b, k, size);
            && Ends(Entry(r, j)) == Ends(Entry(b, j)) && Hidden(Entry(r, j)) == Hidden(Entry(b, j))
            && Matches(Entry(r, j), key) == Matches(Entry(b, j), key)
            && FirstCluster(Entry(r, j)) == FirstCluster(Entry(b, j))
            && DisplayName(Entry(r, j)) == DisplayName(Entry(b, j))
            && FileSize(Entry(r, j)) == if j == k then size else FileSize(Entry(b, j))
  {
    WithSizeEntry(b, k, size, j);
    SameKeys(Entry(WithSize(b, k, size), j), Entry(b, j), key);
  }

  lemma WithSizeLive(b: seq<byte>, k: nat, size: nat, j: nat)
    requires 32 * k + 32 <= |b| && size < 0x1_0000_0000
    ensures Live(WithSize(b, k, size), j) == Live(b, j)
  {
    if 32 * j + 32 <= |b| {
      forall i | 0 <= i <= j
        ensures Ends(Entry(WithSize(b, k, size), i)) == Ends(Entry(b, i))
        ensures Hidden(Entry(WithSize(b, k, size), i)) == Hidden(Entry(b, i))
      {
        WithSizeKeys(b, k, size, i, ByCluster(0));
      }
    }
  }

  /** Changing a size field changes no lookup, by name or by cluster. */
  lemma {:induction false} WithSizeFirstMatch(b: seq<byte>, k: nat, size: nat, i: nat, key: Key)
    requires |b| % 32 == 0 && 32 * k + 32 <= |b| && 32 * i <= |b| && size < 0x1_0000_0000
    ensures FirstMatch(WithSize(b, k, size), i, key) == FirstMatch(b, i, key)
    decreases |b| - 32 * i
  {
    if 32 * i == |b| {
    } else {
      WithSizeKeys(b, k, size, i, key);
      WithSizeFirstMatch(b, k, size, i + 1, key);
    }
  }

  // ------------------------------------------------------------------- listing

  function RecordOf(e: Entry32): Record { Record(DisplayName(e), FirstCluster(e), FileSize(e)) }

  /** What the directory lists from entry `k` on. */
  function Listing(b: seq<byte>, k: nat): seq<Record>
    requires |b| % 32 == 0 && 32 * k <= |b|
    decreases |b| - 32 * k
  {
    if 32 * k == |b| || Ends(Entry(b, k)) then []
    else if Hidden(Entry(b, k)) then Listing(b, k + 1)
    else [RecordOf(Entry(b, k))] + Listing(b, k + 1)
  }

  lemma FindFirst(r: Record, rest: seq<Record>, key: Key)
    ensures FindRecord([r] + rest, key) == if RecordMatches(r, key) then Some(r) else FindRecord(rest, key)
  {
    assert ([r] + rest)[1..] == rest;
  }

  lemma ResizedFirst(r: Record, rest: seq<Record>, cluster: nat, size: nat)
    ensures Resized([r] + rest, cluster, size)
         == if r.cluster == cluster then [r.(size := size)] + rest else [r] + Resized(rest, cluster, size)
  {
    assert ([r] + rest)[1..] == rest;
  }

  lemma ListingStep(b: seq<byte>, k: nat, e: Entry32)
    requires |b| % 32 == 0 && 32 * k < |b| && e == Entry(b, k)
    ensures Ends(e) ==> Listing(b, k) == []
    ensures !Ends(e) && Hidden(e) ==> Listing(b, k) == Listing(b, k + 1)
    ensures !Ends(e) && !Hidden(e) ==> Listing(b, k) == [RecordOf(e)] + Listing(b, k + 1)
  {
  }

  lemma FirstMatchStep(b: seq<byte>, k: nat, key: Key, e: Entry32)
    requires |b| % 32 == 0 && 32 * k < |b| && e == Entry(b, k)
    ensures Ends(e) ==> FirstMatch(b, k, key) == None
    ensures !Ends(e) && !Hidden(e) && RecordMatches(RecordOf(e), key) ==> FirstMatch(b, k, key) == Some(k)
    ensures !Ends(e) && (Hidden(e) || !RecordMatches(RecordOf(e), key)) ==>
      FirstMatch(b, k, key) == FirstMatch(b, k + 1, key)
  {
  }

  /** Scanning raw entries and searching the listing agree. */
  lemma {:induction false} ListingLookup(b: seq<byte>, k: nat, key: Key)
    requires |b| % 32 == 0 && 32 * k <= |b|
    ensures FindRecord(Listing(b, k), key)
         == match FirstMatch(b, k, key) case None => None case Some(m) => Some(RecordOf(Entry(b, m)))
    decreases |b| - 32 * k
  {
    if 32 * k == |b| {
    } else {
      var e := Entry(b, k);
      ListingStep(b, k, e);
      FirstMatchStep(b, k, key, e);
      ListingLookup(b, k + 1, key);
      FindFirst(RecordOf(e), Listing(b, k + 1), key);
    }
  }

  lemma {:induction false} ListingSame(b: seq<byte>, r: seq<byte>, k: nat)
    requires |b| % 32 == 0 && |r| == |b| && 32 * k <= |b|
    requires forall j :: k <= j && 32 * j + 32 <= |b| ==> Entry(r, j) == Entry(b, j)
    ensures Listing(r, k) == Listing(b, k)
    decreases |b| - 32 * k
  {
    if 32 * k == |b| {
    } else {
      assert Entry(r, k) == Entry(b, k);
      ListingSame(b, r, k + 1);
    }
  }

  lemma ListingResizedHere(b: seq<byte>, m: nat, size: nat)
    requires |b| % 32 == 0 && 32 * m < |b| && size < 0x1_0000_0000
    requires !Ends(Entry(b, m)) && !Hidden(Entry(b, m))
    ensures Listing(WithSize(b, m, size), m) == [RecordOf(Entry(b, m)).(size := size)] + Listing(b, m + 1)
  {
    hide DisplayName;
    hide FirstCluster;
    hide FileSize;
    hide Hidden;
    hide WithSize;
    hide Matches;
    hide Listing;
    var r := WithSize(b, m, size);
    WithSizeKeys(b, m, size, m, ByCluster(0));
    forall j | m + 1 <= j && 32 * j + 32 <= |b| ensures Entry(r, j) == Entry(b, j) {
      WithSizeEntry(b, m, size, j);
    }
    ListingSame(b, r, m + 1);
    ListingStep(r, m, Entry(r, m));
  }

  /** Rewriting the size of the entry found for a cluster resizes that record and no other. */
  lemma {:induction false} ListingResized(b: seq<byte>, k: nat, c: nat, m: nat, size: nat)
    requires |b| % 32 == 0 && 32 * k <= |b| && size < 0x1_0000_0000
    requires FirstMatch(b, k, ByCluster(c)) == Some(m)
    ensures Listing(WithSize(b, m, size), k) == Resized(Listing(b, k), c, size)
    decreases |b| - 32 * k
  {
    hide DisplayName;
    hide FirstCluster;
    hide FileSize;
    hide Hidden;
    hide WithSize;
    hide FirstMatch;
    var r := WithSize(b, m, size);
    var e := Entry(b, k);
    FirstMatchStep(b, k, ByCluster(c), e);
    if k == m {
      ListingResizedHere(b, m, size);
      ListingStep(b, k, e);
    } else {
      WithSizeEntry(b, m, size, k);
      ListingStep(r, k, e);
      ListingStep(b, k, e);
      ListingResized(b, k + 1, c, m, size);
    }
    ResizedFirst(RecordOf(e), Listing(b, k + 1), c, size);
  }
}
