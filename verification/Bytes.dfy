// Bytes, little-endian words, in-place splicing, and equal-width blocks laid end to end.
module Bytes {

  type byte = x: int | 0 <= x < 256

  type Sector = s: seq<byte> | |s| == 512 witness seq(512, _ => 0)

  datatype Option<+T> = None | Some(value: T)

  function Min(a: int, b: int): int { if a < b then a else b }

  function U16At(s: seq<byte>, i: nat): (v: nat)
    requires i + 2 <= |s|
    ensures v < 0x1_0000
  {
    s[i] as int + 0x100 * s[i + 1] as int
  }

  function U32At(s: seq<byte>, i: nat): (v: nat)
    requires i + 4 <= |s|
    ensures v < 0x1_0000_0000
  {
    s[i] as int + 0x100 * s[i + 1] as int + 0x1_0000 * s[i + 2] as int + 0x100_0000 * s[i + 3] as int
  }

  /** The four bytes of a 32-bit word, lowest first. */
  function U32Bytes(v: nat): (b: seq<byte>)
    requires v < 0x1_0000_0000
    ensures |b| == 4 && U32At(b, 0) == v
  {
    var v1 := v / 0x100;
    var v2 := v1 / 0x100;
    var v3 := v2 / 0x100;
    [v % 0x100, v1 % 0x100, v2 % 0x100, v3]
  }

  /** `data` written over `s` from offset `off` on. */
  function Splice<T>(s: seq<T>, off: nat, data: seq<T>): (r: seq<T>)
    requires off + |data| <= |s|
    ensures |r| == |s|
    ensures forall k :: 0 <= k < |s| ==> r[k] == if off <= k < off + |data| then data[k - off] else s[k]
  {
    s[..off] + data + s[off + |data|..]
  }

  /** Writing two adjacent pieces is writing their concatenation. */
  lemma SpliceAppend<T>(s: seq<T>, off: nat, a: seq<T>, b: seq<T>)
    requires off + |a| + |b| <= |s|
    ensures Splice(Splice(s, off, a), off + |a|, b) == Splice(s, off, a + b)
  {
  }

  lemma SliceOfSlice<T>(s: seq<T>, lo: nat, hi: nat, from: nat, to: nat)
    requires lo <= hi <= |s| && from <= to && lo + to <= hi
    ensures s[lo..hi][from..to] == s[lo + from..lo + to]
  {
    var a, b := s[lo..hi][from..to], s[lo + from..lo + to];
    assert |a| == |b| && forall k :: 0 <= k < |a| ==> a[k] == b[k];
  }

  /** Splicing inside a slice of `s` is splicing in `s`. */
  lemma SpliceNested<T>(s: seq<T>, lo: nat, hi: nat, off: nat, data: seq<T>)
    requires lo <= hi <= |s| && lo + off + |data| <= hi
    ensures Splice(s, lo, Splice(s[lo..hi], off, data)) == Splice(s, lo + off, data)
  {
  }

  lemma SplicePrefix<T>(s: seq<T>, t: seq<T>, off: nat, data: seq<T>)
    requires off + |data| <= |s|
    ensures off + |data| <= |s + t| && Splice(s + t, off, data) == Splice(s, off, data) + t
  {
  }

  /** Copying one more piece of a source extends the copied slice. */
  lemma SpliceSlices<T>(s: seq<T>, at: nat, src: seq<T>, lo: nat, done: nat, more: nat)
    requires lo + done + more <= |src| && at + done + more <= |s|
    ensures Splice(Splice(s, at, src[lo..lo + done]), at + done, src[lo + done..lo + done + more])
         == Splice(s, at, src[lo..lo + (done + more)])
  {
  }

  /** A sequence rewritten up to `lo` still has its old bytes from there on. */
  lemma NotYetDone<T>(before: seq<T>, target: seq<T>, lo: nat, hi: nat)
    requires |target| == |before| && lo <= hi <= |before|
    ensures (target[..lo] + before[lo..])[lo..hi] == before[lo..hi]
  {
  }

  /** A sequence rewritten from left to right, one more piece done. */
  lemma SpliceProgress<T>(before: seq<T>, target: seq<T>, lo: nat, hi: nat)
    requires |target| == |before| && lo <= hi <= |before|
    ensures Splice(target[..lo] + before[lo..], lo, target[lo..hi]) == target[..hi] + before[hi..]
  {
  }

  // ---------------------------------------------------------------- blocks

  ghost predicate Uniform<T>(blocks: seq<seq<T>>, w: nat) {
    forall i :: 0 <= i < |blocks| ==> |blocks[i]| == w
  }

  /** The blocks laid end to end. */
  function Flatten<T>(blocks: seq<seq<T>>): seq<T> {
    if blocks == [] then [] else blocks[0] + Flatten(blocks[1..])
  }

  lemma {:induction false} FlattenLength<T>(blocks: seq<seq<T>>, w: nat)
    requires Uniform(blocks, w)
    ensures |Flatten(blocks)| == |blocks| * w
  {
    if blocks == [] {
    } else {
      FlattenLength(blocks[1..], w);
      assert |blocks| * w == w + (|blocks| - 1) * w;
    }
  }

  lemma {:induction false} FlattenAppend<T>(a: seq<seq<T>>, b: seq<seq<T>>)
    ensures Flatten(a + b) == Flatten(a) + Flatten(b)
  {
    if a == [] {
      assert a + b == b;
    } else {
      assert (a + b)[1..] == a[1..] + b;
      FlattenAppend(a[1..], b);
    }
  }

  /** Position of block `i`: the flat sequence is what precedes it, the block, what follows it. */
  lemma FlattenSplit<T>(blocks: seq<seq<T>>, i: nat)
    requires i < |blocks|
    ensures Flatten(blocks) == Flatten(blocks[..i]) + blocks[i] + Flatten(blocks[i + 1..])
  {
    assert blocks == blocks[..i] + blocks[i..];
    FlattenAppend(blocks[..i], blocks[i..]);
    assert blocks[i..][1..] == blocks[i + 1..];
  }

  /** Block `i` of equal-width blocks is the slice at `i * w`. */
  lemma FlattenSlice<T>(blocks: seq<seq<T>>, w: nat, i: nat)
    requires Uniform(blocks, w) && i < |blocks|
    ensures i * w + w <= |Flatten(blocks)| == |blocks| * w
    ensures Flatten(blocks)[i * w..i * w + w] == blocks[i]
  {
    FlattenSplit(blocks, i);
    FlattenLength(blocks, w);
    FlattenLength(blocks[..i], w);
  }

  /** Replacing block `i` is splicing it in at `i * w`. */
  lemma FlattenUpdate<T>(blocks: seq<seq<T>>, w: nat, i: nat, b: seq<T>)
    requires Uniform(blocks, w) && i < |blocks| && |b| == w
    ensures i * w + w <= |Flatten(blocks)|
    ensures Flatten(blocks[i := b]) == Splice(Flatten(blocks), i * w, b)
  {
    FlattenLength(blocks, w);
    FlattenLength(blocks[..i], w);
    FlattenSplit(blocks, i);
    MulStep(i, |blocks|, w);
    var after := blocks[i := b];
    FlattenSplit(after, i);
    assert after[..i] == blocks[..i] && after[i + 1..] == blocks[i + 1..];
    SpliceMiddle(Flatten(blocks[..i]), blocks[i], Flatten(blocks[i + 1..]), b);
  }

  /** Splicing into block `i` is splicing at `i * w` plus the offset in the block. */
  lemma FlattenSplice<T>(blocks: seq<seq<T>>, w: nat, i: nat, off: nat, data: seq<T>, at: nat)
    requires Uniform(blocks, w) && i < |blocks| && off + |data| <= w && at == i * w + off
    ensures at + |data| <= |Flatten(blocks)|
    ensures Flatten(blocks[i := Splice(blocks[i], off, data)]) == Splice(Flatten(blocks), at, data)
  {
    hide Flatten;
    hide Splice;
    FlattenUpdate(blocks, w, i, Splice(blocks[i], off, data));
    FlattenSlice(blocks, w, i);
    SpliceNested(Flatten(blocks), i * w, i * w + w, off, data);
  }

  lemma SpliceMiddle<T>(pre: seq<T>, mid: seq<T>, post: seq<T>, b: seq<T>)
    requires |b| == |mid|
    ensures Splice(pre + mid + post, |pre|, b) == pre + b + post
  {
  }

  // ------------------------------------------------------------ arithmetic

  lemma MulCancel(a: nat, b: nat, w: nat)
    requires a * w < b * w
    ensures a < b
  {
    if b <= a { MulMono(b, a, w); }
  }

  lemma ModSmall(a: nat, b: nat)
    requires a < b
    ensures a % b == a
  {
  }

  lemma MulMono(a: nat, b: nat, w: nat)
    requires a <= b
    ensures a * w <= b * w
  {
    assert b * w == a * w + (b - a) * w;
  }

  lemma MulStep(a: nat, b: nat, w: nat)
    requires a < b
    ensures a * w + w <= b * w
  {
    MulMono(a + 1, b, w);
    assert (a + 1) * w == a * w + w;
  }
}
