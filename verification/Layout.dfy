// Structures as they lie in memory and on disk: field after field, each integer lowest byte first.
module Layout {
  import opened Bytes

  /** An integer of 2, 4 or 8 bytes: its low half, then its high half. */
  function Le2(v: nat): (s: seq<byte>)
    requires v < 0x1_0000
    ensures |s| == 2
  {
    [v % 0x100, v / 0x100]
  }

  function Le4(v: nat): (s: seq<byte>)
    requires v < 0x1_0000_0000
    ensures |s| == 4
  {
    Le2(v % 0x1_0000) + Le2(v / 0x1_0000)
  }

  function Le8(v: nat): (s: seq<byte>)
    requires v < 0x1_0000_0000_0000_0000
    ensures |s| == 8
  {
    Le4(v % 0x1_0000_0000) + Le4(v / 0x1_0000_0000)
  }

  /** A two-byte field reads as the value written there. */
  lemma Reads2(s: seq<byte>, at: nat, v: nat)
    requires v < 0x1_0000 && at + 2 <= |s| && s[at..at + 2] == Le2(v)
    ensures U16At(s, at) == v
  {
    assert s[at] == s[at..at + 2][0] && s[at + 1] == s[at..at + 2][1];
  }

  /** A four-byte field reads as the value written there. */
  lemma Reads4(s: seq<byte>, at: nat, v: nat)
    requires v < 0x1_0000_0000 && at + 4 <= |s| && s[at..at + 4] == Le4(v)
    ensures U32At(s, at) == v
  {
    var t := s[at..at + 4];
    assert s[at] == t[0] && s[at + 1] == t[1] && s[at + 2] == t[2] && s[at + 3] == t[3];
  }

  /** The bytes the driver stores for a 32-bit word are that word's, lowest first. */
  lemma StoresLowestFirst(v: nat)
    requires v < 0x1_0000_0000
    ensures U32Bytes(v) == Le4(v)
  {
    assert v / 0x100 / 0x100 == v / 0x1_0000 && v / 0x100 / 0x100 / 0x100 == v / 0x1_0000 / 0x100;
    assert v % 0x1_0000 / 0x100 == v / 0x100 % 0x100 && v % 0x1_0000 % 0x100 == v % 0x100;
  }
}
