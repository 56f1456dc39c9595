// Internet checksums of the IPv4, UDP and ICMP code: ones' complement sums of 16-bit words (RFC 1071).
module Checksum {
  import opened Bytes

  const ONES: nat := 0xFFFF

  // ------------------------------------------------------------- folding

  /** End-around carry until the sum fits 16 bits. */
  function Fold(sum: nat): (r: nat)
    ensures r <= 0xFFFF
    decreases sum
  {
    if sum / 0x1_0000 == 0 then sum else Fold(sum % 0x1_0000 + sum / 0x1_0000)
  }

  /** What folding computes: the residue modulo 65535, with 65535 for its nonzero multiples. */
  lemma {:induction false} FoldIsResidue(sum: nat)
    ensures Fold(sum) == if sum == 0 then 0 else (sum - 1) % 65535 + 1
    decreases sum
  {
    if sum / 0x1_0000 == 0 {
    } else {
      var carry := sum / 0x1_0000;
      var next := sum % 0x1_0000 + carry;
      FoldIsResidue(next);
      assert sum - 1 == (next - 1) + 65535 * carry;
      ModShift(next - 1, carry);
    }
  }

  lemma ModShift(x: nat, k: nat)
    ensures (x + 65535 * k) % 65535 == x % 65535
  {
  }

  /** A sum folds to all ones exactly when it is a nonzero multiple of 65535. */
  lemma FoldOnes(sum: nat)
    ensures Fold(sum) == ONES <==> sum > 0 && sum % 65535 == 0
  {
    FoldIsResidue(sum);
    if sum > 0 {
      var q, r := (sum - 1) / 65535, (sum - 1) % 65535;
      assert sum == r + 1 + 65535 * q;
      ModShift(r + 1, q);
    }
  }

  /** The loop the three checksum routines share. The sum is held in 32 bits. */
  method FoldLoop(start: nat) returns (sum: nat)
    requires start < 0x1_0000_0000
    ensures sum == Fold(start)
  {
    sum := start;
    while sum / 0x1_0000 != 0
      invariant Fold(sum) == Fold(start) && sum < 0x1_0000_0000
      decreases sum
    {
      sum := sum % 0x1_0000 + sum / 0x1_0000;
    }
  }

  function Not16(x: nat): nat
    requires x <= 0xFFFF
  {
    0xFFFF - x
  }

  // ------------------------------------------------------------- word sums

  function BE(hi: byte, lo: byte): nat { hi as nat * 0x100 + lo as nat }

  /** Sum of the big-endian words of `s`; an odd last byte is the high half of a word. */
  function Words(s: seq<byte>): nat {
    if s == [] then 0
    else if |s| == 1 then BE(s[0], 0)
    else BE(s[0], s[1]) + Words(s[2..])
  }

  lemma {:induction false} WordsBound(s: seq<byte>)
    ensures Words(s) <= (|s| + 1) / 2 * 0xFFFF
  {
    if |s| <= 1 {
    } else {
      WordsBound(s[2..]);
    }
  }

  /** The bytes read as one number, first byte highest. */
  function Number(s: seq<byte>): nat {
    if s == [] then 0 else Number(s[..|s| - 1]) * 0x100 + s[|s| - 1] as nat
  }

  lemma {:induction false} NumberFront(s: seq<byte>)
    requires s != []
    ensures Number(s) == s[0] as nat * Power(|s| - 1) + Number(s[1..])
  {
    var n := |s| - 1;
    if n == 0 {
      assert s[..0] == [] && s[1..] == [];
    } else {
      NumberFront(s[..n]);
      assert s[..n][1..] == s[1..][..n - 1];
      assert s[1..][n - 1] == s[n];
      var low, high := Number(s[1..][..n - 1]), Number(s[..n]);
      assert Number(s) == high * 0x100 + s[n] as nat && Number(s[1..]) == low * 0x100 + s[n] as nat;
      assert Power(n) == Power(n - 1) * 0x100;
      hide Number;
      hide Power;
      MovesUp(high, s[0] as nat, Power(n - 1), low, s[n] as nat);
    }
  }

  lemma MovesUp(high: nat, a: nat, p: nat, low: nat, last: nat)
    requires high == a * p + low
    ensures high * 0x100 + last == a * (p * 0x100) + (low * 0x100 + last)
  {
    assert a * p * 0x100 == a * (p * 0x100);
  }

  /** 256 to the `n`-th. */
  function Power(n: nat): nat { if n == 0 then 1 else Power(n - 1) * 0x100 }

  lemma {:induction false} EvenPower(n: nat)
    requires n % 2 == 0
    ensures Power(n) % 65535 == 1
  {
    if n == 0 {
    } else {
      EvenPower(n - 2);
      assert Power(n) == Power(n - 2) * 0x1_0000;
      var q := Power(n - 2) / 65535;
      assert Power(n) == 1 + 65535 * (q * 0x1_0000 + 1);
      ModShift(1, q * 0x1_0000 + 1);
    }
  }

  /** Modulo 65535 the sum of the words is the whole message read as one number, first byte highest. */
  lemma {:induction false} WordsAreNumber(s: seq<byte>)
    requires |s| % 2 == 0
    ensures Words(s) % 65535 == Number(s) % 65535
  {
    if s == [] {
    } else {
      assert Words(s) == BE(s[0], s[1]) + Words(s[2..]);
      hide Words;
      hide Number;
      hide Power;
      WordsAreNumber(s[2..]);
      TwoInFront(s);
      EvenPower(|s| - 2);
      WordInFront(Number(s), BE(s[0], s[1]), Power(|s| - 2), Number(s[2..]), Words(s[2..]));
    }
  }

  lemma WordInFront(n: nat, word: nat, p: nat, x: nat, w: nat)
    requires n == word * p + x && p % 65535 == 1 && w % 65535 == x % 65535
    ensures n % 65535 == (word + w) % 65535
  {
    ScaledWord(word, p, x);
    ModCongruent(word, x, w);
  }

  lemma TwoInFront(s: seq<byte>)
    requires |s| >= 2
    ensures Number(s) == BE(s[0], s[1]) * Power(|s| - 2) + Number(s[2..])
  {
    assert Power(|s| - 1) == Power(|s| - 2) * 0x100;
    hide Number;
    hide Power;
    NumberFront(s);
    NumberFront(s[1..]);
    assert s[1..][1..] == s[2..];
    var word := BE(s[0], s[1]);
    assert word == s[0] as nat * 0x100 + s[1] as nat;
    hide BE;
    Collect(Number(s), word, s[0] as nat, s[1] as nat, Power(|s| - 1), Power(|s| - 2), Number(s[1..]), Number(s[2..]));
  }

  lemma Collect(n: nat, word: nat, a: nat, b: nat, q: nat, p: nat, y: nat, x: nat)
    requires n == a * q + y && y == b * p + x && q == p * 0x100 && word == a * 0x100 + b
    ensures n == word * p + x
  {
    assert a * q == a * 0x100 * p;
  }

  lemma ScaledWord(word: nat, p: nat, x: nat)
    requires p % 65535 == 1
    ensures (word * p + x) % 65535 == (word + x) % 65535
  {
    var q := p / 65535;
    assert p == 1 + 65535 * q;
    assert word * p + x == (word + x) + 65535 * (word * q);
    ModShift(word + x, word * q);
  }

  /** A message of odd length is summed as if a zero byte followed. */
  lemma {:induction false} OddIsPadded(s: seq<byte>)
    requires |s| % 2 == 1
    ensures Words(s) == Words(s + [0])
  {
    if |s| == 1 {
      assert (s + [0])[2..] == [];
    } else {
      OddIsPadded(s[2..]);
      assert (s + [0])[2..] == s[2..] + [0];
    }
  }

  lemma {:induction false} WordsAppend(a: seq<byte>, b: seq<byte>)
    requires |a| % 2 == 0
    ensures Words(a + b) == Words(a) + Words(b)
  {
    if a == [] {
      assert a + b == b;
    } else {
      WordsAppend(a[2..], b);
      assert (a + b)[2..] == a[2..] + b;
    }
  }

  /** Storing a word where zeros were, at an even offset, adds it to the sum. */
  lemma {:induction false} WordsStore(s: seq<byte>, at: nat, hi: byte, lo: byte)
    requires at % 2 == 0 && at + 2 <= |s| && s[at] == 0 && s[at + 1] == 0
    ensures Words(s[at := hi][at + 1 := lo]) == Words(s) + BE(hi, lo)
  {
    var t := s[at := hi][at + 1 := lo];
    if at > 0 {
      WordsStore(s[2..], at - 2, hi, lo);
      assert t[2..] == s[2..][at - 2 := hi][at - 1 := lo];
    } else {
      assert t[2..] == s[2..];
    }
  }

  /** Message with the checksum bytes in place. */
  function Stored(s: seq<byte>, at: nat, sum: nat): (t: seq<byte>)
    requires at + 2 <= |s| && sum <= 0xFFFF
    ensures |t| == |s|
  {
    s[at := sum / 0x100][at + 1 := sum % 0x100]
  }

  /** Complement of the folded sum, stored at an even offset, makes the whole fold to all ones. */
  lemma ComplementVerifies(base: nat, s: seq<byte>, at: nat)
    requires at % 2 == 0 && at + 2 <= |s| && s[at] == 0 && s[at + 1] == 0
    ensures Fold(base + Words(Stored(s, at, Not16(Fold(base + Words(s)))))) == ONES
  {
    var sum := base + Words(s);
    var c := Not16(Fold(sum));
    WordsStore(s, at, c / 0x100, c % 0x100);
    FoldIsResidue(sum);
    FoldOnes(sum + c);
    ComplementMultiple(sum);
  }

  lemma ComplementMultiple(sum: nat)
    ensures (sum + Not16(Fold(sum))) % 65535 == 0 && sum + Not16(Fold(sum)) > 0
  {
    FoldIsResidue(sum);
    if sum > 0 {
      var q := (sum - 1) / 65535;
      assert sum - 1 == 65535 * q + (sum - 1) % 65535;
      assert sum + Not16(Fold(sum)) == 65535 + 65535 * q;
      ModShift(65535, q);
    }
  }

  // ------------------------------------------------------------------ ICMP

  lemma WordsStep(data: seq<byte>, i: nat)
    requires i < |data|
    ensures i + 1 < |data| ==> Words(data[i..]) == BE(data[i], data[i + 1]) + Words(data[i + 2..])
    ensures i + 1 == |data| ==> Words(data[i..]) == BE(data[i], 0)
  {
    if i + 1 < |data| { assert data[i..][2..] == data[i + 2..]; }
  }

  /** Sums the words of a message, first byte high. */
  method SumWords(start: nat, data: seq<byte>) returns (sum: nat)
    requires start + (|data| + 1) / 2 * 0xFFFF < 0x1_0000_0000
    ensures sum == start + Words(data) < 0x1_0000_0000
  {
    sum := start;
    var i := 0;
    assert data[0..] == data && Words([]) == 0;
    hide Words;
    while i < |data|
      invariant i <= |data| + 1
      invariant i <= |data| ==> sum + Words(data[i..]) == start + Words(data)
      invariant i > |data| ==> sum == start + Words(data)
    {
      WordsStep(data, i);
      var word := if i + 1 < |data| then BE(data[i], data[i + 1]) else BE(data[i], 0);
      sum := sum + word;
      i := i + 2;
    }
    assert data[|data|..] == [];
    WordsBound(data);
  }

  method CalcIcmpChecksum(data: seq<byte>) returns (c: nat)
    requires |data| <= 64
    ensures c == Not16(Fold(Words(data)))
  {
    var sum := SumWords(0, data);
    sum := FoldLoop(sum);
    c := Not16(sum);
  }

  /** An Ethernet frame of type IPv4. */
  function Frame(dstMac: seq<byte>, srcMac: seq<byte>, ip: seq<byte>, payload: seq<byte>): (f: seq<byte>)
    requires |dstMac| == 6 && |srcMac| == 6 && |ip| == 20
    ensures |f| == 34 + |payload| && f[..14] == dstMac + srcMac + [0x08, 0x00] && f[14..34] == ip && f[34..] == payload
    ensures forall k :: 34 <= k < |f| ==> f[k] == payload[k - 34]
  {
    var head := dstMac + srcMac + [0x08, 0x00];
    head + ip + payload
  }

  datatype Built = Panicked | Packet(bytes: seq<byte>)

  /**
   * Echo reply to an Ethernet frame; empty for a frame too short. A message longer than the 64-byte buffer stops the
   * kernel. Otherwise the reply's ICMP part has type and code 0, the request's identifier, sequence number and data up
   * to byte 62, and its words fold to all ones.
   */
  method BuildEchoReply(request: seq<byte>, ourMac: seq<byte>, dstMac: seq<byte>) returns (r: Built)
    requires |ourMac| == 6 && |dstMac| == 6
    ensures |request| < 42 ==> r == Packet([])
    ensures r.Panicked? <==> |request| - 34 > 64
    ensures 42 <= |request| <= 98 ==>
              && r.Packet? && |r.bytes| == |request|
              && r.bytes[..14] == dstMac + ourMac + [0x08, 0x00]
              && HeaderFields(r.bytes[14..34], request[30..34], request[26..30], |request| - 34, 1)
              && r.bytes[26..30] == request[30..34] && r.bytes[30..34] == request[26..30]
              && Fold(Words(r.bytes[34..])) == ONES
              && r.bytes[34] == 0 && r.bytes[35] == 0
              && forall k :: 38 <= k < |request| ==> r.bytes[k] == if k < 96 then request[k] else 0
  {
    hide Fold;
    hide Words;
    hide HeaderBytes;
    hide Frame;
    hide HeaderFields;
    var ipOff := 14;
    var icmpOff := ipOff + 20;
    if |request| < icmpOff + 8 { return Packet([]); }
    var srcIp := request[ipOff + 12..ipOff + 16];
    var dstIp := request[ipOff + 16..ipOff + 20];
    var icmpData := request[icmpOff..];
    var icmpLen := |icmpData|;
    var ip := NewHeader(dstIp, srcIp, icmpLen % 0x1_0000, 1);
    var icmp := new byte[64](_ => 0);
    var copyLen := Min(icmpLen, 62);
    forall k | 4 <= k < copyLen { icmp[k] := icmpData[k]; }
    if icmpLen > 64 { return Panicked; }
    ghost var plain := icmp[..icmpLen];
    assert forall k :: 0 <= k < icmpLen ==> plain[k] == if 4 <= k < copyLen then icmpData[k] else 0;
    var checksum := CalcIcmpChecksum(icmp[..icmpLen]);
    icmp[2] := checksum / 0x100;
    icmp[3] := checksum % 0x100;
    ghost var full := icmp[..icmpLen];
    assert full == Stored(plain, 2, checksum);
    ComplementVerifies(0, plain, 2);
    assert forall k :: 4 <= k < icmpLen ==> full[k] == plain[k];
    r := Packet(Frame(dstMac, ourMac, ip, icmp[..icmpLen]));
    AddressesAt(r.bytes, ip, dstIp, srcIp, icmpLen, 1);
  }

  // ------------------------------------------------------------------ IPv4

  /** A 20-byte header with a zero checksum field. */
  function BareHeader(src: seq<byte>, dst: seq<byte>, payloadLen: nat, protocol: byte): (h: seq<byte>)
    requires |src| == 4 && |dst| == 4
    ensures |h| == 20 && h[10] == 0 && h[11] == 0
  {
    var total := (20 + payloadLen) % 0x1_0000;
    [0x45, 0, total / 0x100, total % 0x100, 0, 0, 0, 0, 64, protocol, 0, 0] + src + dst
  }

  /** Sum of the words read lowest byte first, as the code reads them. */
  function LittleWords(s: seq<byte>): nat {
    if |s| < 2 then 0 else BE(s[1], s[0]) + LittleWords(s[2..])
  }

  lemma ByteOrderStep(hi: byte, lo: byte, l: nat, b: nat)
    requires 0x100 * l % 65535 == b % 65535
    ensures 0x100 * (BE(lo, hi) + l) % 65535 == (BE(hi, lo) + b) % 65535
  {
    var x := BE(hi, lo) + 0x100 * l;
    assert 0x100 * (BE(lo, hi) + l) == x + 65535 * lo as nat;
    ModShift(x, lo as nat);
    ModCongruent(BE(hi, lo), 0x100 * l, b);
  }

  /** The two byte orders give sums that differ by a factor of 256 modulo 65535. */
  lemma {:induction false} ByteOrder(s: seq<byte>)
    requires |s| % 2 == 0
    ensures 0x100 * LittleWords(s) % 65535 == Words(s) % 65535
  {
    if s == [] {
    } else {
      ByteOrder(s[2..]);
      ByteOrderStep(s[0], s[1], LittleWords(s[2..]), Words(s[2..]));
    }
  }

  lemma ModCongruent(a: nat, x: nat, y: nat)
    requires x % 65535 == y % 65535
    ensures (a + x) % 65535 == (a + y) % 65535
  {
  }

  lemma {:induction false} LittleStore(s: seq<byte>, at: nat, lo: byte, hi: byte)
    requires at % 2 == 0 && at + 2 <= |s| && s[at] == 0 && s[at + 1] == 0
    ensures LittleWords(s[at := lo][at + 1 := hi]) == LittleWords(s) + BE(hi, lo)
  {
    var t := s[at := lo][at + 1 := hi];
    if at > 0 {
      LittleStore(s[2..], at - 2, lo, hi);
      assert t[2..] == s[2..][at - 2 := lo][at - 1 := hi];
    } else {
      assert t[2..] == s[2..];
    }
  }

  /** The header as stored: the checksum field lowest byte first. */
  function HeaderBytes(src: seq<byte>, dst: seq<byte>, payloadLen: nat, protocol: byte): (h: seq<byte>)
    requires |src| == 4 && |dst| == 4
    ensures |h| == 20
  {
    var bare := BareHeader(src, dst, payloadLen, protocol);
    var c := Not16(Fold(LittleWords(bare)));
    bare[10 := c % 0x100][11 := c / 0x100]
  }

  /** The fields of the finished header, at the places RFC 791 gives them. */
  ghost predicate HeaderFields(h: seq<byte>, src: seq<byte>, dst: seq<byte>, payloadLen: nat, protocol: byte) {
    && |h| == 20 && h[0] == 0x45 && h[1] == 0
    && BE(h[2], h[3]) == (20 + payloadLen) % 0x1_0000
    && h[4..8] == [0, 0, 0, 0] && h[8] == 64 && h[9] == protocol
    && h[12..16] == src && h[16..20] == dst
    && Fold(Words(h)) == ONES
  }

  lemma HeaderHasFields(src: seq<byte>, dst: seq<byte>, payloadLen: nat, protocol: byte)
    requires |src| == 4 && |dst| == 4
    ensures HeaderFields(HeaderBytes(src, dst, payloadLen, protocol), src, dst, payloadLen, protocol)
  {
    hide Fold;
    hide Words;
    HeaderVerifies(src, dst, payloadLen, protocol);
    var h := HeaderBytes(src, dst, payloadLen, protocol);
    assert h[12..16] == src && h[16..20] == dst && h[4..8] == [0, 0, 0, 0];
  }

  /** In a frame with that header the two addresses are at bytes 26 and 30. */
  lemma AddressesAt(f: seq<byte>, h: seq<byte>, src: seq<byte>, dst: seq<byte>, payloadLen: nat, protocol: byte)
    requires |f| >= 34 && f[14..34] == h && HeaderFields(h, src, dst, payloadLen, protocol)
    ensures f[26..30] == src && f[30..34] == dst
  {
    hide Fold;
    hide Words;
    assert f[26..30] == h[12..16] && f[30..34] == h[16..20];
  }

  /** Ten 16-bit reads in machine order. */
  method CalcHeaderChecksum(h: seq<byte>) returns (c: nat)
    requires |h| == 20
    ensures c == Not16(Fold(LittleWords(h)))
  {
    var sum := 0;
    for i := 0 to 10
      invariant sum + LittleWords(h[2 * i..]) == LittleWords(h) && sum <= i * 0xFFFF
    {
      assert h[2 * i..][2..] == h[2 * (i + 1)..];
      sum := sum + U16At(h, 2 * i);
    }
    sum := FoldLoop(sum);
    c := Not16(sum);
  }

  method NewHeader(src: seq<byte>, dst: seq<byte>, payloadLen: nat, protocol: byte) returns (h: seq<byte>)
    requires |src| == 4 && |dst| == 4 && payloadLen < 0x1_0000
    ensures h == HeaderBytes(src, dst, payloadLen, protocol)
    ensures HeaderFields(h, src, dst, payloadLen, protocol)
  {
    HeaderHasFields(src, dst, payloadLen, protocol);
    h := BareHeader(src, dst, payloadLen, protocol);
    var c := CalcHeaderChecksum(h);
    h := h[10 := c % 0x100][11 := c / 0x100];
  }

  /**
   * Though summed and stored in machine byte order, the checksum makes the ten network-order words fold to all ones.
   */
  lemma HeaderVerifies(src: seq<byte>, dst: seq<byte>, payloadLen: nat, protocol: byte)
    requires |src| == 4 && |dst| == 4
    ensures Fold(Words(HeaderBytes(src, dst, payloadLen, protocol))) == ONES
  {
    var bare := BareHeader(src, dst, payloadLen, protocol);
    var h := HeaderBytes(src, dst, payloadLen, protocol);
    var sum := LittleWords(bare);
    var c := Not16(Fold(sum));
    LittleStore(bare, 10, c % 0x100, c / 0x100);
    ComplementMultiple(sum);
    assert LittleWords(h) % 65535 == 0;
    ByteOrder(h);
    MultipleOf(LittleWords(h));
    assert Words(h) >= BE(h[0], h[1]) >= 0x4500;
    FoldOnes(Words(h));
  }

  lemma MultipleOf(x: nat)
    requires x % 65535 == 0
    ensures 0x100 * x % 65535 == 0
  {
    var q := x / 65535;
    assert 0x100 * x == 0 + 65535 * (0x100 * q);
    ModShift(0, 0x100 * q);
  }

  // ------------------------------------------------------------------- UDP

  /** Sum of the pseudo-header: addresses, protocol, and the length in 16 bits. */
  function Pseudo(src: seq<byte>, dst: seq<byte>, protocol: byte, len: nat): (sum: nat)
    requires |src| == 4 && |dst| == 4
    ensures sum <= 4 * 0xFFFF + 0xFF + 0xFFFF
  {
    BE(src[0], src[1]) + BE(src[2], src[3]) + BE(dst[0], dst[1]) + BE(dst[2], dst[3]) + protocol as nat + len % 0x1_0000
  }

  /** The pseudo-header of RFC 768: source, destination, zero, protocol, length. */
  function PseudoHeader(src: seq<byte>, dst: seq<byte>, protocol: byte, len: nat): (s: seq<byte>)
    requires len < 0x1_0000
  {
    src + dst + [0, protocol] + [len / 0x100, len % 0x100]
  }

  /** What the code adds up before the datagram is the sum of the pseudo-header's words. */
  lemma PseudoSum(src: seq<byte>, dst: seq<byte>, protocol: byte, len: nat, data: seq<byte>)
    requires |src| == 4 && |dst| == 4 && len < 0x1_0000
    ensures Words(PseudoHeader(src, dst, protocol, len) + data) == Pseudo(src, dst, protocol, len) + Words(data)
  {
    var s := PseudoHeader(src, dst, protocol, len);
    WordsAppend(s, data);
    assert s == [s[0], s[1], s[2], s[3], s[4], s[5], s[6], s[7], s[8], s[9], s[10], s[11]];
    SixWords(s);
  }

  lemma SixWords(s: seq<byte>)
    requires |s| == 12
    ensures Words(s) == BE(s[0], s[1]) + BE(s[2], s[3]) + BE(s[4], s[5]) + BE(s[6], s[7]) + BE(s[8], s[9])
                      + BE(s[10], s[11])
  {
    assert s[2..][2..] == s[4..] && s[4..][2..] == s[6..] && s[6..][2..] == s[8..] && s[8..][2..] == s[10..];
    assert Words(s[10..]) == BE(s[10], s[11]) + Words([]) by { assert s[10..][2..] == []; }
    assert Words(s[8..]) == BE(s[8], s[9]) + Words(s[10..]);
    assert Words(s[6..]) == BE(s[6], s[7]) + Words(s[8..]);
    assert Words(s[4..]) == BE(s[4], s[5]) + Words(s[6..]);
  }

  /** Never zero: a sum of all ones is sent as it is. */
  function UdpSum(base: nat, data: seq<byte>): (c: nat)
    ensures 0 < c <= 0xFFFF
  {
    var sum := Fold(base + Words(data));
    if sum == 0xFFFF then 0xFFFF else Not16(sum)
  }

  method CalcUdpChecksum(src: seq<byte>, dst: seq<byte>, protocol: byte, data: seq<byte>) returns (c: nat)
    requires |src| == 4 && |dst| == 4 && |data| <= 65535
    ensures c == UdpSum(Pseudo(src, dst, protocol, |data|), data) && c != 0
  {
    var sum := Pseudo(src, dst, protocol, |data|);
    sum := SumWords(sum, data);
    sum := FoldLoop(sum);
    c := if sum == 0xFFFF then 0xFFFF else Not16(sum);
  }

  lemma UdpVerifies(base: nat, s: seq<byte>, at: nat)
    requires at % 2 == 0 && at + 2 <= |s| && s[at] == 0 && s[at + 1] == 0
    ensures Fold(base + Words(Stored(s, at, UdpSum(base, s)))) == ONES
  {
    hide Fold;
    hide Words;
    var sum := base + Words(s);
    if Fold(sum) == 0xFFFF {
      WordsStore(s, at, 0xFF, 0xFF);
      FoldOnes(sum);
      ModShift(sum, 1);
      FoldOnes(sum + 0xFFFF);
    } else {
      ComplementVerifies(base, s, at);
    }
  }

  function Low(x: nat): byte { x % 0x100 }
  function High(x: nat): byte { x / 0x100 % 0x100 }

  /** A 16-bit field as stored after two swaps: lowest byte first. */
  function Swapped(x: nat): (s: seq<byte>)
    ensures |s| == 2
  {
    [Low(x), High(x)]
  }

  /** A field so stored is read back in network byte order as the value meant if and only if its two bytes are equal. */
  lemma SwappedReads(x: nat)
    requires x < 0x1_0000
    ensures BE(Swapped(x)[0], Swapped(x)[1]) == x <==> Low(x) == High(x)
  {
  }

  /**
   * A whole frame. The port and length fields come out lowest byte first, because they are swapped twice; the
   * checksum field is first byte high, covers the pseudo-header, is never zero, and makes the datagram verify.
   */
  method BuildUdpPacket(srcMac: seq<byte>, dstMac: seq<byte>, src: seq<byte>, dst: seq<byte>, srcPort: nat,
                        dstPort: nat, data: seq<byte>)
    returns (pkt: seq<byte>)
    requires |srcMac| == 6 && |dstMac| == 6 && |src| == 4 && |dst| == 4 && srcPort < 0x1_0000 && dstPort < 0x1_0000
    requires 8 + |data| <= 65535
    ensures |pkt| == 42 + |data|
    ensures pkt[..14] == dstMac + srcMac + [0x08, 0x00]
    ensures HeaderFields(pkt[14..34], src, dst, 8 + |data|, 17) && pkt[26..30] == src && pkt[30..34] == dst
    ensures pkt[34..40] == Swapped(srcPort) + Swapped(dstPort) + Swapped(8 + |data|)
    ensures pkt[42..] == data
    ensures pkt[40] != 0 || pkt[41] != 0
    ensures Fold(Words(PseudoHeader(src, dst, 17, 8 + |data|) + pkt[34..])) == ONES
  {
    hide Fold;
    hide Words;
    hide HeaderBytes;
    hide Frame;
    hide Pseudo;
    hide UdpSum;
    hide HeaderFields;
    hide PseudoHeader;
    var len := 8 + |data|;
    var fields := Swapped(srcPort) + Swapped(dstPort) + Swapped(len);
    var buf := fields + [0, 0] + data;
    var checksum := CalcUdpChecksum(src, dst, 17, buf);
    UdpVerifies(Pseudo(src, dst, 17, 8 + |data|), buf, 6);
    var full := Stored(buf, 6, checksum);
    var ip := NewHeader(src, dst, |full|, 17);
    pkt := Frame(dstMac, srcMac, ip, full);
    assert pkt[42..] == full[8..] == data;
    PseudoSum(src, dst, 17, 8 + |data|, full);
    AddressesAt(pkt, ip, src, dst, 8 + |data|, 17);
    assert pkt[34..40] == full[..6] == fields;
  }
}
