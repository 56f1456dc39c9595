// Whole runs of file calls, as the callers see them.
module FileRuns {
  import opened Bytes
  import opened FileModel

  // ------------------------------------------------- what every step keeps

  ghost predicate Held(s: Machine, c: nat, size: nat) {
    (c == 0 && size == 0) || (c in s.files && size <= |s.files[c]|)
  }

  ghost predicate Unique(list: seq<Record>) {
    forall i, j :: 0 <= i < |list| && 0 <= j < |list| && list[i].cluster == list[j].cluster != 0 ==> i == j
  }

  /** Every size a descriptor or the directory knows is covered by the file's bytes; no two records share a file. */
  ghost predicate Sound(s: Machine) {
    && |s.fds| == 256
    && (forall i :: 0 <= i < |s.fds| && s.fds[i].Some? ==>
          Held(s, s.fds[i].value.cluster, s.fds[i].value.fileSize) && s.fds[i].value.fileSize < 0x1_0000_0000)
    && (forall r :: r in s.listing ==> Held(s, r.cluster, r.size) && r.size < 0x1_0000_0000)
    && Unique(s.listing)
  }

  lemma {:induction false} ResizedRecords(list: seq<Record>, c: nat, size: nat, i: nat)
    requires i < |list| && Unique(list) && c != 0
    ensures Resized(list, c, size)[i] == if list[i].cluster == c then list[i].(size := size) else list[i]
  {
    if list[0].cluster == c {
      assert i > 0 ==> list[i].cluster != c;
    } else if i > 0 {
      TailUnique(list);
      ResizedRecords(list[1..], c, size, i - 1);
    }
  }

  lemma TailUnique(list: seq<Record>)
    requires Unique(list) && list != []
    ensures Unique(list[1..])
  {
    var t := list[1..];
    forall i, j | 0 <= i < |t| && 0 <= j < |t| && t[i].cluster == t[j].cluster != 0 ensures i == j {
      assert list[i + 1] == t[i] && list[j + 1] == t[j];
    }
  }

  lemma ResizedUnique(list: seq<Record>, c: nat, size: nat)
    requires Unique(list) && c != 0
    ensures Unique(Resized(list, c, size))
  {
    var r := Resized(list, c, size);
    forall i, j | 0 <= i < |r| && 0 <= j < |r| && r[i].cluster == r[j].cluster != 0 ensures i == j {
      ResizedRecords(list, c, size, i);
      ResizedRecords(list, c, size, j);
    }
  }

  lemma ResizedHeld(s: Machine, t: Machine, c: nat, size: nat)
    requires Unique(s.listing) && c in t.files && c != 0 && size <= |t.files[c]| && size < 0x1_0000_0000
    requires forall x, n: nat :: Held(s, x, n) ==> Held(t, x, n)
    requires forall r :: r in s.listing ==> Held(s, r.cluster, r.size) && r.size < 0x1_0000_0000
    ensures forall r :: r in Resized(s.listing, c, size) ==> Held(t, r.cluster, r.size) && r.size < 0x1_0000_0000
  {
    hide Held;
    hide Unique;
    var list := Resized(s.listing, c, size);
    forall r | r in list ensures Held(t, r.cluster, r.size) && r.size < 0x1_0000_0000 {
      var i :| 0 <= i < |list| && list[i] == r;
      ResizedRecords(s.listing, c, size, i);
      assert s.listing[i] in s.listing;
      HeldBySize(t, c, size);
    }
  }

  lemma HeldBySize(s: Machine, c: nat, size: nat)
    requires c in s.files && size <= |s.files[c]|
    ensures Held(s, c, size)
  {
  }

  lemma WriteKeepsSound(s: Machine, fd: nat, data: seq<byte>, t: Machine, ret: int)
    requires Sound(s) && fd < |s.fds| && s.fds[fd].Some? && s.fds[fd].value.cluster != 0
    requires WriteStep(s, fd, data, t, ret)
    ensures Sound(t)
  {
    hide Unique;
    var f := s.fds[fd].value;
    var h := f.cluster;
    assert |s.files[h]| <= |t.files[h]|;
    forall c, size: nat | Held(s, c, size) ensures Held(t, c, size) {}
    if ret >= 0 && f.position + ret > f.fileSize {
      ResizedUnique(s.listing, h, NewSize(f, ret));
      ResizedHeld(s, t, h, NewSize(f, ret));
    }
  }

  lemma OpenKeepsSound(s: Machine, path: seq<byte>, t: Machine, ret: int)
    requires Sound(s) && OpenStep(s, path, t, ret)
    ensures Sound(t)
  {
    hide Unique;
    assert t.listing == s.listing && t.files == s.files;
  }

  /** The cursor moved, or memory changed, and nothing else. */
  lemma MoveKeepsSound(s: Machine, t: Machine)
    requires Sound(s) && t.listing == s.listing && t.files == s.files && |t.fds| == |s.fds|
    requires forall i :: 0 <= i < |s.fds| && t.fds[i].Some? ==>
               s.fds[i].Some? && t.fds[i].value == s.fds[i].value.(position := t.fds[i].value.position)
    ensures Sound(t)
  {
    hide Unique;
  }

  /** Every call keeps the machine sound. */
  lemma StepKeepsSound(s: Machine, call: Call, t: Machine, ret: int)
    requires Sound(s) && InDomain(s, call) && Step(s, call, t, ret)
    ensures Sound(t)
  {
    hide OpenStep;
    hide WriteStep;
    hide SeekTarget;
    hide Signed64;
    hide Unique;
    hide Held;
    match call
    case Write(fd, ptr, len) =>
      if Accepts(s.fds, fd, ptr, len) { WriteKeepsSound(s, fd, s.mem[ptr..ptr + len], t, ret); }
    case Open(path) =>
      OpenKeepsSound(s, path, t, ret);
    case _ =>
      MoveKeepsSound(s, t);
  }

  lemma {:induction false} RunKeepsSound(states: seq<Machine>, calls: seq<Call>, rets: seq<int>, i: nat)
    requires Run(states, calls, rets) && Sound(states[0]) && i <= |rets|
    ensures Sound(states[i])
  {
    hide Step;
    hide Sound;
    hide InDomain;
    if i == 0 {
    } else {
      RunKeepsSound(states, calls, rets, i - 1);
      assert StepAt(states, calls, rets, i - 1);
      StepKeepsSound(states[i - 1], calls[i - 1], states[i], rets[i - 1]);
    }
  }

  // ------------------------------------------------------------ round trip

  ghost predicate HasBytes(s: Machine, h: nat, p: nat, data: seq<byte>) {
    h in s.files && p + |data| <= |s.files[h]| && s.files[h][p..p + |data|] == data
  }

  /** The call is not a write that could touch bytes `p`..`p + n` of file `h`. */
  predicate Spares(s: Machine, call: Call, h: nat, p: nat, n: nat) {
    match call
    case Write(fd, ptr, len) =>
      Accepts(s.fds, fd, ptr, len) && Fd(s, fd).value.cluster == h ==>
        Fd(s, fd).value.position + len <= p || p + n <= Fd(s, fd).value.position
    case _ => true
  }

  lemma StepSpares(s: Machine, call: Call, t: Machine, ret: int, h: nat, p: nat, data: seq<byte>)
    requires InDomain(s, call) && Step(s, call, t, ret) && HasBytes(s, h, p, data) && Spares(s, call, h, p, |data|)
    ensures HasBytes(t, h, p, data)
  {
    match call
    case Write(fd, ptr, len) =>
      if Accepts(s.fds, fd, ptr, len) && Fd(s, fd).value.cluster == h {
        var before, after := s.files[h], t.files[h];
        forall k | p <= k < p + |data| ensures after[k] == data[k - p] {
          assert before[k] == before[p..p + |data|][k - p];
          assert after[k] == before[k];
        }
        assert after[p..p + |data|] == data;
      }
    case Open(path) =>
      assert t.files == s.files;
    case _ =>
  }

  /**
   * Bytes of a file stay over any run of calls that spares them, whatever other files, descriptors or offsets it
   * works on.
   */
  lemma {:induction false} RunSpares(states: seq<Machine>, calls: seq<Call>, rets: seq<int>, i: nat, j: nat, h: nat,
                                     p: nat, data: seq<byte>)
    requires Run(states, calls, rets) && i <= j <= |rets| && HasBytes(states[i], h, p, data)
    requires forall k :: i <= k < j ==> Spares(states[k], calls[k], h, p, |data|)
    ensures HasBytes(states[j], h, p, data)
  {
    hide Step;
    hide HasBytes;
    hide Spares;
    hide InDomain;
    if i == j {
    } else {
      RunSpares(states, calls, rets, i, j - 1, h, p, data);
      assert StepAt(states, calls, rets, j - 1);
      StepSpares(states[j - 1], calls[j - 1], states[j], rets[j - 1], h, p, data);
    }
  }

  /** The descriptor still names the same file and knows of at least as many bytes. */
  ghost predicate KeepsFile(s: Machine, t: Machine, fd: nat) {
    && Fd(s, fd).Some? && Fd(t, fd).Some?
    && Fd(t, fd).value.cluster == Fd(s, fd).value.cluster && Fd(t, fd).value.isDir == Fd(s, fd).value.isDir
    && Fd(s, fd).value.fileSize <= Fd(t, fd).value.fileSize < 0x1_0000_0000
  }

  predicate Writes(call: Call, fd: nat) { call.Write? && call.fd == fd }

  /** The call does not close `fd`, and does not write through it to 2^32 or beyond. */
  predicate LeavesFd(s: Machine, call: Call, fd: nat) {
    && call != Close(fd)
    && (Writes(call, fd) && Fd(s, fd).Some? ==> Fd(s, fd).value.position + call.len < 0x1_0000_0000)
  }

  lemma StepLeavesFd(s: Machine, call: Call, t: Machine, ret: int, fd: nat)
    requires InDomain(s, call) && Step(s, call, t, ret) && LeavesFd(s, call, fd)
    requires Fd(s, fd).Some? && Fd(s, fd).value.fileSize < 0x1_0000_0000
    ensures KeepsFile(s, t, fd)
    ensures !Writes(call, fd) ==> Fd(t, fd).value.fileSize == Fd(s, fd).value.fileSize
  {
  }

  /** A descriptor left open keeps its file and never knows of fewer bytes; unwritten, it knows of the same. */
  lemma {:induction false} RunLeavesFd(states: seq<Machine>, calls: seq<Call>, rets: seq<int>, i: nat, j: nat, fd: nat)
    requires Run(states, calls, rets) && i <= j <= |rets|
    requires Fd(states[i], fd).Some? && Fd(states[i], fd).value.fileSize < 0x1_0000_0000
    requires forall k :: i <= k < j ==> LeavesFd(states[k], calls[k], fd)
    ensures KeepsFile(states[i], states[j], fd)
    ensures (forall k :: i <= k < j ==> !Writes(calls[k], fd)) ==>
              Fd(states[j], fd).value.fileSize == Fd(states[i], fd).value.fileSize
  {
    hide Step;
    hide InDomain;
    hide LeavesFd;
    hide Writes;
    if i == j {
    } else {
      RunLeavesFd(states, calls, rets, i, j - 1, fd);
      assert StepAt(states, calls, rets, j - 1);
      StepLeavesFd(states[j - 1], calls[j - 1], states[j], rets[j - 1], fd);
    }
  }

  lemma WriteStores(s: Machine, fd: nat, ptr: nat, len: nat, t: Machine, ret: int)
    requires Sound(s) && InDomain(s, Write(fd, ptr, len)) && Step(s, Write(fd, ptr, len), t, ret) && ret >= 0
    ensures Fd(s, fd).Some? && Fd(t, fd).Some? && 0 < ret <= len
    ensures var f, f' := Fd(s, fd).value, Fd(t, fd).value;
            && f.cluster != 0 && f'.cluster == f.cluster && !f'.isDir && f'.fileSize < 0x1_0000_0000
            && HasBytes(t, f.cluster, f.position, s.mem[ptr..ptr + ret])
            && (f.position + ret <= f'.fileSize <==> f.position + ret < 0x1_0000_0000)
  {
    hide Unique;
    hide Held;
    hide Resized;
    assert s.mem[ptr..ptr + len][..ret] == s.mem[ptr..ptr + ret];
  }

  lemma SeekMoves(s: Machine, fd: nat, pos: nat, t: Machine, ret: int)
    requires InDomain(s, Seek(fd, pos)) && Step(s, Seek(fd, pos), t, ret) && Fd(s, fd).Some?
    ensures Fd(t, fd) == Some(Fd(s, fd).value.(position := pos))
  {
  }

  /**
   * Reading back: with the position at `p`, a read of `n` bytes the file has at `p` returns them all iff the known
   * size covers them.
   */
  lemma ReadGets(s: Machine, fd: nat, ptr: nat, n: nat, t: Machine, ret: int, p: nat, data: seq<byte>)
    requires InDomain(s, Read(fd, ptr, n)) && Step(s, Read(fd, ptr, n), t, ret) && ptr != 0 && n > 0 && |data| == n
    requires Fd(s, fd).Some? && !Fd(s, fd).value.isDir && Fd(s, fd).value.position == p
    requires HasBytes(s, Fd(s, fd).value.cluster, p, data)
    ensures ret == n <==> p + n <= Fd(s, fd).value.fileSize
    ensures ret == n ==> ptr + n <= |t.mem| && t.mem[ptr..ptr + n] == data
  {
  }

  /**
   * Round trip. A write through `fd` returned n at position p. Then came any run of calls that spares those bytes,
   * leaves `fd` open, and writes through it only below 2^32. Seeking back to p and reading n bytes returns exactly the
   * first n bytes written - if and only if p + n is below 2^32, the limit of the size field.
   */
  lemma RoundTrip(states: seq<Machine>, calls: seq<Call>, rets: seq<int>, fd: nat, ptr: nat, len: nat, ptr2: nat)
    requires Run(states, calls, rets) && Sound(states[0]) && |rets| >= 3
    requires calls[0] == Write(fd, ptr, len) && rets[0] >= 0
    requires var m := |rets|; var f := Fd(states[0], fd).value;
             && calls[m - 2] == Seek(fd, f.position) && calls[m - 1] == Read(fd, ptr2, rets[0]) && ptr2 != 0
             && forall k :: 1 <= k < m - 2 ==>
                  Spares(states[k], calls[k], f.cluster, f.position, rets[0]) && LeavesFd(states[k], calls[k], fd)
    ensures Fd(states[0], fd).Some? && ptr + rets[0] <= |states[0].mem|
    ensures var m, n := |rets|, rets[0];
            && (rets[m - 1] == n <==> Fd(states[0], fd).value.position + n < 0x1_0000_0000)
            && (rets[m - 1] == n ==>
                  ptr2 + n <= |states[m].mem| && states[m].mem[ptr2..ptr2 + n] == states[0].mem[ptr..ptr + n])
  {
    hide Step;
    hide HasBytes;
    hide Sound;
    hide Accepts;
    var m, n := |rets|, rets[0];
    assert StepAt(states, calls, rets, 0);
    WriteStores(states[0], fd, ptr, len, states[1], n);
    var f := Fd(states[0], fd).value;
    var data := states[0].mem[ptr..ptr + n];
    RunSpares(states, calls, rets, 1, m - 2, f.cluster, f.position, data);
    RunLeavesFd(states, calls, rets, 1, m - 2, fd);
    assert StepAt(states, calls, rets, m - 2);
    StepSpares(states[m - 2], calls[m - 2], states[m - 1], rets[m - 2], f.cluster, f.position, data);
    SeekMoves(states[m - 2], fd, f.position, states[m - 1], rets[m - 2]);
    assert StepAt(states, calls, rets, m - 1);
    ReadGets(states[m - 1], fd, ptr2, n, states[m], rets[m - 1], f.position, data);
  }

  /** One empty file named "A" with `own` bytes in its cluster, `room` more bytes free, nothing open. */
  function OneFile(own: nat, room: nat): Machine {
    Machine([Record([0x41], 5, 0)], map[5 := seq(own, _ => 0)], room, seq(256, _ => None), [0, 7])
  }

  /** The same with `fd` opened on the file. */
  function Opened(s: Machine, fd: nat): Machine
    requires fd < |s.fds|
  {
    s.(fds := s.fds[fd := Some(FileDescriptor(5, 0, false, 0))])
  }

  /** One byte written through descriptor 3 at `p`: the file has `bytes` and the known size is `size`. */
  function Poked(s: Machine, p: nat, bytes: seq<byte>, room: nat, size: nat): Machine
    requires |s.fds| == 256
  {
    s.(listing := [Record([0x41], 5, size)], files := map[5 := bytes], room := room,
       fds := s.fds[3 := Some(FileDescriptor(5, p + 1, false, size))])
  }

  lemma OneFileSound(own: nat, room: nat)
    ensures Sound(OneFile(own, room)) && NothingOpen(OneFile(own, room))
  {
    var s := OneFile(own, room);
    assert forall r :: r in s.listing ==> r == Record([0x41], 5, 0);
  }

  lemma Opens(s: Machine, fd: nat)
    requires |s.fds| == 256 && s.listing == [Record([0x41], 5, 0)]
    requires 3 <= fd < 256 && s.fds[fd].None? && forall k :: 3 <= k < fd ==> s.fds[k].Some?
    ensures Step(s, Open([0x41]), Opened(s, fd), fd)
  {
    assert s.listing[0] == Record([0x41], 5, 0);
    var slot := FreeSlot(s.fds, 3);
    assert slot.Some? && slot.value == fd;
  }

  lemma Pokes(s: Machine, p: nat, bytes: seq<byte>, room: nat)
    requires |s.fds| == 256 && s.listing == [Record([0x41], 5, 0)] && s.mem == [0, 7]
    requires s.fds[3] == Some(FileDescriptor(5, p, false, 0)) && s.files == map[5 := seq(512, _ => 0)]
    requires p < |bytes| && 512 <= |bytes| && |bytes| + room == 512 + s.room
    requires forall k :: 0 <= k < |bytes| ==> bytes[k] == if k == p then 7 else 0
    ensures InDomain(s, Write(3, 1, 1))
    ensures Step(s, Write(3, 1, 1), Poked(s, p, bytes, room, (p + 1) % 0x1_0000_0000), 1)
  {
    var t := Poked(s, p, bytes, room, (p + 1) % 0x1_0000_0000);
    var data := s.mem[1..2];
    assert data == [7] && data[..1] == data;
    assert bytes[p..p + 1] == data;
    assert t.files == s.files[5 := bytes];
    assert s.listing[0] == Record([0x41], 5, 0) && s.listing[1..] == [];
    assert t.listing == Resized(s.listing, 5, (p + 1) % 0x1_0000_0000);
  }

  lemma Seeks(s: Machine, f: FileDescriptor, p: nat)
    requires |s.fds| == 256 && s.fds[3] == Some(f) && p < 0x8000_0000_0000_0000
    ensures Step(s, Seek(3, p), s.(fds := s.fds[3 := Some(f.(position := p))]), p)
  {
  }

  lemma HasByte(s: Machine, p: nat, bytes: seq<byte>)
    requires s.files == map[5 := bytes] && p < |bytes| && bytes[p] == 7
    ensures HasBytes(s, 5, p, [7])
  {
    assert bytes[p..p + 1] == [7];
  }

  lemma ReadsNothing(s: Machine, f: FileDescriptor)
    requires |s.fds| == 256 && s.fds[3] == Some(f) && !f.isDir && f.fileSize <= f.position && |s.mem| == 2
    ensures InDomain(s, Read(3, 1, 1)) && Step(s, Read(3, 1, 1), s, 0)
  {
  }

  const LAST_OFFSET: nat := 0xFFFF_FFFF

  /**
   * At the limit the round trip does fail: open a file, seek, write one byte at 2^32 - 1, seek back, and nothing can be
   * read, although the byte is in the file.
   */
  lemma SizeWraps() returns (states: seq<Machine>, calls: seq<Call>, rets: seq<int>)
    ensures Run(states, calls, rets) && Sound(states[0]) && NothingOpen(states[0])
    ensures var p := LAST_OFFSET;
            calls == [Open([0x41]), Seek(3, p), Write(3, 1, 1), Seek(3, p), Read(3, 1, 1)]
    ensures rets == [3, LAST_OFFSET, 1, LAST_OFFSET, 0] && HasBytes(states[5], 5, LAST_OFFSET, [7])
  {
    var p := LAST_OFFSET;
    var s := OneFile(512, 0x1_0000_0000);
    var bytes: seq<byte> := seq(0x1_0000_0000, k => if k == p then 7 else 0);
    var s1 := Opened(s, 3);
    var s2 := s1.(fds := s1.fds[3 := Some(FileDescriptor(5, p, false, 0))]);
    var s3 := Poked(s2, p, bytes, 512, 0);
    var s4 := s3.(fds := s3.fds[3 := Some(FileDescriptor(5, p, false, 0))]);
    states, calls, rets := [s, s1, s2, s3, s4, s4],
                           [Open([0x41]), Seek(3, p), Write(3, 1, 1), Seek(3, p), Read(3, 1, 1)],
                           [3, p, 1, p, 0];
    hide Step;
    hide Sound;
    hide NothingOpen;
    hide HasBytes;
    OneFileSound(512, 0x1_0000_0000);
    Opens(s, 3);
    Seeks(s1, FileDescriptor(5, 0, false, 0), p);
    Pokes(s2, p, bytes, 512);
    Seeks(s3, FileDescriptor(5, p + 1, false, 0), p);
    ReadsNothing(s4, FileDescriptor(5, p, false, 0));
    assert HasBytes(s4, 5, p, [7]) by { HasByte(s4, p, bytes); }
    assert StepAt(states, calls, rets, 0) && StepAt(states, calls, rets, 1) && StepAt(states, calls, rets, 2);
    assert StepAt(states, calls, rets, 3) && StepAt(states, calls, rets, 4);
  }

  /**
   * An lseek takes start, position or size plus offset as a 64-bit word and fails when that is negative as a signed
   * word. So it lands at the plain sum if and only if the sum is neither negative nor 2^63 or more.
   */
  lemma SeekLands(f: FileDescriptor, offset: int, whence: nat)
    requires whence <= 2 && -0x8000_0000_0000_0000 <= offset < 0x8000_0000_0000_0000
    ensures var sum := (if whence == 0 then 0 else if whence == 1 then f.position else f.fileSize) + offset;
            var word := sum % 0x1_0000_0000_0000_0000;
            && SeekTarget(f, offset, whence) == (if word < 0x8000_0000_0000_0000 then Some(word) else None)
            && (SeekTarget(f, offset, whence) == Some(sum) <==> 0 <= sum < 0x8000_0000_0000_0000)
  {
    hide Signed64;
    SignedWord(offset);
    SignedWord(f.position + offset);
    SignedWord(f.fileSize + offset);
    SignedTwice(f.position, offset);
  }

  lemma SignedWord(x: int)
    ensures var word := x % 0x1_0000_0000_0000_0000;
            Signed64(x) == if word < 0x8000_0000_0000_0000 then word else word - 0x1_0000_0000_0000_0000
    ensures -0x8000_0000_0000_0000 <= x < 0x8000_0000_0000_0000 <==> Signed64(x) == x
  {
  }

  lemma SignedTwice(x: int, y: int)
    ensures Signed64(Signed64(x) + y) == Signed64(x + y)
  {
    var d := x - Signed64(x);
    assert d % 0x1_0000_0000_0000_0000 == 0;
    assert (x + y) % 0x1_0000_0000_0000_0000 == (x + y - d) % 0x1_0000_0000_0000_0000;
  }

  // ------------------------------------------------- directory and descriptors

  /** No file is open twice. */
  ghost predicate SingleOpen(s: Machine) {
    forall i, j :: (0 <= i < |s.fds| && 0 <= j < |s.fds| && s.fds[i].Some? && s.fds[j].Some?
                    && s.fds[i].value.cluster == s.fds[j].value.cluster != 0) ==> i == j
  }

  /** The directory knows the size every open descriptor knows. */
  ghost predicate Coherent(s: Machine) {
    forall i :: 0 <= i < |s.fds| && s.fds[i].Some? && s.fds[i].value.cluster != 0 ==> Listed(s.listing, s.fds[i].value)
  }

  ghost predicate Listed(list: seq<Record>, f: FileDescriptor) {
    exists k :: 0 <= k < |list| && list[k].cluster == f.cluster && list[k].size == f.fileSize
  }

  lemma ListedResized(list: seq<Record>, f: FileDescriptor, c: nat, size: nat)
    requires Unique(list) && c != 0
    requires f.cluster == c ==> size == f.fileSize && exists k :: 0 <= k < |list| && list[k].cluster == c
    requires f.cluster != c ==> Listed(list, f)
    ensures Listed(Resized(list, c, size), f)
  {
    var k :| 0 <= k < |list| && list[k].cluster == f.cluster && (f.cluster != c ==> list[k].size == f.fileSize);
    ResizedRecords(list, c, size, k);
  }

  lemma NoLongerListed(list: seq<Record>, f: FileDescriptor, c: nat, size: nat)
    requires Unique(list) && c != 0 && f.cluster == c && size != f.fileSize
    ensures !Listed(Resized(list, c, size), f)
  {
    var r := Resized(list, c, size);
    forall k | 0 <= k < |r| && r[k].cluster == c ensures r[k].size == size {
      ResizedRecords(list, c, size, k);
    }
  }

  /** No other descriptor is open on the file of `fd`. */
  predicate OnlyOne(s: Machine, fd: nat)
    requires Fd(s, fd).Some?
  {
    forall i :: 0 <= i < |s.fds| && i != fd && s.fds[i].Some? ==> s.fds[i].value.cluster != Fd(s, fd).value.cluster
  }

  /**
   * What can be told before a call: it is not a write that succeeds, changes the known size, and finds another
   * descriptor open on its file.
   */
  predicate KeepsSizes(s: Machine, call: Call) {
    match call
    case Write(fd, ptr, len) =>
      Accepts(s.fds, fd, ptr, len) && Fd(s, fd).value.cluster in s.files ==>
        var f := Fd(s, fd).value;
        var n := WriteCount(|s.files[f.cluster]| + s.room, f.position, len);
        n < 0 || NewSize(f, n) == f.fileSize || OnlyOne(s, fd)
    case _ => true
  }

  lemma SameSize(list: seq<Record>, f: FileDescriptor, g: FileDescriptor)
    requires Unique(list) && Listed(list, f) && Listed(list, g) && f.cluster == g.cluster != 0
    ensures f.fileSize == g.fileSize
  {
  }

  lemma WriteLists(s: Machine, fd: nat, data: seq<byte>, t: Machine, ret: int, i: nat)
    requires Sound(s) && Coherent(s)
    requires fd < |s.fds| && s.fds[fd].Some? && s.fds[fd].value.cluster != 0 && WriteStep(s, fd, data, t, ret)
    requires ret < 0 || NewSize(s.fds[fd].value, ret) == s.fds[fd].value.fileSize || OnlyOne(s, fd)
    requires i < |t.fds| && t.fds[i].Some? && t.fds[i].value.cluster != 0
    ensures Listed(t.listing, t.fds[i].value)
  {
    var f, g := s.fds[fd].value, t.fds[i].value;
    assert Listed(s.listing, f);
    if i != fd {
      assert Listed(s.listing, g);
      if g.cluster == f.cluster { SameSize(s.listing, f, g); }
    }
    if ret >= 0 && f.position + ret > f.fileSize {
      ListedResized(s.listing, g, f.cluster, NewSize(f, ret));
    }
  }

  lemma WriteCoherent(s: Machine, fd: nat, data: seq<byte>, t: Machine, ret: int)
    requires Sound(s) && Coherent(s)
    requires fd < |s.fds| && s.fds[fd].Some? && s.fds[fd].value.cluster != 0 && WriteStep(s, fd, data, t, ret)
    ensures Coherent(t) <==> ret < 0 || NewSize(s.fds[fd].value, ret) == s.fds[fd].value.fileSize || OnlyOne(s, fd)
  {
    var f := s.fds[fd].value;
    if ret < 0 || NewSize(f, ret) == f.fileSize || OnlyOne(s, fd) {
      forall i | 0 <= i < |t.fds| && t.fds[i].Some? && t.fds[i].value.cluster != 0
        ensures Listed(t.listing, t.fds[i].value)
      {
        WriteLists(s, fd, data, t, ret, i);
      }
    } else {
      var i :| 0 <= i < |s.fds| && i != fd && s.fds[i].Some? && s.fds[i].value.cluster == f.cluster;
      assert Listed(s.listing, f) && Listed(s.listing, s.fds[i].value);
      SameSize(s.listing, f, s.fds[i].value);
      NoLongerListed(s.listing, s.fds[i].value, f.cluster, NewSize(f, ret));
      assert t.fds[i] == s.fds[i];
    }
  }

  lemma OpenKeepsCoherent(s: Machine, path: seq<byte>, t: Machine, ret: int)
    requires Coherent(s) && OpenStep(s, path, t, ret)
    ensures Coherent(t)
  {
    var rec := FindRecord(s.listing, ByName(path));
    if ret >= 0 {
      assert rec.value in s.listing;
      assert Listed(t.listing, t.fds[ret].value);
      forall i | 0 <= i < |t.fds| && i != ret && t.fds[i].Some? && t.fds[i].value.cluster != 0
        ensures Listed(t.listing, t.fds[i].value)
      {
        assert s.fds[i] == t.fds[i];
      }
    }
  }

  /** A call keeps directory sizes and descriptor sizes equal if and only if it meets `KeepsSizes`. */
  lemma StepCoherent(s: Machine, call: Call, t: Machine, ret: int)
    requires Sound(s) && Coherent(s) && InDomain(s, call) && Step(s, call, t, ret)
    ensures Coherent(t) <==> KeepsSizes(s, call)
  {
    hide OpenStep;
    hide Listed;
    hide OnlyOne;
    hide NewSize;
    match call
    case Write(fd, ptr, len) =>
      if Accepts(s.fds, fd, ptr, len) { WriteCoherent(s, fd, s.mem[ptr..ptr + len], t, ret); }
    case Open(path) =>
      OpenKeepsCoherent(s, path, t, ret);
    case Seek(fd, pos) => SameSizesCoherent(s, t);
    case LSeek(fd, offset, whence) => SameSizesCoherent(s, t);
    case Read(fd, ptr, len) => SameSizesCoherent(s, t);
    case Close(fd) =>
      forall i | 0 <= i < |t.fds| && t.fds[i].Some? && t.fds[i].value.cluster != 0
        ensures Listed(t.listing, t.fds[i].value)
      {
        assert s.fds[i] == t.fds[i];
      }
  }

  /** Without the condition coherence is lost: a file opened twice, then a growing write through one descriptor. */
  lemma TwoDescriptorsDisagree() returns (states: seq<Machine>, calls: seq<Call>, rets: seq<int>)
    ensures Run(states, calls, rets) && Sound(states[0]) && NothingOpen(states[0])
    ensures calls == [Open([0x41]), Open([0x41]), Write(3, 1, 1)] && rets == [3, 4, 1]
    ensures Coherent(states[2]) && !Coherent(states[3])
  {
    var s := OneFile(512, 0);
    var bytes: seq<byte> := seq(512, k => if k == 0 then 7 else 0);
    var s1 := Opened(s, 3);
    var s2 := Opened(s1, 4);
    var s3 := Poked(s2, 0, bytes, 0, 1);
    states, calls, rets := [s, s1, s2, s3], [Open([0x41]), Open([0x41]), Write(3, 1, 1)], [3, 4, 1];
    hide Step;
    hide Sound;
    hide NothingOpen;
    OneFileSound(512, 0);
    Opens(s, 3);
    Opens(s1, 4);
    Pokes(s2, 0, bytes, 0);
    assert StepAt(states, calls, rets, 0) && StepAt(states, calls, rets, 1) && StepAt(states, calls, rets, 2);
    assert s2.listing[0] == Record([0x41], 5, 0);
    assert !Listed(s3.listing, s3.fds[4].value);
  }

  predicate OnlyMoved(f: Option<FileDescriptor>, f': Option<FileDescriptor>) {
    f.None? == f'.None? && (f.Some? ==> f'.value == f.value.(position := f'.value.position))
  }

  lemma SameSizesCoherent(s: Machine, t: Machine)
    requires Coherent(s) && t.listing == s.listing && |t.fds| == |s.fds|
    requires forall i :: 0 <= i < |s.fds| ==> OnlyMoved(s.fds[i], t.fds[i])
    ensures Coherent(t)
  {
    forall i | 0 <= i < |t.fds| && t.fds[i].Some? && t.fds[i].value.cluster != 0
      ensures Listed(t.listing, t.fds[i].value)
    {
      assert Listed(s.listing, s.fds[i].value);
      var k :| 0 <= k < |s.listing| && s.listing[k].cluster == s.fds[i].value.cluster
             && s.listing[k].size == s.fds[i].value.fileSize;
    }
  }

  ghost predicate NothingOpen(s: Machine) {
    forall k :: 0 <= k < |s.fds| ==> s.fds[k].None?
  }

  lemma NothingOpenCoherent(s: Machine)
    requires NothingOpen(s)
    ensures Coherent(s)
  {
  }

  lemma {:induction false} CoherentUpTo(states: seq<Machine>, calls: seq<Call>, rets: seq<int>, i: nat)
    requires Run(states, calls, rets) && Sound(states[0]) && Coherent(states[0]) && i <= |rets|
    requires forall k :: 0 <= k < i ==> KeepsSizes(states[k], calls[k])
    ensures Coherent(states[i])
  {
    hide Sound;
    hide KeepsSizes;
    hide Coherent;
    hide Step;
    hide InDomain;
    if i == 0 {
    } else {
      CoherentUpTo(states, calls, rets, i - 1);
      RunKeepsSound(states, calls, rets, i - 1);
      assert StepAt(states, calls, rets, i - 1);
      StepCoherent(states[i - 1], calls[i - 1], states[i], rets[i - 1]);
    }
  }

  /** A run is coherent throughout if and only if each of its calls, in the state it finds, meets `KeepsSizes`. */
  lemma RunCoherent(states: seq<Machine>, calls: seq<Call>, rets: seq<int>)
    requires Run(states, calls, rets) && Sound(states[0]) && Coherent(states[0])
    ensures (forall i :: 0 <= i <= |rets| ==> Coherent(states[i]))
       <==> (forall k :: 0 <= k < |rets| ==> KeepsSizes(states[k], calls[k]))
  {
    hide Sound;
    hide KeepsSizes;
    hide Coherent;
    hide Step;
    hide InDomain;
    if forall k :: 0 <= k < |rets| ==> KeepsSizes(states[k], calls[k]) {
      forall i | 0 <= i <= |rets| ensures Coherent(states[i]) { CoherentUpTo(states, calls, rets, i); }
    } else {
      var k :| 0 <= k < |rets| && !KeepsSizes(states[k], calls[k]);
      RunKeepsSound(states, calls, rets, k);
      assert StepAt(states, calls, rets, k);
      if Coherent(states[k]) { StepCoherent(states[k], calls[k], states[k + 1], rets[k]); }
    }
  }

  /** Where no file is open twice no call can break coherence. */
  lemma SingleOpenKeeps(s: Machine, call: Call)
    requires SingleOpen(s) && InDomain(s, call)
    ensures KeepsSizes(s, call)
  {
  }

  /** A run that starts with nothing open and never has a file open twice is coherent throughout. */
  lemma RunKeepsCoherent(states: seq<Machine>, calls: seq<Call>, rets: seq<int>, i: nat)
    requires Run(states, calls, rets) && Sound(states[0]) && NothingOpen(states[0]) && i <= |rets|
    requires forall k :: 0 <= k < i ==> SingleOpen(states[k])
    ensures Coherent(states[i])
  {
    hide Step;
    hide InDomain;
    hide SingleOpen;
    hide KeepsSizes;
    NothingOpenCoherent(states[0]);
    forall k | 0 <= k < i ensures KeepsSizes(states[k], calls[k]) { SingleOpenKeeps(states[k], calls[k]); }
    CoherentUpTo(states, calls, rets, i);
  }

  lemma ReopenSteps(s: Machine, u: Machine, t: Machine, fd: nat, path: seq<byte>, closed: int, ret: int)
    requires Sound(s) && Coherent(s) && 3 <= fd < 256 && Fd(s, fd).Some?
    requires Step(s, Close(fd), u, closed) && Step(u, Open(path), t, ret)
    requires var rec := FindRecord(s.listing, ByName(path));
             rec.Some? && rec.value.cluster == Fd(s, fd).value.cluster != 0
    ensures 3 <= ret <= fd
    ensures Fd(t, ret) == Some(FileDescriptor(Fd(s, fd).value.cluster, 0, false, Fd(s, fd).value.fileSize))
  {
    var f := s.fds[fd].value;
    var rec := FindRecord(s.listing, ByName(path)).value;
    assert Listed(s.listing, f);
    var k :| 0 <= k < |s.listing| && s.listing[k].cluster == f.cluster && s.listing[k].size == f.fileSize;
    var j :| 0 <= j < |s.listing| && s.listing[j] == rec;
    assert j == k && u.fds[fd] == None;
    var slot := FreeSlot(u.fds, 3);
    assert slot.Some? && slot.value <= fd;
  }

  /**
   * Reopening. After any run from an empty table that keeps sizes together, if the name found in the directory is that
   * of a file open as `fd`, then closing it and opening it again gives a descriptor of the same cluster and size.
   */
  lemma Reopen(states: seq<Machine>, calls: seq<Call>, rets: seq<int>, fd: nat, path: seq<byte>)
    requires Run(states, calls, rets) && Sound(states[0]) && NothingOpen(states[0]) && |rets| >= 2
    requires forall k :: 0 <= k < |rets| - 2 ==> KeepsSizes(states[k], calls[k])
    requires calls[|rets| - 2] == Close(fd) && calls[|rets| - 1] == Open(path) && 3 <= fd < 256
    requires var s := states[|rets| - 2]; var rec := FindRecord(s.listing, ByName(path));
             Fd(s, fd).Some? && rec.Some? && rec.value.cluster == Fd(s, fd).value.cluster != 0
    ensures var m := |rets|; var f := Fd(states[m - 2], fd).value;
            && 3 <= rets[m - 1] <= fd
            && Fd(states[m], rets[m - 1]) == Some(FileDescriptor(f.cluster, 0, false, f.fileSize))
  {
    hide Sound;
    hide KeepsSizes;
    hide Coherent;
    hide NothingOpen;
    hide Step;
    var m := |rets|;
    NothingOpenCoherent(states[0]);
    CoherentUpTo(states, calls, rets, m - 2);
    RunKeepsSound(states, calls, rets, m - 2);
    assert StepAt(states, calls, rets, m - 2) && StepAt(states, calls, rets, m - 1);
    ReopenSteps(states[m - 2], states[m - 1], states[m], fd, path, rets[m - 2], rets[m - 1]);
  }

  // ------------------------------------------- written, closed, opened, read

  /** The name leads to the file with first cluster `c`. */
  predicate Leads(list: seq<Record>, path: seq<byte>, c: nat) {
    var rec := FindRecord(list, ByName(path));
    rec.Some? && rec.value.cluster == c
  }

  lemma {:induction false} ResizedLeads(list: seq<Record>, path: seq<byte>, c: nat, h: nat, size: nat)
    requires Leads(list, path, c)
    ensures Leads(Resized(list, h, size), path, c)
  {
    if RecordMatches(list[0], ByName(path)) {
    } else if list[0].cluster == h {
      assert Resized(list, h, size)[1..] == list[1..];
    } else {
      ResizedLeads(list[1..], path, c, h, size);
      assert Resized(list, h, size)[1..] == Resized(list[1..], h, size);
    }
  }

  lemma StepKeepsNames(s: Machine, call: Call, t: Machine, ret: int, path: seq<byte>, c: nat)
    requires InDomain(s, call) && Step(s, call, t, ret) && Leads(s.listing, path, c)
    ensures Leads(t.listing, path, c)
  {
    hide Leads;
    match call
    case Write(fd, ptr, len) =>
      if Accepts(s.fds, fd, ptr, len) && t.listing != s.listing {
        ResizedLeads(s.listing, path, c, Fd(s, fd).value.cluster, NewSize(Fd(s, fd).value, ret));
      }
    case Open(p) => assert t.listing == s.listing;
    case _ =>
  }

  /** No run of calls changes which file a name leads to. */
  lemma {:induction false} RunKeepsNames(states: seq<Machine>, calls: seq<Call>, rets: seq<int>, i: nat,
                                         path: seq<byte>, c: nat)
    requires Run(states, calls, rets) && i <= |rets| && Leads(states[0].listing, path, c)
    ensures Leads(states[i].listing, path, c)
  {
    hide Step;
    hide InDomain;
    hide Leads;
    if i == 0 {
    } else {
      RunKeepsNames(states, calls, rets, i - 1, path, c);
      assert StepAt(states, calls, rets, i - 1);
      StepKeepsNames(states[i - 1], calls[i - 1], states[i], rets[i - 1], path, c);
    }
  }

  /** From a state that holds the bytes: close, open by name, seek and read. */
  lemma ReadsAfterReopen(s: Machine, s1: Machine, s2: Machine, s3: Machine, s4: Machine, fd: nat, path: seq<byte>,
                         p: nat, ptr: nat, data: seq<byte>, r1: int, r2: nat, r3: int, r4: int)
    requires Sound(s) && Coherent(s) && 3 <= fd < 256 && Fd(s, fd).Some? && ptr != 0 && data != []
    requires Fd(s, fd).value.cluster != 0 && Leads(s.listing, path, Fd(s, fd).value.cluster)
    requires HasBytes(s, Fd(s, fd).value.cluster, p, data)
    requires Step(s, Close(fd), s1, r1) && Step(s1, Open(path), s2, r2) && Step(s2, Seek(r2, p), s3, r3)
    requires InDomain(s3, Read(r2, ptr, |data|)) && Step(s3, Read(r2, ptr, |data|), s4, r4)
    ensures r4 == |data| <==> p + |data| <= Fd(s, fd).value.fileSize
    ensures r4 == |data| ==> ptr + |data| <= |s4.mem| && s4.mem[ptr..ptr + |data|] == data
  {
    hide Coherent;
    hide Sound;
    hide HasBytes;
    hide Step;
    hide Unique;
    var h := Fd(s, fd).value.cluster;
    ReopenSteps(s, s1, s2, fd, path, r1, r2);
    StepSpares(s, Close(fd), s1, r1, h, p, data);
    StepSpares(s1, Open(path), s2, r2, h, p, data);
    StepSpares(s2, Seek(r2, p), s3, r3, h, p, data);
    SeekMoves(s2, r2, p, s3, r3);
    ReadGets(s3, r2, ptr, |data|, s4, r4, p, data);
  }

  /**
   * What is written survives closing. A write through `fd` returned n at position p. Then came any run of calls that
   * spares those bytes, leaves `fd` open, writes through it only below 2^32, and keeps sizes together. Closing `fd`,
   * opening the file by its name, seeking to p and reading n bytes returns exactly the first n bytes written - if and
   * only if p + n is below 2^32.
   */
  lemma SurvivesReopen(states: seq<Machine>, calls: seq<Call>, rets: seq<int>, fd: nat, ptr: nat, len: nat,
                       path: seq<byte>, ptr2: nat)
    requires Run(states, calls, rets) && Sound(states[0]) && Coherent(states[0]) && |rets| >= 5 && 3 <= fd < 256
    requires calls[0] == Write(fd, ptr, len) && rets[0] >= 0 && Fd(states[0], fd).Some? && ptr2 != 0
    requires Leads(states[0].listing, path, Fd(states[0], fd).value.cluster)
    requires var m := |rets|; var f := Fd(states[0], fd).value;
             && calls[m - 4] == Close(fd) && calls[m - 3] == Open(path) && rets[m - 3] >= 0
             && calls[m - 2] == Seek(rets[m - 3], f.position) && calls[m - 1] == Read(rets[m - 3], ptr2, rets[0])
             && (forall k :: 0 <= k < m - 4 ==> KeepsSizes(states[k], calls[k]))
             && forall k :: 1 <= k < m - 4 ==>
                  Spares(states[k], calls[k], f.cluster, f.position, rets[0]) && LeavesFd(states[k], calls[k], fd)
    ensures ptr + rets[0] <= |states[0].mem|
    ensures var m, n := |rets|, rets[0];
            && (rets[m - 1] == n <==> Fd(states[0], fd).value.position + n < 0x1_0000_0000)
            && (rets[m - 1] == n ==>
                  ptr2 + n <= |states[m].mem| && states[m].mem[ptr2..ptr2 + n] == states[0].mem[ptr..ptr + n])
  {
    hide Step;
    hide HasBytes;
    hide Sound;
    hide Coherent;
    hide KeepsSizes;
    hide Spares;
    hide LeavesFd;
    hide Leads;
    var m, n := |rets|, rets[0];
    var f := Fd(states[0], fd).value;
    assert StepAt(states, calls, rets, 0);
    WriteStores(states[0], fd, ptr, len, states[1], n);
    var data := states[0].mem[ptr..ptr + n];
    RunSpares(states, calls, rets, 1, m - 4, f.cluster, f.position, data);
    RunLeavesFd(states, calls, rets, 1, m - 4, fd);
    RunKeepsNames(states, calls, rets, m - 4, path, f.cluster);
    RunKeepsSound(states, calls, rets, m - 4);
    CoherentUpTo(states, calls, rets, m - 4);
    assert StepAt(states, calls, rets, m - 4) && StepAt(states, calls, rets, m - 3);
    assert StepAt(states, calls, rets, m - 2) && StepAt(states, calls, rets, m - 1);
    ReadsAfterReopen(states[m - 4], states[m - 3], states[m - 2], states[m - 1], states[m], fd, path,
                     f.position, ptr2, data, rets[m - 4], rets[m - 3], rets[m - 2], rets[m - 1]);
  }

  // ------------------------------------------------------------ conservation

  /** Bytes of all files whose first cluster is in `ids`. */
  ghost function Total(files: map<nat, seq<byte>>, ids: set<nat>): nat
    requires ids <= files.Keys
  {
    if ids == {} then 0 else var x :| x in ids; |files[x]| + Total(files, ids - {x})
  }

  lemma {:induction false} TotalWithout(files: map<nat, seq<byte>>, ids: set<nat>, y: nat)
    requires ids <= files.Keys && y in ids
    ensures Total(files, ids) == |files[y]| + Total(files, ids - {y})
    decreases |ids|
  {
    var x :| x in ids && Total(files, ids) == |files[x]| + Total(files, ids - {x});
    if x != y {
      TotalWithout(files, ids - {x}, y);
      TotalWithout(files, ids - {y}, x);
      assert ids - {x} - {y} == ids - {y} - {x};
    }
  }

  lemma {:induction false} TotalSame(a: map<nat, seq<byte>>, b: map<nat, seq<byte>>, ids: set<nat>)
    requires ids <= a.Keys && ids <= b.Keys && forall x :: x in ids ==> |a[x]| == |b[x]|
    ensures Total(a, ids) == Total(b, ids)
    decreases |ids|
  {
    if ids == {} {
    } else {
      var x :| x in ids && Total(a, ids) == |a[x]| + Total(a, ids - {x});
      TotalWithout(b, ids, x);
      TotalSame(a, b, ids - {x});
    }
  }

  /** All the bytes there are: those of the files and the free room. */
  ghost function Space(s: Machine): nat { Total(s.files, s.files.Keys) + s.room }

  lemma StepConserves(s: Machine, call: Call, t: Machine, ret: int)
    requires InDomain(s, call) && Step(s, call, t, ret)
    ensures t.files.Keys == s.files.Keys
    ensures Space(t) == Space(s)
  {
    match call
    case Write(fd, ptr, len) =>
      if Accepts(s.fds, fd, ptr, len) {
        var h := Fd(s, fd).value.cluster;
        var ids := s.files.Keys;
        assert t.files.Keys == ids;
        TotalWithout(s.files, ids, h);
        TotalWithout(t.files, ids, h);
        TotalSame(s.files, t.files, ids - {h});
      }
    case Open(path) => assert t.files == s.files && t.room == s.room;
    case _ =>
  }

  /** Space is conserved over every run: what files gain is exactly what the free room loses. */
  lemma {:induction false} RunConserves(states: seq<Machine>, calls: seq<Call>, rets: seq<int>, i: nat)
    requires Run(states, calls, rets) && i <= |rets|
    ensures Space(states[i]) == Space(states[0])
  {
    hide Step;
    hide InDomain;
    hide Space;
    if i == 0 {
    } else {
      RunConserves(states, calls, rets, i - 1);
      assert StepAt(states, calls, rets, i - 1);
      StepConserves(states[i - 1], calls[i - 1], states[i], rets[i - 1]);
    }
  }
}
