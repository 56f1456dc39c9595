// What the file calls mean to a caller: files are byte stores, descriptors are cursors, the directory is a list.
// Nothing here knows about sectors, the FAT, or how a file's clusters hang together: a cluster number is a file's name.
module FileModel {
  import opened Bytes

  // ----------------------------------------------------------- the directory

  function Lower(c: byte): byte { if 0x41 <= c <= 0x5A then c + 0x20 else c }

  predicate SameName(a: seq<byte>, b: seq<byte>) {
    |a| == |b| && forall i :: 0 <= i < |a| ==> Lower(a[i]) == Lower(b[i])
  }

  datatype Key = ByName(name: seq<byte>) | ByCluster(cluster: nat)

  datatype Record = Record(name: seq<byte>, cluster: nat, size: nat)

  predicate RecordMatches(r: Record, key: Key) {
    match key
    case ByName(name) => SameName(r.name, name)
    case ByCluster(c) => r.cluster == c
  }

  function FindRecord(list: seq<Record>, key: Key): (r: Option<Record>)
    ensures r.Some? ==> r.value in list && RecordMatches(r.value, key)
    ensures r.None? ==> forall x :: x in list ==> !RecordMatches(x, key)
  {
    if list == [] then None
    else if RecordMatches(list[0], key) then Some(list[0])
    else FindRecord(list[1..], key)
  }

  /** The listing with the size of its first record for `cluster` replaced. */
  function Resized(list: seq<Record>, cluster: nat, size: nat): (r: seq<Record>)
    ensures |r| == |list|
  {
    if list == [] then []
    else if list[0].cluster == cluster then [list[0].(size := size)] + list[1..]
    else [list[0]] + Resized(list[1..], cluster, size)
  }

  // --------------------------------------------------------- the descriptors

  datatype FileDescriptor = FileDescriptor(cluster: nat, position: nat, isDir: bool, fileSize: nat)

  /** First unused descriptor slot from `i` on. */
  function FreeSlot(fds: seq<Option<FileDescriptor>>, i: nat): (r: Option<nat>)
    ensures r.Some? ==> i <= r.value < |fds| && fds[r.value] == None && forall j :: i <= j < r.value ==> fds[j].Some?
    ensures r.None? ==> forall j :: i <= j < |fds| ==> fds[j].Some?
    decreases |fds| - i
  {
    if i >= |fds| then None else if fds[i].None? then Some(i) else FreeSlot(fds, i + 1)
  }

  /** A 64-bit word reinterpreted as signed. */
  function Signed64(x: int): int {
    var m := x % 0x1_0000_0000_0000_0000;
    if m < 0x8000_0000_0000_0000 then m else m - 0x1_0000_0000_0000_0000
  }

  /** Where an lseek call moves the descriptor; None when it fails. Sums wrap around at 64 bits. */
  function SeekTarget(f: FileDescriptor, offset: int, whence: nat): Option<nat> {
    if whence > 2 then None
    else
      var target := if whence == 0 then offset
                    else if whence == 1 then Signed64(Signed64(f.position) + offset)
                    else Signed64(f.fileSize + offset);
      if target < 0 then None else Some(target)
  }

  // ---------------------------------------------- how much a transfer moves

  /** As many bytes as are asked for and lie before the known end. */
  function ReadCount(f: FileDescriptor, len: nat): nat {
    Min(len, if f.fileSize > f.position then f.fileSize - f.position else 0)
  }

  /** What the write call returns: -1 if even all free clusters do not reach `pos`, else as much as they hold. */
  function WriteCount(reach: nat, pos: nat, len: nat): int {
    if reach <= pos then -1 else Min(len, reach - pos)
  }

  /** The counts are the greatest there can be: a byte is moved if it is asked for and lies before the end. */
  lemma CountsAreMost(f: FileDescriptor, reach: nat, len: nat, k: nat)
    requires k > 0
    ensures k <= ReadCount(f, len) <==> k <= len && f.position + k <= f.fileSize
    ensures k <= WriteCount(reach, f.position, len) <==> k <= len && f.position + k <= reach
    ensures WriteCount(reach, f.position, len) == -1 <==> f.position >= reach
  {
  }

  function NewSize(f: FileDescriptor, n: nat): nat {
    if f.position + n > f.fileSize then (f.position + n) % 0x1_0000_0000 else f.fileSize
  }

  // ---------------------------------------------------------------- one call

  /**
   * `files` gives, by first cluster, the bytes each file's space holds; `room` is how many bytes are not yet
   * part of any file; `mem` is the callers' memory.
   */
  datatype Machine = Machine(listing: seq<Record>, files: map<nat, seq<byte>>, room: nat,
                             fds: seq<Option<FileDescriptor>>, mem: seq<byte>)

  datatype Call =
    | Open(path: seq<byte>)
    | Close(fd: nat)
    | Seek(fd: nat, pos: nat)
    | LSeek(fd: nat, offset: int, whence: nat)
    | Read(fd: nat, ptr: nat, len: nat)
    | Write(fd: nat, ptr: nat, len: nat)

  function Slot(fds: seq<Option<FileDescriptor>>, fd: nat): Option<FileDescriptor> {
    if fd < |fds| then fds[fd] else None
  }

  function Fd(s: Machine, fd: nat): Option<FileDescriptor> { Slot(s.fds, fd) }

  /** Arguments a transfer does not reject at once. */
  predicate Accepts(fds: seq<Option<FileDescriptor>>, fd: nat, ptr: nat, len: nat) {
    ptr != 0 && len != 0 && Slot(fds, fd).Some? && !Slot(fds, fd).value.isDir
  }

  /** What callers owe: buffers inside memory, and no write to a file that has no cluster. */
  predicate Permitted(fds: seq<Option<FileDescriptor>>, memSize: nat, call: Call) {
    match call
    case Read(fd, ptr, len) => ptr + len <= memSize
    case Write(fd, ptr, len) =>
      ptr + len <= memSize && (Accepts(fds, fd, ptr, len) ==> Slot(fds, fd).value.cluster != 0)
    case _ => true
  }

  predicate InDomain(s: Machine, call: Call) { Permitted(s.fds, |s.mem|, call) }

  ghost predicate OpenStep(s: Machine, path: seq<byte>, t: Machine, ret: int) {
    var rec := FindRecord(s.listing, ByName(path));
    var slot := FreeSlot(s.fds, 3);
    if rec.None? || slot.None? then t == s && ret == -1
    else
      && ret == slot.value
      && t == s.(fds := s.fds[slot.value := Some(FileDescriptor(rec.value.cluster, 0, false, rec.value.size))])
  }

  ghost predicate ReadStep(s: Machine, fd: nat, ptr: nat, len: nat, t: Machine, ret: int)
    requires fd < |s.fds| && s.fds[fd].Some? && ptr + len <= |s.mem|
  {
    var f := s.fds[fd].value;
    && ret == ReadCount(f, len)
    && (ret == 0 ==> t == s)
    && (ret > 0 ==>
          && f.cluster in s.files && f.position + ret <= |s.files[f.cluster]|
          && t == s.(mem := Splice(s.mem, ptr, s.files[f.cluster][f.position..f.position + ret]),
                     fds := s.fds[fd := Some(f.(position := f.position + ret))]))
  }

  /** Bytes of the written file: `data` at `pos`, the old bytes elsewhere; past the old end they are unspecified. */
  ghost predicate Overwritten(before: seq<byte>, after: seq<byte>, pos: nat, data: seq<byte>) {
    && |before| <= |after| && pos + |data| <= |after|
    && after[pos..pos + |data|] == data
    && forall k :: 0 <= k < |before| && !(pos <= k < pos + |data|) ==> after[k] == before[k]
  }

  ghost predicate WriteStep(s: Machine, fd: nat, data: seq<byte>, t: Machine, ret: int)
    requires fd < |s.fds| && s.fds[fd].Some?
  {
    var f := s.fds[fd].value;
    var h := f.cluster;
    && h in s.files && h in t.files
    && ret == WriteCount(|s.files[h]| + s.room, f.position, |data|) && ret <= |data|
    && |t.files[h]| + t.room == |s.files[h]| + s.room
    && t.files == s.files[h := t.files[h]]
    && t.mem == s.mem
    && (if ret < 0 then
          Overwritten(s.files[h], t.files[h], 0, []) && t.room == 0 && t.fds == s.fds && t.listing == s.listing
        else
          && Overwritten(s.files[h], t.files[h], f.position, data[..ret])
          && t.fds == s.fds[fd := Some(f.(position := f.position + ret, fileSize := NewSize(f, ret)))]
          && t.listing == if f.position + ret > f.fileSize then Resized(s.listing, h, NewSize(f, ret)) else s.listing)
  }

  /** One call: from `s` it leads to `t` and returns `ret`. */
  ghost predicate Step(s: Machine, call: Call, t: Machine, ret: int)
    requires InDomain(s, call)
  {
    match call
    case Open(path) => OpenStep(s, path, t, ret)
    case Close(fd) =>
      if 3 <= fd < 256 then t == s.(fds := if fd < |s.fds| then s.fds[fd := None] else s.fds) && ret == 0
      else t == s && ret == -1
    case Seek(fd, pos) =>
      (match Fd(s, fd)
       case None => t == s && ret == -1
       case Some(f) => t == s.(fds := s.fds[fd := Some(f.(position := pos))]) && ret == Signed64(pos))
    case LSeek(fd, offset, whence) =>
      (match Fd(s, fd)
       case None => t == s && ret == -1
       case Some(f) =>
         match SeekTarget(f, offset, whence)
         case None => t == s && ret == -1
         case Some(p) => t == s.(fds := s.fds[fd := Some(f.(position := p))]) && ret == p)
    case Read(fd, ptr, len) =>
      if Accepts(s.fds, fd, ptr, len) then ReadStep(s, fd, ptr, len, t, ret) else t == s && ret == -1
    case Write(fd, ptr, len) =>
      if Accepts(s.fds, fd, ptr, len) then WriteStep(s, fd, s.mem[ptr..ptr + len], t, ret) else t == s && ret == -1
  }

  /** A run: state `i` leads to state `i + 1` by call `i`. */
  ghost predicate Run(states: seq<Machine>, calls: seq<Call>, rets: seq<int>) {
    && |states| == |rets| + 1 && |rets| <= |calls|
    && forall i :: 0 <= i < |rets| ==> InDomain(states[i], calls[i]) && StepAt(states, calls, rets, i)
  }

  ghost predicate StepAt(states: seq<Machine>, calls: seq<Call>, rets: seq<int>, i: nat)
    requires i < |rets| && |states| == |rets| + 1 && |rets| <= |calls| && InDomain(states[i], calls[i])
  {
    Step(states[i], calls[i], states[i + 1], rets[i])
  }
}
