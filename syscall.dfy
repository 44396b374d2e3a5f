/** The system-call layer: how `syscall_handler` decides, from the user stack, which call
    to make with which arguments, and the handlers behind it over the process's open-file
    table. */
module Syscall {
  import opened Memory
  import opened Validate
  import opened Lifecycle

  // ---------------------------------------------------------------------------------------
  // Dispatch

  /** The calls `syscall_handler` knows. Their numbers come from `lib/syscall-nr.h`, which
      is not part of this model: the numbering is a parameter. */
  datatype Call =
    | Halt | Exit | Exec | Wait | Create | Remove | Open | Filesize | Read | Write | Seek
    | Tell | Close | Sleep

  /** A call with the arguments the handler read from the user stack. Signed `int`
      arguments are already reinterpreted from their 32-bit words. */
  datatype Request =
    | SleepReq(millis: int)
    | HaltReq
    | CreateReq(file: uint32, initialSize: uint32)
    | OpenReq(file: uint32)
    | CloseReq(fd: int)
    | WriteReq(fd: int, buffer: uint32, size: uint32)
    | ReadReq(fd: int, buffer: uint32, size: uint32)
    | RemoveReq(file: uint32)
    | FilesizeReq(fd: int)
    | SeekReq(fd: int, position: uint32)
    | TellReq(fd: int)
    | ExitReq(status: int)
    | ExecReq(cmdLine: uint32)
    | WaitReq(pid: int)

  /** What `syscall_handler` does with a trap: call a handler, terminate the process with
      `exit(-1)`, or read an argument from unmapped memory (a page fault in the kernel). */
  datatype Decision = Invoke(req: Request) | Kill | PageFault

  /** Number of argument words each call reads above the call number. */
  function Slots(c: Call): nat
  {
    match c
    case Halt => 0
    case Create | Seek => 2
    case Write | Read => 3
    case _ => 1
  }

  /** The 32-bit little-endian word at user address `a`. */
  function WordAt(pd: PageMap, a: int): uint32
    requires WellFormed(pd) && UserRange(pd, a, 4)
  {
    Word32(BytesAt(pd, a, 4), 0)
  }

  /** The `k` words from user address `a` upward. */
  function Words(pd: PageMap, a: int, k: nat): (w: seq<uint32>)
    requires WellFormed(pd) && UserRange(pd, a, 4 * k)
    ensures |w| == k
    ensures forall i :: 0 <= i < k ==> UserRange(pd, a + 4 * i, 4) && w[i] == WordAt(pd, a + 4 * i)
  {
    if k == 0 then [] else Words(pd, a, k - 1) + [WordAt(pd, a + 4 * (k - 1))]
  }

  /** The request a call makes of its argument words, as the handler's casts read them. */
  function MakeRequest(c: Call, w: seq<uint32>): Request
    requires |w| == Slots(c)
  {
    match c
    case Sleep => SleepReq(ToInt32(w[0]))
    case Halt => HaltReq
    case Create => CreateReq(w[0], w[1])
    case Open => OpenReq(w[0])
    case Close => CloseReq(ToInt32(w[0]))
    case Write => WriteReq(ToInt32(w[0]), w[1], w[2])
    case Read => ReadReq(ToInt32(w[0]), w[1], w[2])
    case Remove => RemoveReq(w[0])
    case Filesize => FilesizeReq(ToInt32(w[0]))
    case Seek => SeekReq(ToInt32(w[0]), w[1])
    case Tell => TellReq(ToInt32(w[0]))
    case Exit => ExitReq(ToInt32(w[0]))
    case Exec => ExecReq(w[0])
    case Wait => WaitReq(ToInt32(w[0]))
  }

  /** The call a request makes. */
  function CallOf(r: Request): Call
  {
    match r
    case SleepReq(_) => Sleep
    case HaltReq => Halt
    case CreateReq(_, _) => Create
    case OpenReq(_) => Call.Open
    case CloseReq(_) => Call.Close
    case WriteReq(_, _, _) => Call.Write
    case ReadReq(_, _, _) => Call.Read
    case RemoveReq(_) => Remove
    case FilesizeReq(_) => Call.Filesize
    case SeekReq(_, _) => Call.Seek
    case TellReq(_) => Call.Tell
    case ExitReq(_) => Call.Exit
    case ExecReq(_) => Call.Exec
    case WaitReq(_) => Call.Wait
  }

  /** The argument words of a request, as they lay on the stack. */
  function ArgWords(r: Request): seq<uint32>
  {
    match r
    case SleepReq(millis) => [Wrap(millis)]
    case HaltReq => []
    case CreateReq(file, initialSize) => [file, initialSize]
    case OpenReq(file) => [file]
    case CloseReq(fd) => [Wrap(fd)]
    case WriteReq(fd, buffer, size) => [Wrap(fd), buffer, size]
    case ReadReq(fd, buffer, size) => [Wrap(fd), buffer, size]
    case RemoveReq(file) => [file]
    case FilesizeReq(fd) => [Wrap(fd)]
    case SeekReq(fd, position) => [Wrap(fd), position]
    case TellReq(fd) => [Wrap(fd)]
    case ExitReq(status) => [Wrap(status)]
    case ExecReq(cmdLine) => [cmdLine]
    case WaitReq(pid) => [Wrap(pid)]
  }

  /** A request keeps the call and every argument word it was made from: no argument is
      dropped, reordered or changed by its cast. */
  lemma RequestRoundTrip(c: Call, w: seq<uint32>)
    requires |w| == Slots(c)
    ensures CallOf(MakeRequest(c, w)) == c && ArgWords(MakeRequest(c, w)) == w
  {
    var r := MakeRequest(c, w);
    assert ArgWords(r)[..] == w[..];
  }

  /** The stack checks the handler makes, as written, before reading a call's arguments. */
  predicate StackChecked(pd: PageMap, esp: uint32, c: Call)
    requires WellFormed(pd) && esp < PHYS_BASE
  {
    match c
    case Close => AsWrittenBuffer(pd, esp + 4, 4)
    case Write => AsWrittenBuffer(pd, esp, 16)
    case Exit => AsWrittenPtr(pd, esp + 4)
    case Exec => AsWrittenBuffer(pd, esp, 8) && AsWrittenPtr(pd, esp + 4)
    case _ => true
  }

  /** What those checks establish about user memory. */
  predicate StackOk(pd: PageMap, esp: int, c: Call)
  {
    match c
    case Close => BufferOk(pd, esp + 4, 4)
    case Write => BufferOk(pd, esp, 16)
    case Exit => PtrOk(pd, esp + 4)
    case Exec => BufferOk(pd, esp, 8) && PtrOk(pd, esp + 4)
    case _ => true
  }

  /** The checks made on the stack are exact: none of them covers more than a page. */
  lemma StackCheckedExact(pd: PageMap, esp: uint32, c: Call)
    requires WellFormed(pd) && esp < PHYS_BASE
    ensures StackChecked(pd, esp, c) <==> StackOk(pd, esp, c)
  {
    match c
    case Close => SmallBufferExact(pd, esp + 4, 4);
    case Write => SmallBufferExact(pd, esp, 16);
    case Exit => PtrExact(pd, esp + 4);
    case Exec => SmallBufferExact(pd, esp, 8); PtrExact(pd, esp + 4);
    case _ =>
  }

  /** The call number at `esp`, read as a signed `int`. */
  function Number(pd: PageMap, esp: int): int
    requires WellFormed(pd) && UserRange(pd, esp, 4)
  {
    ToInt32(WordAt(pd, esp))
  }

  /** `syscall_handler`: check the number's slot, switch on the number, make the call's own
      stack checks, then read its arguments. */
  function Decide(pd: PageMap, esp: uint32, numbers: map<int, Call>): Decision
    requires WellFormed(pd)
  {
    if !AsWrittenBuffer(pd, esp, 4) then Kill
    else
      SmallBufferExact(pd, esp, 4);
      assert Mapped(pd, esp);
      var n := Number(pd, esp);
      if n !in numbers then Kill
      else
        var c := numbers[n];
        if !StackChecked(pd, esp, c) then Kill
        else if !UserRange(pd, esp + 4, 4 * Slots(c)) then PageFault
        else Invoke(MakeRequest(c, Words(pd, esp + 4, Slots(c))))
  }

  /** The process is terminated with -1 exactly when the number's slot is not mapped user
      memory, the number is unknown, or the call's own stack check fails. */
  lemma DecideKills(pd: PageMap, esp: uint32, numbers: map<int, Call>)
    requires WellFormed(pd)
    ensures Decide(pd, esp, numbers) == Kill <==>
      || !BufferOk(pd, esp, 4)
      || Number(pd, esp) !in numbers
      || !StackOk(pd, esp, numbers[Number(pd, esp)])
  {
    SmallBufferExact(pd, esp, 4);
    if BufferOk(pd, esp, 4) {
      assert Mapped(pd, esp);
      if Number(pd, esp) in numbers {
        StackCheckedExact(pd, esp, numbers[Number(pd, esp)]);
      }
    }
  }

  /** The kernel faults exactly when every check passed but an argument the call reads lies
      in unmapped memory. */
  lemma DecideFaults(pd: PageMap, esp: uint32, numbers: map<int, Call>)
    requires WellFormed(pd)
    ensures Decide(pd, esp, numbers) == PageFault <==>
      && BufferOk(pd, esp, 4)
      && Number(pd, esp) in numbers
      && StackOk(pd, esp, numbers[Number(pd, esp)])
      && !UserRange(pd, esp + 4, 4 * Slots(numbers[Number(pd, esp)]))
  {
    DecideKills(pd, esp, numbers);
  }

  /** A decided call is the one the number names, made of the words right above it. */
  lemma DecideInvokes(pd: PageMap, esp: uint32, numbers: map<int, Call>)
    requires WellFormed(pd) && Decide(pd, esp, numbers).Invoke?
    ensures BufferOk(pd, esp, 4) && Number(pd, esp) in numbers
    ensures var r := Decide(pd, esp, numbers).req;
      && CallOf(r) == numbers[Number(pd, esp)]
      && UserRange(pd, esp + 4, 4 * |ArgWords(r)|)
      && forall i :: 0 <= i < |ArgWords(r)| ==> ArgWords(r)[i] == WordAt(pd, esp + 4 + 4 * i)
  {
    DecideKills(pd, esp, numbers);
    var c := numbers[Number(pd, esp)];
    RequestRoundTrip(c, Words(pd, esp + 4, Slots(c)));
  }

  /** The calls whose arguments the handler checks never fault: the check covers every word
      they read. The others (a read, say) fault when their arguments are unmapped. */
  lemma CheckedCallsNeverFault(pd: PageMap, esp: uint32, numbers: map<int, Call>)
    requires WellFormed(pd) && BufferOk(pd, esp, 4)
    requires Number(pd, esp) in numbers && numbers[Number(pd, esp)] in {Call.Close, Call.Write, Call.Exit, Call.Exec}
    ensures Decide(pd, esp, numbers) != PageFault
  {
    DecideFaults(pd, esp, numbers);
    var c := numbers[Number(pd, esp)];
    if StackOk(pd, esp, c) {
      assert UserRange(pd, esp + 4, 4 * Slots(c));
    }
  }

  // ---------------------------------------------------------------------------------------
  // Handlers

  /** What a handler leaves in `eax`, or how the call ends instead. */
  datatype Outcome =
    | Value(v: int) // returned in `eax`
    | Done          // a call without a result
    | Killed        // the handler called `exit(-1)`
    | Faulted       // a NULL file reached the file layer, whose assertion panics the kernel
    | Blocked       // a wait for a child that is still running

  /** The file in the slot descriptor `fd` names, as a set: empty for a descriptor outside
      the table or an empty slot. */
  function SlotFile(p: Process, fd: int): set<File>
    requires p.Valid()
    reads p, p.openFiles
  {
    if IsValidFd(fd) && p.openFiles[fd - 2] != null then {p.openFiles[fd - 2]} else {}
  }

  /** The inode under that file. */
  function SlotInode(p: Process, fd: int): set<Inode>
    requires p.Valid()
    reads p, p.openFiles
  {
    if IsValidFd(fd) && p.openFiles[fd - 2] != null then {p.openFiles[fd - 2].inode} else {}
  }

  /** The name of the string at `s`: its bytes up to the NUL. */
  function FileName(pd: PageMap, s: int): seq<byte>
    requires WellFormed(pd) && ScanNul(pd, s).Some?
  {
    BytesAt(pd, s, ScanNul(pd, s).value - s)
  }

  /** Index of the lowest empty slot, or the table size when every slot is taken. */
  function FreeSlot(slots: seq<File?>): (i: nat)
    ensures i <= |slots|
    ensures i < |slots| ==> slots[i] == null
    ensures forall k :: 0 <= k < i ==> slots[k] != null
  {
    if slots == [] then 0 else if slots[0] == null then 0 else 1 + FreeSlot(slots[1..])
  }

  /** The first empty slot a scan finds is the one `FreeSlot` names. */
  lemma {:induction false} FreeSlotExact(slots: seq<File?>, i: nat)
    requires i <= |slots| && forall k :: 0 <= k < i ==> slots[k] != null
    requires i < |slots| ==> slots[i] == null
    ensures FreeSlot(slots) == i
  {
    if i > 0 {
      assert slots[0] != null;
      FreeSlotExact(slots[1..], i - 1);
    }
  }

  /** `open`: a file found on disk goes to the lowest empty slot `i` and is named by
      descriptor `i + 2`. When every slot is taken the opened file is returned as
      `dropped`: it is stored nowhere and never closed. */
  method Open(p: Process, pd: PageMap, file: uint32, disk: map<seq<byte>, Inode>)
    returns (r: Outcome, dropped: File?)
    requires p.Valid() && WellFormed(pd)
    modifies p.openFiles
    ensures r == Killed <==> !StringOk(pd, file)
    ensures !StringOk(pd, file) ==> p.openFiles[..] == old(p.openFiles[..]) && dropped == null
    ensures StringOk(pd, file) && FileName(pd, file) !in disk ==>
      r == Value(-1) && p.openFiles[..] == old(p.openFiles[..]) && dropped == null
    ensures StringOk(pd, file) && FileName(pd, file) in disk ==>
      var i := FreeSlot(old(p.openFiles[..]));
      if i == MAX_FILES
      then
        && r == Value(-1) && p.openFiles[..] == old(p.openFiles[..])
        && dropped != null && fresh(dropped) && dropped.inode == disk[FileName(pd, file)]
      else
        && r == Value(i + 2) && dropped == null
        && p.openFiles[i] != null && fresh(p.openFiles[i])
        && p.openFiles[..] == old(p.openFiles[..])[i := p.openFiles[i]]
        && p.openFiles[i].inode == disk[FileName(pd, file)]
        && p.openFiles[i].pos == 0 && !p.openFiles[i].closed
  {
    var ok := CheckString(pd, file);
    if !ok {
      return Killed, null;
    }
    var name := FileName(pd, file);
    if name !in disk {
      return Value(-1), null;
    }
    var f := new File(disk[name]);
    var i := 0;
    while i < MAX_FILES
      invariant 0 <= i <= MAX_FILES
      invariant forall k :: 0 <= k < i ==> p.openFiles[k] != null
    {
      if p.openFiles[i] == null {
        FreeSlotExact(p.openFiles[..], i);
        p.openFiles[i] := f;
        return Value(i + 2), null;
      }
      i := i + 1;
    }
    FreeSlotExact(p.openFiles[..], i);
    return Value(-1), f;
  }

  /** `close`: a descriptor outside 2..129 terminates the process; otherwise its file, if
      any, is closed and the slot emptied, and no other slot changes. */
  method Close(p: Process, fd: int) returns (r: Outcome)
    requires p.Valid()
    modifies p.openFiles, SlotFile(p, fd)
    ensures r == Killed <==> !IsValidFd(fd)
    ensures !IsValidFd(fd) ==> p.openFiles[..] == old(p.openFiles[..])
    ensures IsValidFd(fd) ==> r == Done && p.openFiles[..] == old(p.openFiles[..])[fd - 2 := null]
    ensures forall f :: f in old(SlotFile(p, fd)) ==> f.closed && f.pos == old(f.pos)
  {
    if !IsValidFd(fd) {
      return Killed;
    }
    var f := p.openFiles[fd - 2];
    if f != null {
      f.Close();
    }
    p.openFiles[fd - 2] := null;
    return Done;
  }

  /** Bytes of a user buffer that a transfer of `size` hands to the file system, whose
      `off_t` length turns a size above INT_MAX negative: then none. */
  function Payload(pd: PageMap, buffer: uint32, size: uint32): (b: seq<byte>)
    requires WellFormed(pd) && UserRange(pd, buffer, size)
    ensures |b| == if ToInt32(size) < 0 then 0 else size
  {
    if ToInt32(size) < 0 then [] else BytesAt(pd, buffer, size)
  }

  /** `write`: the buffer is checked first; descriptor 1 goes to the console whole, a
      descriptor outside the table terminates the process, an empty slot gives -1, and a
      file takes what fits before its end. */
  method Write(p: Process, pd: PageMap, fd: int, buffer: uint32, size: uint32)
    returns (r: Outcome, console: seq<byte>)
    requires p.Valid() && WellFormed(pd)
    modifies SlotFile(p, fd), SlotInode(p, fd)
    ensures r == Killed <==> !BufferOk(pd, buffer, size) || (fd != 1 && !IsValidFd(fd))
    ensures r != Killed && fd == 1 ==>
      r == Value(ToInt32(size)) && console == BytesAt(pd, buffer, size)
    ensures fd != 1 ==> console == []
    ensures r != Killed && fd != 1 && p.openFiles[fd - 2] == null ==> r == Value(-1)
    ensures r != Killed && fd != 1 && p.openFiles[fd - 2] != null ==>
      var f := p.openFiles[fd - 2];
      var k := Fit(|old(f.inode.data)|, old(f.pos), ToInt32(size));
      && r == Value(k) && f.pos == old(f.pos) + k && f.closed == old(f.closed)
      && f.inode.data == if k == 0 then old(f.inode.data)
         else old(f.inode.data)[..old(f.pos)] + Payload(pd, buffer, size)[..k]
              + old(f.inode.data)[old(f.pos) + k..]
  {
    console := [];
    var ok := CheckBuffer(pd, buffer, size);
    if !ok {
      return Killed, [];
    }
    if fd == 1 {
      return Value(ToInt32(size)), BytesAt(pd, buffer, size);
    }
    if !IsValidFd(fd) {
      return Killed, [];
    }
    var f := p.openFiles[fd - 2];
    if f == null {
      return Value(-1), [];
    }
    var k := f.Write(Payload(pd, buffer, size));
    return Value(k), [];
  }

  /** A key as `read_from_stdin` stores it: carriage return becomes newline. */
  function Translate(c: byte): byte
  {
    if c == 13 then 10 else c
  }

  /** Index of the first byte whose echo is refused, `n` when every echo passes: the echo
      `write (1, &buffer[i], 1)` checks the buffer `buffer + i` again, and its start must be
      a valid pointer, four mapped bytes. */
  function EchoStop(pd: PageMap, at: int, n: nat): (i: nat)
    ensures i <= n
    ensures forall k :: 0 <= k < i ==> EchoOk(pd, at, k)
    ensures i < n ==> !EchoOk(pd, at, i)
  {
    if n == 0 then 0
    else
      var s := EchoStop(pd, at, n - 1);
      if s < n - 1 || !EchoOk(pd, at, n - 1) then s else n
  }

  /** The echo of byte `k` of a buffer at `at` passes its check. */
  predicate EchoOk(pd: PageMap, at: int, k: int) {
    PtrOk(pd, Wrap(at + k))
  }

  /** `read_from_stdin`: the `size` keys typed next (`key(i)` is what the `i`-th call of
      `input_getc` returns) are stored translated into the user buffer at `at`, held here
      in `buffer`, and each is echoed to the console through `write`. That `write` checks
      the buffer again and terminates the process at the first byte it refuses, which has
      been stored but not echoed. */
  method ReadFromStdin(pd: PageMap, at: uint32, buffer: array<byte>, size: int,
                       key: nat -> byte) returns (r: Outcome, echoed: seq<byte>)
    requires WellFormed(pd) && size <= buffer.Length
    modifies buffer
    ensures var stop := EchoStop(pd, at, if size < 0 then 0 else size);
      && (r == Killed <==> stop < size)
      && (r != Killed ==> r == Value(size))
      && (forall i :: 0 <= i < buffer.Length ==>
            buffer[i] == if i < size && i <= stop then Translate(key(i)) else old(buffer[i]))
      && (forall i :: 0 <= i < size && i <= stop ==> buffer[i] != 13)
      && echoed == buffer[..stop]
  {
    echoed := [];
    var i := 0;
    while i < size
      invariant 0 <= i <= if size < 0 then 0 else size
      invariant forall k :: 0 <= k < i ==> EchoOk(pd, at, k)
      invariant forall k :: 0 <= k < buffer.Length ==>
        buffer[k] == if k < i then Translate(key(k)) else old(buffer[k])
      invariant echoed == buffer[..i]
    {
      buffer[i] := key(i);
      if buffer[i] == 13 {
        buffer[i] := 10;
      }
      var ok := IsValidBuffer(pd, Wrap(at + i), 1);
      SmallBufferExact(pd, Wrap(at + i), 1);
      if !ok {
        assert !EchoOk(pd, at, i);
        assert EchoStop(pd, at, size) == i;
        return Killed, echoed;
      }
      echoed := echoed + [buffer[i]];
      i := i + 1;
    }
    return Value(size), echoed;
  }

  /** With only the page at 4096 mapped, a keyboard read of 4 bytes at 8188 stores two
      keys and echoes one before the echo of the second is refused. */
  lemma EchoStopsNearEnd()
    ensures EchoStop(OnePageMap(), 8188, 4) == 1
  {
    var pd := OnePageMap();
    assert PtrOk(pd, 8188) by {
      forall a | 8188 <= a < 8192 ensures Mapped(pd, a) {
        assert PgRoundDown(a) == PGSIZE;
      }
    }
    assert !Mapped(pd, 8192) by {
      assert PgRoundDown(8192) == 8192;
    }
  }

  /** `read`: the buffer is checked first; descriptor 0 reads the keyboard, descriptor 1
      gives -1, a descriptor outside the table terminates the process, an empty slot gives
      -1, and a file gives what it holds from its position on. `stored` is what lands in
      the user buffer, `echoed` what reaches the console. */
  method Read(p: Process, pd: PageMap, fd: int, buffer: uint32, size: uint32, key: nat -> byte)
    returns (r: Outcome, stored: seq<byte>, echoed: seq<byte>)
    requires p.Valid() && WellFormed(pd)
    modifies SlotFile(p, fd)
    ensures var n := if ToInt32(size) < 0 then 0 else size;
      r == Killed <==>
        || !BufferOk(pd, buffer, size)
        || (fd == 0 && EchoStop(pd, buffer, n) < n)
        || (fd != 0 && fd != 1 && !IsValidFd(fd))
    ensures BufferOk(pd, buffer, size) && fd == 0 ==>
      var n := if ToInt32(size) < 0 then 0 else size;
      var stop := EchoStop(pd, buffer, n);
      && (r != Killed ==> r == Value(ToInt32(size)))
      && |stored| == (if stop < n then stop + 1 else n)
      && (forall i :: 0 <= i < |stored| ==> stored[i] == Translate(key(i)))
      && echoed == stored[..stop]
    ensures fd != 0 ==> echoed == []
    ensures r != Killed && fd == 1 ==> r == Value(-1) && stored == []
    ensures r != Killed && fd > 1 && p.openFiles[fd - 2] == null ==> r == Value(-1) && stored == []
    ensures r != Killed && fd > 1 && p.openFiles[fd - 2] != null ==>
      var f := p.openFiles[fd - 2];
      var k := Fit(|f.inode.data|, old(f.pos), ToInt32(size));
      && r == Value(k) && f.pos == old(f.pos) + k && f.closed == old(f.closed)
      && stored == if k == 0 then [] else f.inode.data[old(f.pos)..old(f.pos) + k]
  {
    stored, echoed := [], [];
    var ok := CheckBuffer(pd, buffer, size);
    if !ok {
      return Killed, [], [];
    }
    if fd == 0 {
      var n: nat := if ToInt32(size) < 0 then 0 else size;
      var user := new byte[n];
      r, echoed := ReadFromStdin(pd, buffer, user, ToInt32(size), key);
      var stop := EchoStop(pd, buffer, n);
      stored := user[..if stop < n then stop + 1 else n];
      return r, stored, echoed;
    } else if fd == 1 {
      return Value(-1), [], [];
    }
    if !IsValidFd(fd) {
      return Killed, [], [];
    } else if p.openFiles[fd - 2] == null {
      return Value(-1), [], [];
    }
    var f := p.openFiles[fd - 2];
    stored := f.Read(ToInt32(size));
    return Value(|stored|), stored, [];
  }

  /** `filesize`: the length of the file behind a descriptor; an empty slot is used
      without a check. */
  function Filesize(p: Process, fd: int): (r: Outcome)
    requires p.Valid()
    reads p, p.openFiles, SlotFile(p, fd), SlotInode(p, fd)
    ensures r == Killed <==> !IsValidFd(fd)
    ensures r == Faulted <==> IsValidFd(fd) && p.openFiles[fd - 2] == null
    ensures r.Value? ==>
      IsValidFd(fd) && p.openFiles[fd - 2] != null && r.v == p.openFiles[fd - 2].Length()
  {
    if !IsValidFd(fd) then Killed
    else if p.openFiles[fd - 2] == null then Faulted
    else Value(p.openFiles[fd - 2].Length())
  }

  /** `tell`: the position of the file behind a descriptor; an empty slot is used without
      a check. */
  function Tell(p: Process, fd: int): (r: Outcome)
    requires p.Valid()
    reads p, p.openFiles, SlotFile(p, fd)
    ensures r == Killed <==> !IsValidFd(fd)
    ensures r == Faulted <==> IsValidFd(fd) && p.openFiles[fd - 2] == null
    ensures r.Value? ==>
      IsValidFd(fd) && p.openFiles[fd - 2] != null && r.v == p.openFiles[fd - 2].pos
  {
    if !IsValidFd(fd) then Killed
    else if p.openFiles[fd - 2] == null then Faulted
    else Value(p.openFiles[fd - 2].pos)
  }

  /** `seek`: a position inside the file moves it there; a position at or past the end
      leaves the file as it was; an empty slot is used without a check. */
  method Seek(p: Process, fd: int, position: uint32) returns (r: Outcome)
    requires p.Valid()
    modifies SlotFile(p, fd)
    ensures r == Killed <==> !IsValidFd(fd)
    ensures r == Faulted <==> IsValidFd(fd) && p.openFiles[fd - 2] == null
    ensures r != Killed && r != Faulted ==>
      var f := p.openFiles[fd - 2];
      && r == Done && f.closed == old(f.closed)
      && f.pos == if position < f.Length() then position else old(f.pos)
  {
    if !IsValidFd(fd) {
      return Killed;
    }
    var f := p.openFiles[fd - 2];
    if f == null {
      return Faulted;
    }
    var size := f.Length();
    if position < size {
      f.Seek(position);
    }
    return Done;
  }

  /** `exec`: the command line is checked, then `process_execute` runs with the outcome
      of the steps outside this model as inputs (see `Lifecycle.Process.Execute`). */
  method Exec(p: Process, pd: PageMap, cmdLine: uint32, pageOk: bool, newTid: int, loaded: bool)
    returns (r: Outcome, child: Process?)
    requires p.Valid() && WellFormed(pd)
    modifies p
    ensures r == Killed <==> !StringOk(pd, cmdLine)
    ensures r == Killed ==> child == null && p.children == old(p.children)
    ensures p.Valid() && p.parentRel == old(p.parentRel)
    ensures r != Killed ==>
      && (child == null <==> !pageOk || newTid == TID_ERROR)
      && r == Value(if child != null && loaded then newTid else TID_ERROR)
      && (child == null ==> p.children == old(p.children))
      && (child != null ==> fresh(child) && p.children == old(p.children) + [child.parentRel])
  {
    var ok := CheckString(pd, cmdLine);
    if !ok {
      return Killed, null;
    }
    var tid;
    tid, child := p.Execute(pageOk, newTid, loaded);
    return Value(tid), child;
  }

  /** `wait`: `process_wait` as intended, with -1 for an id that is not a child's and the
      status of a child that has exited, whose relation the parent then gives up. */
  method Wait(p: Process, pid: int) returns (r: Outcome)
    requires p.Valid()
    modifies p, p.children`aliveCount, p.children`freed
    ensures p.Valid() && p.parentRel == old(p.parentRel)
    ensures var i := FindChild(old(p.children), pid);
      if i == |old(p.children)| then r == Value(-1) && p.children == old(p.children)
      else
        var rel := old(p.children)[i];
        && p.children == RemoveAt(old(p.children), i)
        && r == (if rel.exited then Value(rel.exitStatus) else Outcome.Blocked)
        && (rel.exited ==> rel.freed == (old(rel.freed) || old(rel.aliveCount) == 1))
  {
    var w := p.WaitReleasing(pid);
    match w
    case NotChild => r := Value(-1);
    case Status(status) => r := Value(status);
    case Blocked => r := Outcome.Blocked;
  }

  /** A second wait for the same child returns -1, whatever the first returned. */
  method WaitTwice(p: Process, pid: int) returns (first: Outcome, second: Outcome)
    requires p.Valid() && UniqueIds(p.children)
    modifies p, p.children`aliveCount, p.children`freed
    ensures second == Value(-1)
  {
    var i := FindChild(p.children, pid);
    if i < |p.children| {
      SecondWaitFails(p.children, pid);
    }
    first := Wait(p, pid);
    second := Wait(p, pid);
  }

  /** Closing the descriptor `open` returned closes the file and leaves the table as it
      was before the open. */
  method OpenThenClose(p: Process, pd: PageMap, file: uint32, disk: map<seq<byte>, Inode>)
    returns (got: Outcome, f: File?)
    requires p.Valid() && WellFormed(pd)
    modifies p.openFiles
    ensures got.Value? && got.v != -1 ==>
      f != null && f.closed && p.openFiles[..] == old(p.openFiles[..])
  {
    var dropped;
    got, dropped := Open(p, pd, file, disk);
    f := null;
    if got.Value? && got.v != -1 {
      f := p.openFiles[got.v - 2];
      var closed := Close(p, got.v);
    }
  }

  /** `tell` after `seek` reports the position sought when it lies inside the file, and
      the old position otherwise. */
  method SeekThenTell(p: Process, fd: int, position: uint32) returns (told: Outcome)
    requires p.Valid() && IsValidFd(fd) && p.openFiles[fd - 2] != null
    modifies SlotFile(p, fd)
    ensures var f := p.openFiles[fd - 2];
      told == Value(if position < f.Length() then position else old(f.pos))
  {
    var sought := Seek(p, fd, position);
    told := Tell(p, fd);
  }
}
