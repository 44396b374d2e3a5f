/** Processes and their parents: the relation a parent and a child share, the open-file
    table, and `process_execute`, `process_wait`, `process_exit`, `cleanup_children`,
    `close_files` and the `exit` system call that leads into them. */
module Lifecycle {
  import opened Memory
  import opened Validate

  /** What `thread_create` and `process_execute` return when no thread was made. */
  const TID_ERROR: int := -1

  /** `struct parent_child`: shared by a parent and one child, it holds the child's id and
      exit status and counts how many of the two are still alive. The semaphore the child
      raises when it exits is raised once and never lowered, so `exited` stands for it;
      `freed` records that the relation was handed to `free`. */
  class Relation {
    const childId: int
    var aliveCount: int
    var exitStatus: int
    var exited: bool
    var freed: bool

    /** One side lets go: the count drops, and the relation is freed when it reaches 0. */
    method Release() returns (last: bool)
      modifies this`aliveCount, this`freed
      ensures last == (old(aliveCount) == 1)
      ensures aliveCount == old(aliveCount) - 1 && freed == (old(freed) || last)
    {
      aliveCount := aliveCount - 1;
      last := aliveCount == 0;
      if last {
        freed := true;
      }
    }

    /** The child side lets go when the child exits: the count drops and the semaphore is
        raised. */
    method ChildLeaves() returns (last: bool)
      modifies this`aliveCount, this`exited
      ensures last == (old(aliveCount) == 1)
      ensures aliveCount == old(aliveCount) - 1 && exited
    {
      aliveCount := aliveCount - 1;
      exited := true;
      last := aliveCount == 0;
    }

    /** `free`. */
    method Free()
      modifies this`freed
      ensures freed
    {
      freed := true;
    }

    constructor (child: int)
      ensures childId == child && aliveCount == 2 && exitStatus == -1
      ensures !exited && !freed
    {
      childId := child;
      aliveCount := 2;
      exitStatus := -1;
      exited := false;
      freed := false;
    }
  }

  /** The bytes of a file on disk, shared by every open file of it. */
  class Inode {
    var data: seq<byte>

    constructor (data: seq<byte>)
      ensures this.data == data
    {
      this.data := data;
    }
  }

  /** Number of bytes a transfer of `n` bytes at `pos` moves in a file of `len` bytes: files
      do not grow, so it stops at the end. */
  function Fit(len: int, pos: nat, n: int): (k: nat)
    ensures pos + k <= len || k == 0
    ensures k <= n || k == 0
  {
    if pos >= len || n <= 0 then 0
    else if n < len - pos then n
    else len - pos
  }

  /** An open file: its inode, its position and whether `file_close` was called on it.
      The file layer itself (filesys/file.c) is not part of this model; its functions are
      stated here as the base file system behaves. */
  class File {
    const inode: Inode
    var pos: nat
    var closed: bool

    constructor (inode: Inode)
      ensures this.inode == inode && pos == 0 && !closed
    {
      this.inode := inode;
      pos := 0;
      closed := false;
    }

    /** `file_close`. */
    method Close()
      modifies this`closed
      ensures closed && pos == old(pos)
    {
      closed := true;
    }

    /** `file_length`. */
    function Length(): nat
      reads this, inode
    {
      |inode.data|
    }

    /** `file_read`: up to `n` bytes from the position, which advances past them. */
    method Read(n: int) returns (bytes: seq<byte>)
      modifies this
      ensures var k := Fit(|inode.data|, old(pos), n);
        && bytes == (if k == 0 then [] else inode.data[old(pos)..old(pos) + k])
        && pos == old(pos) + k
      ensures closed == old(closed)
    {
      var k := Fit(|inode.data|, pos, n);
      if k > 0 {
        bytes := inode.data[pos..pos + k];
        pos := pos + k;
      } else {
        bytes := [];
      }
    }

    /** `file_write`: overwrites up to `|bytes|` bytes from the position, which advances. */
    method Write(bytes: seq<byte>) returns (k: nat)
      modifies this, inode
      ensures k == Fit(|old(inode.data)|, old(pos), |bytes|) && pos == old(pos) + k
      ensures inode.data == (if k == 0 then old(inode.data)
        else old(inode.data[..pos] + bytes[..k] + inode.data[pos + k..]))
      ensures closed == old(closed)
    {
      k := Fit(|inode.data|, pos, |bytes|);
      if k > 0 {
        inode.data := inode.data[..pos] + bytes[..k] + inode.data[pos + k..];
        pos := pos + k;
      }
    }

    /** `file_seek`. */
    method Seek(position: nat)
      modifies this
      ensures pos == position && closed == old(closed)
    {
      pos := position;
    }
  }

  /** No relation occurs twice in a list. */
  predicate Distinct(rs: seq<Relation>)
  {
    forall j, k :: 0 <= j < k < |rs| ==> rs[j] != rs[k]
  }

  /** Every child id occurs once: `thread_create` never hands out an id twice. */
  predicate UniqueIds(rs: seq<Relation>)
    reads rs
  {
    forall j, k :: 0 <= j < k < |rs| ==> rs[j].childId != rs[k].childId
  }

  /** Index of the first relation for child `tid`, or `|rs|` when there is none. */
  function FindChild(rs: seq<Relation>, tid: int): (i: nat)
    reads rs
    ensures i <= |rs|
    ensures i < |rs| ==> rs[i].childId == tid
    ensures forall k :: 0 <= k < i ==> rs[k].childId != tid
  {
    if rs == [] then 0
    else if rs[0].childId == tid then 0
    else 1 + FindChild(rs[1..], tid)
  }

  /** The first match found by a scan is the one `FindChild` names. */
  lemma {:induction false} FindChildExact(rs: seq<Relation>, tid: int, i: nat)
    requires i <= |rs| && forall k :: 0 <= k < i ==> rs[k].childId != tid
    requires i < |rs| ==> rs[i].childId == tid
    ensures FindChild(rs, tid) == i
  {
    if i > 0 {
      assert rs[0].childId != tid;
      FindChildExact(rs[1..], tid, i - 1);
    }
  }

  /** `rs` without its element at `i`, as `list_remove` leaves it. */
  function RemoveAt(rs: seq<Relation>, i: nat): (s: seq<Relation>)
    requires i < |rs|
    ensures |s| == |rs| - 1
    ensures forall k :: 0 <= k < i ==> s[k] == rs[k]
    ensures forall k :: i <= k < |s| ==> s[k] == rs[k + 1]
  {
    rs[..i] + rs[i + 1..]
  }

  /** Once `process_wait` has taken a child's relation out of the list, a second wait for
      the same child finds nothing and returns -1 at once. */
  lemma SecondWaitFails(rs: seq<Relation>, tid: int)
    requires UniqueIds(rs) && FindChild(rs, tid) < |rs|
    ensures var rest := RemoveAt(rs, FindChild(rs, tid));
      FindChild(rest, tid) == |rest|
  {
    var i := FindChild(rs, tid);
    var rest := RemoveAt(rs, i);
    forall k | 0 <= k < |rest|
      ensures rest[k].childId != tid
    {
      if k >= i {
        assert rest[k] == rs[k + 1];
        assert rs[i].childId != rs[k + 1].childId;
      }
    }
    FindChildExact(rest, tid, |rest|);
  }

  /** Taking an element out of a list of distinct relations keeps it distinct and adds
      nothing. */
  lemma RemoveAtDistinct(rs: seq<Relation>, i: nat)
    requires Distinct(rs) && i < |rs|
    ensures Distinct(RemoveAt(rs, i))
    ensures forall r :: r in RemoveAt(rs, i) ==> r in rs
  {
    var s := RemoveAt(rs, i);
    forall j, k | 0 <= j < k < |s|
      ensures s[j] != s[k]
    {
      var j' := if j < i then j else j + 1;
      var k' := if k < i then k else k + 1;
      assert s[j] == rs[j'] && s[k] == rs[k'];
    }
  }

  /** The count of every relation in a list. */
  function Counts(rs: seq<Relation>): (cs: seq<int>)
    reads rs
    ensures |cs| == |rs| && forall k :: 0 <= k < |rs| ==> cs[k] == rs[k].aliveCount
  {
    if rs == [] then [] else Counts(rs[..|rs| - 1]) + [rs[|rs| - 1].aliveCount]
  }

  /** Whether each relation in a list has been freed. */
  function FreedFlags(rs: seq<Relation>): (fs: seq<bool>)
    reads rs
    ensures |fs| == |rs| && forall k :: 0 <= k < |rs| ==> fs[k] == rs[k].freed
  {
    if rs == [] then [] else FreedFlags(rs[..|rs| - 1]) + [rs[|rs| - 1].freed]
  }

  /** The relations among the first `n` of `rs` that `cleanup_children` leaves in the
      list, in order: those whose count before the call, `counts[k]`, does not reach 0 when
      it is decremented. */
  function Survivors(rs: seq<Relation>, counts: seq<int>, n: nat): seq<Relation>
    requires n <= |rs| == |counts|
  {
    if n == 0 then []
    else if counts[n - 1] == 1 then Survivors(rs, counts, n - 1)
    else Survivors(rs, counts, n - 1) + [rs[n - 1]]
  }

  /** Of distinct relations, exactly those whose count does not reach 0 survive, nothing
      else does, and they stay distinct. */
  lemma {:induction false} SurvivorsExactly(rs: seq<Relation>, counts: seq<int>, n: nat)
    requires n <= |rs| == |counts| && Distinct(rs)
    ensures Distinct(Survivors(rs, counts, n))
    ensures forall r :: r in Survivors(rs, counts, n) ==> r in rs[..n]
    ensures forall k :: 0 <= k < n ==> (rs[k] in Survivors(rs, counts, n) <==> counts[k] != 1)
  {
    if n != 0 {
      SurvivorsExactly(rs, counts, n - 1);
      var front := Survivors(rs, counts, n - 1);
      assert forall j :: 0 <= j < n - 1 ==> rs[j] != rs[n - 1];
      assert rs[n - 1] !in rs[..n - 1];
      assert rs[..n] == rs[..n - 1] + [rs[n - 1]];
    }
  }

  /** Each relation of `rs`, whose counts and freed flags were `counts` and `freed`, lost
      one reference in a `cleanup_children`, and was freed when that was the last. */
  predicate Released(rs: seq<Relation>, counts: seq<int>, freed: seq<bool>)
    reads rs
  {
    && |counts| == |rs| == |freed|
    && forall k :: 0 <= k < |rs| ==>
      rs[k].aliveCount == counts[k] - 1 && rs[k].freed == (freed[k] || counts[k] == 1)
  }

  /** An exiting child let go of its relation: one reference fewer, the semaphore raised,
      and the relation freed when the parent had already let go. */
  twostate predicate LetGo(rel: Relation)
    reads rel
  {
    && rel.aliveCount == old(rel.aliveCount) - 1 && rel.exited
    && rel.freed == (old(rel.freed) || rel.aliveCount == 0)
    && rel.exitStatus == old(rel.exitStatus)
  }

  /** The loop of `cleanup_children`: decrement each relation, free those that reach 0,
      and keep the others in order. */
  method ReleaseAll(rs: seq<Relation>) returns (kept: seq<Relation>)
    requires Distinct(rs)
    modifies rs`aliveCount, rs`freed
    ensures kept == Survivors(rs, old(Counts(rs)), |rs|)
    ensures Released(rs, old(Counts(rs)), old(FreedFlags(rs)))
  {
    ghost var cs := Counts(rs);
    ghost var fs := FreedFlags(rs);
    kept := [];
    var i := 0;
    while i < |rs|
      invariant 0 <= i <= |rs|
      invariant kept == Survivors(rs, cs, i)
      invariant forall k :: 0 <= k < i ==>
        rs[k].aliveCount == cs[k] - 1 && rs[k].freed == (fs[k] || cs[k] == 1)
      invariant forall k :: i <= k < |rs| ==> rs[k].aliveCount == cs[k] && rs[k].freed == fs[k]
    {
      var pc := rs[i];
      assert forall k :: 0 <= k < |rs| && k != i ==> rs[k] != pc;
      var last := pc.Release();
      if !last {
        kept := kept + [pc];
      }
      i := i + 1;
    }
  }

  /** Where the loop of `cleanup_children` as written first frees a relation: the first
      index whose count before the call is 1, or `|counts|` when there is none. */
  function FirstFreed(counts: seq<int>): (i: nat)
    ensures i <= |counts|
    ensures forall k :: 0 <= k < i ==> counts[k] != 1
    ensures i < |counts| ==> counts[i] == 1
  {
    if counts == [] then 0
    else if counts[0] == 1 then 0
    else 1 + FirstFreed(counts[1..])
  }

  /** The loop of `cleanup_children` as written. Once it has removed and freed a relation
      it takes `list_next` of the freed element, whose links `free` has overwritten, so the
      walk does not reach a known element again: `faulted` reports that step. The relations
      up to and including the first freed one lose a reference, the later ones are never
      reached, and `kept` is the list as it stands at the fault. */
  method ReleaseAllAsWritten(rs: seq<Relation>) returns (kept: seq<Relation>, faulted: bool)
    requires Distinct(rs)
    modifies rs`aliveCount, rs`freed
    ensures var stop := FirstFreed(old(Counts(rs)));
      && faulted == (stop < |rs|)
      && kept == (if faulted then Survivors(rs, old(Counts(rs)), stop) + rs[stop + 1..]
                  else Survivors(rs, old(Counts(rs)), |rs|))
      && forall k :: 0 <= k < |rs| ==>
        if k <= stop
        then rs[k].aliveCount == old(rs[k].aliveCount) - 1
             && rs[k].freed == (old(rs[k].freed) || k == stop)
        else rs[k].aliveCount == old(rs[k].aliveCount) && rs[k].freed == old(rs[k].freed)
  {
    ghost var cs := Counts(rs);
    ghost var fs := FreedFlags(rs);
    kept := [];
    faulted := false;
    var i := 0;
    while i < |rs|
      invariant 0 <= i <= |rs|
      invariant kept == Survivors(rs, cs, i)
      invariant forall k :: 0 <= k < i ==> cs[k] != 1
      invariant forall k :: 0 <= k < i ==> rs[k].aliveCount == cs[k] - 1 && rs[k].freed == fs[k]
      invariant forall k :: i <= k < |rs| ==> rs[k].aliveCount == cs[k] && rs[k].freed == fs[k]
    {
      var pc := rs[i];
      assert forall k :: 0 <= k < |rs| && k != i ==> rs[k] != pc;
      var last := pc.Release();
      if last {
        // `list_remove` and `free`, then `list_next` of the freed element
        assert FirstFreed(cs) == i;
        kept := kept + rs[i + 1..];
        faulted := true;
        return;
      }
      kept := kept + [pc];
      i := i + 1;
    }
    assert FirstFreed(cs) == |rs|;
  }

  /** What `process_wait` found. */
  datatype WaitResult =
    | NotChild            // no relation for that id: -1 at once
    | Status(status: int) // the child had exited with this status
    | Blocked             // the child is still running: `sema_down` blocks until it exits

  /** A user process: the relation to its parent (none for the first process), the
      relations to its children, and its open-file table. Descriptor `fd` names slot
      `fd - 2`. */
  class Process {
    var parentRel: Relation?
    var children: seq<Relation>
    const openFiles: array<File?>

    /** The table has its fixed size, no child relation is listed twice, and the relation
        to the parent is not among the children's. */
    predicate Valid()
      reads this
    {
      && openFiles.Length == MAX_FILES
      && Distinct(children)
      && (parentRel == null || parentRel !in children)
    }

    /** The relation to the parent, as a set: empty for the first process. */
    function Parent(): set<Relation>
      reads this
    {
      if parentRel == null then {} else {parentRel}
    }

    /** The files open in the table. */
    function Files(): set<File>
      reads this, openFiles
    {
      set i | 0 <= i < openFiles.Length && openFiles[i] != null :: openFiles[i]
    }

    /** Every relation of `rs`, the children's list before an exit with counts `counts`
        and freed flags `freed`, lost the parent's reference and was freed when that was
        the last, and the list keeps exactly the others. */
    predicate ChildrenReleased(rs: seq<Relation>, counts: seq<int>, freed: seq<bool>)
      reads this, rs
    {
      Released(rs, counts, freed) && children == Survivors(rs, counts, |rs|)
    }

    /** Every file in the table is closed. */
    predicate FilesClosed()
      reads this, openFiles, Files()
    {
      forall i :: 0 <= i < openFiles.Length && openFiles[i] != null ==> openFiles[i].closed
    }

    /** A new thread: no parent relation yet, no children, every slot empty. */
    constructor ()
      ensures Valid() && parentRel == null && children == [] && fresh(openFiles)
      ensures forall i :: 0 <= i < openFiles.Length ==> openFiles[i] == null
    {
      parentRel := null;
      children := [];
      openFiles := new File?[MAX_FILES](_ => null);
    }

    /** `process_execute`. The steps outside this model are inputs: `pageOk` says whether
        the copy of the command line got a page, `newTid` is what `thread_create` returned,
        and `loaded` is what the child's `start_process` reported. A child whose load
        failed has already called `exit(-1)` when this returns. */
    method Execute(pageOk: bool, newTid: int, loaded: bool) returns (tid: int, child: Process?)
      requires Valid()
      modifies this
      ensures Valid() && parentRel == old(parentRel)
      ensures child == null <==> !pageOk || newTid == TID_ERROR
      ensures child == null ==> tid == TID_ERROR && children == old(children)
      ensures child != null ==>
        && fresh(child) && child.Valid() && child.children == [] && child.Files() == {}
        && child.parentRel != null && fresh(child.parentRel)
        && children == old(children) + [child.parentRel]
        && child.parentRel.childId == newTid && child.parentRel.exitStatus == -1
        && !child.parentRel.freed
        && (if loaded
            then tid == newTid && child.parentRel.aliveCount == 2 && !child.parentRel.exited
            else tid == TID_ERROR && child.parentRel.aliveCount == 1 && child.parentRel.exited)
    {
      if !pageOk {
        return TID_ERROR, null;
      }
      if newTid == TID_ERROR {
        return TID_ERROR, null;
      }
      var rel := new Relation(newTid);
      child := new Process();
      child.parentRel := rel;
      children := children + [rel];
      if !loaded {
        child.Exit(-1);
        return TID_ERROR, child;
      }
      tid := newTid;
    }

    /** `process_wait`: take the first relation for `childTid` out of the list and report
        the child's status once it has exited. */
    method Wait(childTid: int) returns (r: WaitResult)
      requires Valid()
      modifies this
      ensures Valid() && parentRel == old(parentRel)
      ensures var i := FindChild(old(children), childTid);
        if i == |old(children)| then r == NotChild && children == old(children)
        else
          var rel := old(children)[i];
          && children == RemoveAt(old(children), i)
          && r == (if rel.exited then Status(rel.exitStatus) else Blocked)
    {
      var i := 0;
      while i < |children|
        invariant i <= |children| && forall k :: 0 <= k < i ==> children[k].childId != childTid
      {
        var pc := children[i];
        if pc.childId == childTid {
          FindChildExact(children, childTid, i);
          RemoveAtDistinct(children, i);
          children := RemoveAt(children, i);
          if pc.exited {
            return Status(pc.exitStatus);
          }
          return Blocked;
        }
        i := i + 1;
      }
      FindChildExact(children, childTid, i);
      return NotChild;
    }

    /** `process_wait` as intended: as `Wait`, and once the child has exited the parent also
        gives up its reference to the relation it took out of the list, which frees it. */
    method WaitReleasing(childTid: int) returns (r: WaitResult)
      requires Valid()
      modifies this, children`aliveCount, children`freed
      ensures Valid() && parentRel == old(parentRel)
      ensures var i := FindChild(old(children), childTid);
        if i == |old(children)| then r == NotChild && children == old(children)
        else
          var rel := old(children)[i];
          && children == RemoveAt(old(children), i)
          && r == (if rel.exited then Status(rel.exitStatus) else Blocked)
          && (if rel.exited
              then rel.aliveCount == old(rel.aliveCount) - 1
                   && rel.freed == (old(rel.freed) || old(rel.aliveCount) == 1)
              else rel.aliveCount == old(rel.aliveCount) && rel.freed == old(rel.freed))
    {
      var i := FindChild(children, childTid);
      var rel: Relation? := null;
      if i < |children| {
        rel := children[i];
      }
      r := Wait(childTid);
      if r.Status? {
        var last := rel.Release();
      }
    }

    /** `close_files`: every file in the table is closed; the slots keep their pointers. */
    method CloseFiles()
      requires Valid()
      modifies Files()`closed
      ensures FilesClosed()
      ensures forall f :: f in old(Files()) ==> f.pos == old(f.pos)
    {
      var i := 0;
      while i < openFiles.Length
        invariant 0 <= i <= openFiles.Length
        invariant forall k :: 0 <= k < i && openFiles[k] != null ==> openFiles[k].closed
        invariant forall f :: f in old(Files()) ==> f.pos == old(f.pos)
      {
        if openFiles[i] != null {
          openFiles[i].Close();
        }
        i := i + 1;
      }
    }

    /** `cleanup_children`: every child relation loses the parent's reference; those that
        reach 0 are taken out of the list and freed. */
    method CleanupChildren()
      requires Valid()
      modifies this, children`aliveCount, children`freed
      ensures Valid() && parentRel == old(parentRel)
      ensures ChildrenReleased(old(children), old(Counts(children)), old(FreedFlags(children)))
    {
      ghost var cs := Counts(children);
      var kept := ReleaseAll(children);
      SurvivorsExactly(children, cs, |children|);
      children := kept;
    }

    /** The branch of `process_exit` for the first process, which has no parent: clean up
        the children, then close the files. */
    method ExitAsRoot()
      requires Valid()
      modifies this, children`aliveCount, children`freed, Files()`closed
      ensures Valid() && parentRel == old(parentRel)
      ensures ChildrenReleased(old(children), old(Counts(children)), old(FreedFlags(children)))
      ensures FilesClosed()
    {
      CleanupChildren();
      CloseFiles();
    }

    /** `process_exit` as written: a process with a parent cleans up its children only when
        its own relation reaches 0, that is when its parent has already exited. */
    method ProcessExitAsWritten()
      requires Valid()
      modifies this, Parent()`aliveCount, Parent()`exited, Parent()`freed
      modifies children`aliveCount, children`freed, Files()`closed
      ensures Valid() && parentRel == old(parentRel)
      ensures parentRel != null ==> LetGo(parentRel)
      ensures if parentRel == null || old(parentRel.aliveCount) == 1
        then ChildrenReleased(old(children), old(Counts(children)), old(FreedFlags(children)))
        else (children == old(children) && forall r :: r in children ==> unchanged(r))
      ensures FilesClosed()
    {
      if parentRel == null {
        ExitAsRoot();
      } else {
        ExitAsChildAsWritten();
      }
    }

    /** The branch of `process_exit` as written for a process with a parent: let go of the
        relation to the parent, close the files, and clean up the children only if the
        parent had already let go. */
    method ExitAsChildAsWritten()
      requires Valid() && parentRel != null
      modifies this, Parent()`aliveCount, Parent()`exited, Parent()`freed
      modifies children`aliveCount, children`freed, Files()`closed
      ensures Valid() && parentRel == old(parentRel) && LetGo(parentRel)
      ensures if old(parentRel.aliveCount) == 1
        then ChildrenReleased(old(children), old(Counts(children)), old(FreedFlags(children)))
        else (children == old(children) && forall r :: r in children ==> unchanged(r))
      ensures FilesClosed()
    {
      ghost var counts, freed := Counts(children), FreedFlags(children);
      var last := LeaveAndCloseFiles();
      if last {
        CleanupOrphaned(counts, freed);
      }
    }

    /** The first steps of `process_exit` as written for a process with a parent: one
        reference fewer on the relation to the parent, the semaphore raised, and the files
        closed. Reports whether the parent had already let go. */
    method LeaveAndCloseFiles() returns (last: bool)
      requires Valid() && parentRel != null
      modifies Parent()`aliveCount, Parent()`exited, Files()`closed
      ensures last == (old(parentRel.aliveCount) == 1)
      ensures parentRel.aliveCount == old(parentRel.aliveCount) - 1 && parentRel.exited
      ensures FilesClosed()
      ensures forall r :: r in children ==> unchanged(r)
    {
      last := parentRel.ChildLeaves();
      CloseFiles();
    }

    /** The tail of `process_exit` for a process whose parent had already exited: clean
        up the children and free the relation to the parent. */
    method CleanupOrphaned(ghost counts: seq<int>, ghost freed: seq<bool>)
      requires Valid() && parentRel != null
      requires counts == Counts(children) && freed == FreedFlags(children)
      modifies this, Parent()`freed, children`aliveCount, children`freed
      ensures Valid() && parentRel == old(parentRel) && parentRel.freed
      ensures ChildrenReleased(old(children), counts, freed)
    {
      CleanupChildren();
      parentRel.Free();
    }

    /** `process_exit` as the parent/child protocol intends it: whether or not the process
        has a parent, it lets go of every child relation. */
    method ProcessExit()
      requires Valid()
      modifies this, Parent()`aliveCount, Parent()`exited, Parent()`freed
      modifies children`aliveCount, children`freed, Files()`closed
      ensures Valid() && parentRel == old(parentRel)
      ensures parentRel != null ==> LetGo(parentRel)
      ensures ChildrenReleased(old(children), old(Counts(children)), old(FreedFlags(children)))
      ensures FilesClosed()
    {
      ExitAsRoot();
      if parentRel != null {
        LeaveParent();
      }
    }

    /** The child's side of the relation to its parent: one reference fewer, the semaphore
        raised, and the relation freed if the parent had already let go. */
    method LeaveParent()
      requires parentRel != null
      modifies Parent()`aliveCount, Parent()`exited, Parent()`freed
      ensures LetGo(parentRel)
    {
      var last := parentRel.ChildLeaves();
      if last {
        parentRel.Free();
      }
    }

    /** `exit`: record the status for the parent, if there is one, and leave through
        `process_exit`. */
    method Exit(status: int)
      requires Valid()
      modifies this, Parent()`aliveCount, Parent()`exited, Parent()`freed, Parent()`exitStatus
      modifies children`aliveCount, children`freed, Files()`closed
      ensures Valid() && parentRel == old(parentRel)
      ensures parentRel != null ==>
        && parentRel.exitStatus == status && parentRel.exited
        && parentRel.aliveCount == old(parentRel.aliveCount) - 1
        && parentRel.freed == (old(parentRel.freed) || parentRel.aliveCount == 0)
      ensures ChildrenReleased(old(children), old(Counts(children)), old(FreedFlags(children)))
      ensures FilesClosed()
    {
      if parentRel != null {
        parentRel.exitStatus := status;
      }
      ProcessExit();
    }
    /** `exit` as written: record the status for the parent, if there is one, and leave
        through `process_exit` as written. */
    method ExitAsWritten(status: int)
      requires Valid()
      modifies this, Parent()`aliveCount, Parent()`exited, Parent()`freed, Parent()`exitStatus
      modifies children`aliveCount, children`freed, Files()`closed
      ensures Valid() && parentRel == old(parentRel)
      ensures parentRel != null ==>
        && parentRel.exitStatus == status && parentRel.exited
        && parentRel.aliveCount == old(parentRel.aliveCount) - 1
        && parentRel.freed == (old(parentRel.freed) || parentRel.aliveCount == 0)
      ensures if parentRel == null || old(parentRel.aliveCount) == 1
        then ChildrenReleased(old(children), old(Counts(children)), old(FreedFlags(children)))
        else (children == old(children) && forall r :: r in children ==> unchanged(r))
      ensures FilesClosed()
    {
      if parentRel != null {
        parentRel.exitStatus := status;
      }
      ProcessExitAsWritten();
    }
  }


  /** A process P started by a living parent G, and a child C started by P: every
      relation holds two references and no file is open. */
  method Family() returns (p: Process, c: Process, rel: Relation)
    ensures fresh(p) && fresh(c) && fresh(rel) && p.parentRel != null && fresh(p.parentRel)
    ensures p.Valid() && c.Valid() && p.Files() == {} && c.Files() == {}
    ensures p.parentRel.aliveCount == 2 && p.children == [rel]
    ensures c.parentRel == rel && c.children == [] && rel.aliveCount == 2 && !rel.freed
  {
    var g := new Process();
    var _, p' := g.Execute(true, 2, true);
    var _, c' := p'.Execute(true, 3, true);
    p, c, rel := p', c', c'.parentRel;
  }

  /** P and C exiting as written while G lives on: C's relation is left with one reference
      once both have exited, and nobody frees it. */
  method AsWrittenExitLeaks() returns (count: int, freed: bool)
    ensures count == 1 && !freed
  {
    var p, c, rel := Family();
    p.ProcessExitAsWritten();
    assert rel in p.children;
    c.ProcessExitAsWritten();
    count, freed := rel.aliveCount, rel.freed;
  }

  /** The same processes exiting as intended: C's relation reaches 0 and is freed. */
  method ExitReleasesChildren() returns (count: int, freed: bool)
    ensures count == 0 && freed
  {
    var p, c, rel := Family();
    p.ProcessExit();
    assert rel.aliveCount == 1 && !rel.freed;
    c.ProcessExit();
    count, freed := rel.aliveCount, rel.freed;
  }

  /** G starts C and waits for it after C has exited with status 7, then G exits, all as
      written: the wait reports 7, but the relation it took out of G's list keeps G's
      reference, so nobody frees it. */
  method AsWrittenWaitLeaks() returns (r: WaitResult, count: int, freed: bool)
    ensures r == Status(7) && count == 1 && !freed
  {
    var g := new Process();
    var _, c := g.Execute(true, 2, true);
    var rel := c.parentRel;
    c.ExitAsWritten(7);
    r := g.Wait(2);
    g.ProcessExitAsWritten();
    count, freed := rel.aliveCount, rel.freed;
  }

  /** The same run with the intended wait: the relation reaches 0 and is freed. */
  method WaitReleasesRelation() returns (r: WaitResult, count: int, freed: bool)
    ensures r == Status(7) && count == 0 && freed
  {
    var g := new Process();
    var _, c := g.Execute(true, 2, true);
    var rel := c.parentRel;
    c.ExitAsWritten(7);
    r := g.WaitReleasing(2);
    g.ProcessExitAsWritten();
    count, freed := rel.aliveCount, rel.freed;
  }

  /** The first process G starts C1 and C2, C1 exits, and G cleans up its children as
      written: the walk frees C1's relation and then steps from the freed element, so it
      faults before it reaches C2's relation, which keeps both references. */
  method AsWrittenCleanupFaults() returns (faulted: bool, freed1: bool, count2: int)
    ensures faulted && freed1 && count2 == 2
  {
    var g := new Process();
    var _, c1 := g.Execute(true, 2, true);
    var _, c2 := g.Execute(true, 3, true);
    var rel1, rel2 := c1.parentRel, c2.parentRel;
    c1.ExitAsWritten(0);
    var kept;
    kept, faulted := ReleaseAllAsWritten(g.children);
    freed1, count2 := rel1.freed, rel2.aliveCount;
  }

  /** The same run with the intended loop: C1's relation is freed and the walk goes on to
      C2's relation, which loses the parent's reference. */
  method CleanupReachesAll() returns (freed1: bool, count2: int)
    ensures freed1 && count2 == 1
  {
    var g := new Process();
    var _, c1 := g.Execute(true, 2, true);
    var _, c2 := g.Execute(true, 3, true);
    var rel1, rel2 := c1.parentRel, c2.parentRel;
    c1.ExitAsWritten(0);
    var kept := ReleaseAll(g.children);
    freed1, count2 := rel1.freed, rel2.aliveCount;
  }
}
