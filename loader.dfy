/** `load`: reads an ELF executable into a fresh address space, segment by segment, then
    sets up the stack page. */
module Loader {
  import opened Memory
  import opened Elf
  import opened Paging

  /** An executable no longer than the largest `off_t`. */
  predicate ImageOk(image: seq<byte>)
  {
    |image| < 0x8000_0000
  }

  /** A program header `load` lets through: not a dynamic-linking type, and a loadable
      segment only if it passes `validate_segment`. */
  predicate HeaderAcceptable(ph: Phdr, fileLength: int)
  {
    Classify(ph.ptype) != Refused
    && (Classify(ph.ptype) == Loadable ==> ValidateSegment(ph, fileLength))
  }

  /** Outcome of one pass of the program-header loop: stop the load, or go on with the
      next header. */
  datatype Step = Stop(m: Mem) | Next(m: Mem)

  /** One pass of the program-header loop of `load` at file offset `ofs`: the header must
      lie at an offset inside the file and be read in full; then it is skipped, refused, or
      validated and loaded. */
  function HeaderStep(image: seq<byte>, ofs: int, m: Mem): Step
    requires ImageOk(image)
  {
    if ofs < 0 || ofs > |image| || ofs + PHDR_SIZE > |image| then Stop(m)
    else
      var ph := ParsePhdr(image[ofs..ofs + PHDR_SIZE]);
      match Classify(ph.ptype)
      case Ignored => Next(m)
      case Refused => Stop(m)
      case Loadable =>
        if !ValidateSegment(ph, |image|) then Stop(m)
        else
          SegmentLayoutSound(ph, |image|);
          var l := SegmentLayout(ph, |image|);
          var r := LoadPages(m, image, l.filePage, l.memPage, l.readBytes, l.zeroBytes,
                             l.writable);
          if r.0 then Next(r.1) else Stop(r.1)
  }

  /** The program-header loop of `load`, from header `i` of `n` at file offset `ofs`. */
  function WalkHeaders(image: seq<byte>, ofs: int, i: nat, n: nat, m: Mem): (bool, Mem)
    requires ImageOk(image)
    decreases n - i
  {
    if i >= n then (true, m)
    else match HeaderStep(image, ofs, m)
      case Stop(m1) => (false, m1)
      case Next(m1) => WalkHeaders(image, ofs + PHDR_SIZE, i + 1, n, m1)
  }

  /** Header `j` of a table at `ofs` lies wholly inside the file. */
  predicate HeaderInFile(image: seq<byte>, ofs: int, j: int)
  {
    0 <= ofs + PHDR_SIZE * j && ofs + PHDR_SIZE * j + PHDR_SIZE <= |image|
  }

  /** Header `j` of a table at `ofs`. */
  function PhdrAt(image: seq<byte>, ofs: int, j: int): Phdr
    requires HeaderInFile(image, ofs, j)
  {
    ParsePhdr(image[ofs + PHDR_SIZE * j..ofs + PHDR_SIZE * j + PHDR_SIZE])
  }

  lemma PhdrAtShift(image: seq<byte>, ofs: int, j: int)
    requires j >= 1
    ensures HeaderInFile(image, ofs + PHDR_SIZE, j - 1) == HeaderInFile(image, ofs, j)
    ensures HeaderInFile(image, ofs, j) ==>
              PhdrAt(image, ofs + PHDR_SIZE, j - 1) == PhdrAt(image, ofs, j)
  {
    assert ofs + PHDR_SIZE + PHDR_SIZE * (j - 1) == ofs + PHDR_SIZE * j;
  }

  /** A pass that goes on has read a header inside the file and let it through. */
  lemma HeaderStepAccepts(image: seq<byte>, ofs: int, m: Mem)
    requires ImageOk(image) && HeaderStep(image, ofs, m).Next?
    ensures HeaderInFile(image, ofs, 0) && HeaderAcceptable(PhdrAt(image, ofs, 0), |image|)
  {
    assert ofs + PHDR_SIZE * 0 == ofs;
  }

  /** A pass over a skipped header changes nothing. */
  lemma HeaderStepIgnored(image: seq<byte>, ofs: int, m: Mem)
    requires ImageOk(image) && HeaderInFile(image, ofs, 0)
    requires Classify(PhdrAt(image, ofs, 0).ptype) == Ignored
    ensures HeaderStep(image, ofs, m) == Next(m)
  {
    assert ofs + PHDR_SIZE * 0 == ofs;
  }

  /** A pass only adds user pages from the pool and keeps the page directory well formed;
      segments lie below the stack page's neighbourhood only if they fit under PHYS_BASE. */
  lemma HeaderStepOnlyAdds(image: seq<byte>, ofs: int, m: Mem)
    requires ImageOk(image) && WellFormed(m.pages) && PoolOk(m.free)
    ensures var m' := HeaderStep(image, ofs, m).m;
      && WellFormed(m'.pages) && PoolOk(m'.free)
      && (forall u :: u in m.pages ==> u in m'.pages && m'.pages[u] == m.pages[u])
  {
    if 0 <= ofs && ofs + PHDR_SIZE <= |image| {
      var ph := ParsePhdr(image[ofs..ofs + PHDR_SIZE]);
      if Classify(ph.ptype) == Loadable && ValidateSegment(ph, |image|) {
        SegmentLayoutSound(ph, |image|);
        var l := SegmentLayout(ph, |image|);
        LoadPagesOnlyAdds(m, image, l.filePage, l.memPage, l.readBytes, l.zeroBytes,
                          l.writable);
      }
    }
  }

  /** The executable header at the start of the file, if the file holds one in full. */
  function Header(image: seq<byte>): Option<Ehdr>
  {
    if |image| < EHDR_SIZE then None else Some(ParseEhdr(image[..EHDR_SIZE]))
  }

  /** What `load` does to a fresh page directory and the user pool. */
  function LoadSpec(image: Option<seq<byte>>, free: seq<int>): (bool, Mem)
    requires image.Some? ==> ImageOk(image.value)
  {
    var m0 := Mem(map[], free);
    if image.None? then (false, m0)
    else
      var h := Header(image.value);
      if h.None? || !HeaderOk(h.value) then (false, m0)
      else
        var w := WalkHeaders(image.value, ToInt32(h.value.phoff), 0, h.value.phnum, m0);
        if !w.0 then w else StackPage(w.1)
  }

  /** One pass of the program-header loop of `load`: read the header at `fileOfs`, then
      skip it, refuse it, or validate and load its segment. */
  method LoadProgramHeader(space: AddressSpace, pool: Pool, file: seq<byte>, fileOfs: int)
    returns (next: bool)
    requires ImageOk(file)
    modifies space, pool
    ensures HeaderStep(file, fileOfs, Mem(old(space.pages), old(pool.free))) ==
      (if next then Next(Mem(space.pages, pool.free)) else Stop(Mem(space.pages, pool.free)))
  {
    if fileOfs < 0 || fileOfs > |file| {
      return false;
    }
    var phdrBytes := FileRead(file, fileOfs, PHDR_SIZE);
    if |phdrBytes| != PHDR_SIZE {
      return false;
    }
    var phdr := ParsePhdr(phdrBytes);
    match Classify(phdr.ptype) {
      case Ignored =>
        return true;
      case Refused =>
        return false;
      case Loadable =>
        if !ValidateSegment(phdr, |file|) {
          return false;
        }
        SegmentLayoutSound(phdr, |file|);
        var l := SegmentLayout(phdr, |file|);
        next := space.LoadSegment(pool, file, l.filePage, l.memPage, l.readBytes,
                                  l.zeroBytes, l.writable);
    }
  }

  /** `load`. `image` is the executable `filesys_open` found (None when it could not be
      opened) and `dirOk` whether `pagedir_create` could allocate a page directory. */
  method Load(image: Option<seq<byte>>, dirOk: bool, pool: Pool)
    returns (ok: bool, space: AddressSpace?, eip: int, esp: int)
    requires image.Some? ==> ImageOk(image.value)
    modifies pool
    ensures space == null <==> !dirOk
    ensures !dirOk ==> !ok && pool.free == old(pool.free)
    ensures space != null ==>
      fresh(space) && (ok, Mem(space.pages, pool.free)) == LoadSpec(image, old(pool.free))
    ensures ok ==> image.Some? && Header(image.value).Some?
                   && eip == Header(image.value).value.entry && esp == PHYS_BASE
  {
    ok, eip, esp := false, 0, 0;
    if !dirOk {
      return false, null, eip, esp;
    }
    space := new AddressSpace();
    if image.None? {
      return;
    }
    var file := image.value;
    var bytes := FileRead(file, 0, EHDR_SIZE);
    if |bytes| != EHDR_SIZE {
      return;
    }
    var ehdr := ParseEhdr(bytes);
    if !HeaderOk(ehdr) {
      return;
    }
    var fileOfs := ToInt32(ehdr.phoff);
    var i := 0;
    while i < ehdr.phnum
      invariant 0 <= i <= ehdr.phnum && fresh(space)
      invariant WalkHeaders(file, fileOfs, i, ehdr.phnum, Mem(space.pages, pool.free)) ==
        WalkHeaders(file, ToInt32(ehdr.phoff), 0, ehdr.phnum, Mem(map[], old(pool.free)))
      decreases ehdr.phnum - i
    {
      var next := LoadProgramHeader(space, pool, file, fileOfs);
      if !next {
        return;
      }
      fileOfs := fileOfs + PHDR_SIZE;
      i := i + 1;
    }
    ok, esp := space.SetupStack(pool, esp);
    if ok {
      eip := ehdr.entry;
    }
  }

  /** `load` fails unless the file exists, its first 52 bytes are read in full, and they
      form an ELF32 i386 executable header with at most 1024 program headers of the
      expected size. */
  lemma LoadNeedsHeader(image: Option<seq<byte>>, free: seq<int>)
    requires image.Some? ==> ImageOk(image.value)
    requires LoadSpec(image, free).0
    ensures image.Some? && |image.value| >= EHDR_SIZE
    ensures HeaderOk(ParseEhdr(image.value[..EHDR_SIZE]))
  {
  }

  /** A successful header walk has read every header in full from inside the file and let
      each of them through: none is a dynamic-linking type and every loadable one passed
      `validate_segment`. */
  lemma {:induction false} WalkAcceptsAll(image: seq<byte>, ofs: int, i: nat, n: nat, m: Mem)
    requires ImageOk(image) && i <= n
    requires WalkHeaders(image, ofs, i, n, m).0
    ensures forall j :: 0 <= j < n - i ==>
      HeaderInFile(image, ofs, j) && HeaderAcceptable(PhdrAt(image, ofs, j), |image|)
    decreases n - i
  {
    if i < n {
      HeaderStepAccepts(image, ofs, m);
      WalkAcceptsAll(image, ofs + PHDR_SIZE, i + 1, n, HeaderStep(image, ofs, m).m);
      forall j | 1 <= j < n - i
        ensures HeaderInFile(image, ofs, j) && HeaderAcceptable(PhdrAt(image, ofs, j), |image|)
      {
        PhdrAtShift(image, ofs, j);
      }
    }
  }

  /** Headers that are all skipped leave the address space and the pool as they were. */
  lemma {:induction false} IgnoredHeadersNoEffect(image: seq<byte>, ofs: int, i: nat, n: nat,
                                                  m: Mem)
    requires ImageOk(image) && i <= n
    requires forall j :: 0 <= j < n - i ==>
      HeaderInFile(image, ofs, j) && Classify(PhdrAt(image, ofs, j).ptype) == Ignored
    ensures WalkHeaders(image, ofs, i, n, m) == (true, m)
    decreases n - i
  {
    if i < n {
      HeaderStepIgnored(image, ofs, m);
      var next := ofs + PHDR_SIZE;
      forall j | 0 <= j < n - (i + 1)
        ensures HeaderInFile(image, next, j)
        ensures Classify(PhdrAt(image, next, j).ptype) == Ignored
      {
        PhdrAtShift(image, ofs, j + 1);
      }
      IgnoredHeadersNoEffect(image, next, i + 1, n, m);
    }
  }

  /** The header walk only adds user pages from the pool and keeps the page directory well
      formed. */
  lemma {:induction false} WalkOnlyAdds(image: seq<byte>, ofs: int, i: nat, n: nat, m: Mem)
    requires ImageOk(image) && WellFormed(m.pages) && PoolOk(m.free)
    ensures var m' := WalkHeaders(image, ofs, i, n, m).1;
      && WellFormed(m'.pages) && PoolOk(m'.free)
      && (forall u :: u in m.pages ==> u in m'.pages && m'.pages[u] == m.pages[u])
    decreases n - i
  {
    if i < n {
      HeaderStepOnlyAdds(image, ofs, m);
      if HeaderStep(image, ofs, m).Next? {
        WalkOnlyAdds(image, ofs + PHDR_SIZE, i + 1, n, HeaderStep(image, ofs, m).m);
      }
    }
  }

  /** After a successful `load` the page directory is well formed and the stack page is a
      zeroed, writable page just below PHYS_BASE. */
  lemma LoadLeavesStack(image: Option<seq<byte>>, free: seq<int>)
    requires image.Some? ==> ImageOk(image.value)
    requires PoolOk(free) && LoadSpec(image, free).0
    ensures var m := LoadSpec(image, free).1;
      && WellFormed(m.pages) && STACK_PAGE in m.pages
      && m.pages[STACK_PAGE].writable && m.pages[STACK_PAGE].data == Zeros(PGSIZE)
  {
    var h := Header(image.value).value;
    var m0 := Mem(map[], free);
    WalkOnlyAdds(image.value, ToInt32(h.phoff), 0, h.phnum, m0);
    StackPageMeaning(WalkHeaders(image.value, ToInt32(h.phoff), 0, h.phnum, m0).1);
  }
}
