/** The user-memory validators of the system-call layer: `is_valid_ptr`, `is_valid_buffer`,
    `is_valid_string` as written, the page-exact checks they evidently intend, and
    `is_valid_fd`. */
module Validate {
  import opened Memory

  /** Number of slots in a process's open-file table; descriptors 2..129 name them. */
  const MAX_FILES: int := 128

  // ---------------------------------------------------------------------------------------
  // What a validator is meant to establish.

  /** The four bytes of a pointer-sized value at `p` are mapped user memory. */
  predicate PtrOk(pd: PageMap, p: int)
  {
    UserRange(pd, p, 4)
  }

  /** A buffer of `n` bytes at `b`: its start is a valid pointer and every byte is mapped. */
  predicate BufferOk(pd: PageMap, b: int, n: int)
  {
    PtrOk(pd, b) && UserRange(pd, b, n)
  }

  /** A string at `s`: its start is a valid pointer and a NUL is reached through mapped
      user memory. */
  predicate StringOk(pd: PageMap, s: int)
    requires WellFormed(pd)
  {
    PtrOk(pd, s) && ScanNul(pd, s).Some?
  }

  // ---------------------------------------------------------------------------------------
  // The page walk shared by the three validators, as written: while the end lies beyond
  // `upper`, step one byte past it, look that address up, and continue from the page
  // boundary above the KERNEL address the lookup returned.

  function Walk(pd: PageMap, end: int, upper: int): (ok: bool)
    requires WellFormed(pd) && 0 <= upper <= WORD
    decreases WORD - upper
  {
    if end <= upper then true
    else match GetPage(pd, upper + 1)
      case None => false
      case Some(k) => Walk(pd, end, PgRoundUp(k))
  }

  /** The walk loop of syscall.c. */
  method ProbePages(pd: PageMap, end: int, upper0: int) returns (ok: bool)
    requires WellFormed(pd) && 0 <= upper0 <= WORD
    ensures ok == Walk(pd, end, upper0)
  {
    var upper := upper0;
    while end > upper
      invariant 0 <= upper <= WORD
      invariant Walk(pd, end, upper) == Walk(pd, end, upper0)
      decreases WORD - upper
    {
      WalkStep(pd, end, upper);
      upper := upper + 1;
      var page := GetPage(pd, upper);
      if page.None? {
        return false;
      }
      upper := PgRoundUp(page.value);
    }
    return true;
  }

  /** One step of the walk moves `upper` up to the boundary above a kernel page. */
  lemma WalkStep(pd: PageMap, end: int, upper: int)
    requires WellFormed(pd) && 0 <= upper <= WORD && end > upper
    ensures match GetPage(pd, upper + 1)
      case None => !Walk(pd, end, upper)
      case Some(k) =>
        && 0 <= k < WORD && upper < PgRoundUp(k) <= WORD
        && Walk(pd, end, upper) == Walk(pd, end, PgRoundUp(k))
  {
    var page := GetPage(pd, upper + 1);
    if page.Some? {
      assert FrameOk(pd[PgRoundDown(upper + 1)]);
    }
  }

  /** Starting from a page boundary in user space, the walk probes at most the page just
      above it: the next step continues from a kernel address, above every user end. */
  lemma WalkProbesOnePage(pd: PageMap, end: int, upper: int)
    requires WellFormed(pd) && 0 <= upper <= PHYS_BASE && upper % PGSIZE == 0
    ensures Walk(pd, end, upper) <==>
      end <= upper || (upper < PHYS_BASE && upper in pd && end <= pd[upper].kpage + PGSIZE)
  {
    RoundDownWithin(upper, upper + 1);
    if end > upper && upper < PHYS_BASE && upper in pd {
      var k := pd[upper].kpage + 1;
      assert GetPage(pd, upper + 1) == Some(k);
      assert PgRoundUp(k) == pd[upper].kpage + PGSIZE;
      var next := PgRoundUp(k);
      if end > next {
        assert GetPage(pd, next + 1).None?;
      }
    }
  }

  // ---------------------------------------------------------------------------------------
  // is_valid_ptr

  /** `is_valid_ptr` as written. */
  predicate AsWrittenPtr(pd: PageMap, p: uint32)
    requires WellFormed(pd)
  {
    p < PHYS_BASE && GetPage(pd, p).Some? && Walk(pd, p + 4, PgRoundUp(p))
  }

  lemma RoundDownWithin(page: int, i: int)
    requires page % PGSIZE == 0 && page <= i < page + PGSIZE
    ensures PgRoundDown(i) == page
  {
    var q := page / PGSIZE;
    assert page == q * PGSIZE;
    assert i == q * PGSIZE + (i - page);
  }

  /** The bytes of a mapped page are all mapped. */
  lemma PageMapped(pd: PageMap, page: int, a: int, n: int)
    requires page in pd && UserPage(page) && page <= a && a + n <= page + PGSIZE
    ensures UserRange(pd, a, n)
  {
    forall i | a <= i < a + n
      ensures Mapped(pd, i)
    {
      RoundDownWithin(page, i);
    }
  }

  /** The page boundary above a user address is at most PHYS_BASE. */
  lemma RoundUpUser(a: int)
    requires 0 <= a < PHYS_BASE
    ensures a <= PgRoundUp(a) <= PHYS_BASE
  {
    var x := a + PGSIZE - 1;
    if x >= PHYS_BASE {
      RoundDownWithin(PHYS_BASE, x);
    }
  }

  /** For a pointer-sized value the as-written walk is exact: one probe of the next page is
      all a 4-byte value can need. */
  lemma {:induction false} PtrExact(pd: PageMap, p: uint32)
    requires WellFormed(pd)
    ensures AsWrittenPtr(pd, p) <==> PtrOk(pd, p)
  {
    if p < PHYS_BASE && GetPage(pd, p).Some? {
      if p + 4 <= PgRoundDown(p) + PGSIZE {
        PtrExactInPage(pd, p);
      } else {
        PtrExactAcross(pd, p);
      }
    } else {
      assert !Mapped(pd, p);
    }
  }

  /** A pointer whose four bytes lie in its own mapped page. */
  lemma PtrExactInPage(pd: PageMap, p: uint32)
    requires WellFormed(pd) && p < PHYS_BASE && GetPage(pd, p).Some?
    requires p + 4 <= PgRoundDown(p) + PGSIZE
    ensures AsWrittenPtr(pd, p) && PtrOk(pd, p)
  {
    var page := PgRoundDown(p);
    var upper := PgRoundUp(p);
    RoundUpUser(p);
    WalkProbesOnePage(pd, p + 4, upper);
    PageMapped(pd, page, p, 4);
    if p + 4 > upper {
      assert upper == p;
      assert PgRoundDown(upper + 1) == page;
      assert Mapped(pd, upper + 1);
    }
  }

  /** A pointer whose four bytes run into the next page: both checks come down to that
      page being mapped. */
  lemma PtrExactAcross(pd: PageMap, p: uint32)
    requires WellFormed(pd) && p < PHYS_BASE && GetPage(pd, p).Some?
    requires p + 4 > PgRoundDown(p) + PGSIZE
    ensures AsWrittenPtr(pd, p) <==> PtrOk(pd, p)
  {
    var page := PgRoundDown(p);
    var upper := PgRoundUp(p);
    RoundUpUser(p);
    WalkProbesOnePage(pd, p + 4, upper);
    assert upper == page + PGSIZE;
    RoundDownWithin(upper, upper + 1);
    if upper + 1 < PHYS_BASE && upper in pd {
      PageMapped(pd, page, p, upper - p);
      PageMapped(pd, upper, upper, p + 4 - upper);
      assert pd[upper].kpage + PGSIZE >= PHYS_BASE;
    } else {
      RoundDownWithin(upper, p + 3);
      assert !Mapped(pd, p + 3);
    }
  }


  /** `is_valid_ptr`. */
  method IsValidPtr(pd: PageMap, p: uint32) returns (ok: bool)
    requires WellFormed(pd)
    ensures ok == AsWrittenPtr(pd, p)
    ensures ok == PtrOk(pd, p)
  {
    PtrExact(pd, p);
    if p >= PHYS_BASE {
      return false;
    }
    if GetPage(pd, p).None? {
      return false;
    }
    ok := ProbePages(pd, p + 4, PgRoundUp(p));
  }

  // ---------------------------------------------------------------------------------------
  // is_valid_buffer

  /** `is_valid_buffer` as written; the end pointer `buffer + size` wraps at 2^32. */
  predicate AsWrittenBuffer(pd: PageMap, b: uint32, n: uint32)
    requires WellFormed(pd)
  {
    AsWrittenPtr(pd, b) && Walk(pd, Wrap(b + n), PgRoundUp(b))
  }

  /** `is_valid_buffer`. */
  method IsValidBuffer(pd: PageMap, b: uint32, n: uint32) returns (ok: bool)
    requires WellFormed(pd)
    ensures ok == AsWrittenBuffer(pd, b, n)
  {
    ok := IsValidPtr(pd, b);
    if !ok {
      return;
    }
    ok := ProbePages(pd, Wrap(b + n), PgRoundUp(b));
  }

  /** A zero-length buffer reduces to `is_valid_ptr`. */
  lemma EmptyBufferIsPtr(pd: PageMap, b: uint32)
    requires WellFormed(pd)
    ensures AsWrittenBuffer(pd, b, 0) <==> AsWrittenPtr(pd, b)
  {
  }

  /** The as-written check never refuses a buffer that is wholly mapped. */
  lemma {:induction false} BufferOkAccepted(pd: PageMap, b: uint32, n: uint32)
    requires WellFormed(pd) && BufferOk(pd, b, n)
    ensures AsWrittenBuffer(pd, b, n)
  {
    PtrExact(pd, b);
    var upper := PgRoundUp(b);
    RoundUpUser(b);
    WalkProbesOnePage(pd, Wrap(b + n), upper);
    if n > 0 && b + n > upper {
      assert b + n <= PHYS_BASE by {
        assert Mapped(pd, b + n - 1);
      }
      assert upper >= b;
      assert Mapped(pd, upper);
      RoundDownWithin(upper, upper + 1);
      assert Mapped(pd, upper + 1) by {
        if upper + 1 < b + n {
          assert Mapped(pd, upper + 1);
        } else {
          assert upper + 1 < PHYS_BASE;
        }
      }
    }
  }

  /** For a buffer no longer than a page the as-written check is exact: such a buffer
      spans at most two pages, and the walk probes the second. */
  lemma SmallBufferExact(pd: PageMap, b: uint32, n: uint32)
    requires WellFormed(pd) && n <= PGSIZE
    ensures AsWrittenBuffer(pd, b, n) <==> BufferOk(pd, b, n)
  {
    if AsWrittenBuffer(pd, b, n) {
      PtrExact(pd, b);
      assert Mapped(pd, b);
      var page := PgRoundDown(b);
      var upper := PgRoundUp(b);
      RoundUpUser(b);
      WalkProbesOnePage(pd, b + n, upper);
      if b + n <= page + PGSIZE {
        PageMapped(pd, page, b, n);
      } else {
        PageMapped(pd, page, b, upper - b);
        PageMapped(pd, upper, upper, b + n - upper);
      }
    } else if BufferOk(pd, b, n) {
      BufferOkAccepted(pd, b, n);
    }
  }

  /** A single mapped page, used to exhibit the shortcut of the as-written walk. */
  function OnePageMap(): (pd: PageMap)
    ensures WellFormed(pd) && pd.Keys == {PGSIZE}
  {
    map[PGSIZE := Frame(PHYS_BASE, true, seq(PGSIZE, _ => 0))]
  }

  /** Counterexample: a two-page buffer starting at the mapped page 0x1000 is accepted
      although the page 0x2000 behind it is not mapped. */
  lemma AsWrittenBufferAcceptsUnmapped()
    ensures AsWrittenBuffer(OnePageMap(), PGSIZE, 2 * PGSIZE)
    ensures !BufferOk(OnePageMap(), PGSIZE, 2 * PGSIZE)
  {
    var pd := OnePageMap();
    PtrExact(pd, PGSIZE);
    PageMapped(pd, PGSIZE, PGSIZE, 4);
    WalkProbesOnePage(pd, 3 * PGSIZE, PGSIZE);
    RoundDownWithin(PGSIZE, PGSIZE + 1);
    assert !Mapped(pd, 2 * PGSIZE);
  }

  /** The check `is_valid_buffer` evidently intends: every page under the buffer is
      looked up, one page after another. */
  method CheckBuffer(pd: PageMap, b: uint32, n: uint32) returns (ok: bool)
    requires WellFormed(pd)
    ensures ok == BufferOk(pd, b, n)
  {
    ok := IsValidPtr(pd, b);
    if !ok {
      return;
    }
    if b + n > PHYS_BASE {
      assert !Mapped(pd, b + n - 1);
      return false;
    }
    ok := CheckPages(pd, b, b + n);
  }

  /** Looks up every page under `[b, end)`, one after another, `b` itself being mapped. */
  method CheckPages(pd: PageMap, b: int, end: int) returns (ok: bool)
    requires WellFormed(pd) && 0 <= b <= end <= PHYS_BASE && Mapped(pd, b)
    ensures ok == UserRange(pd, b, end - b)
  {
    var page := PgRoundDown(b);
    while page < end
      invariant page % PGSIZE == 0 && PgRoundDown(b) <= page <= PHYS_BASE
      invariant UserRange(pd, b, page - b)
      decreases end - page
    {
      if page !in pd {
        RoundDownWithin(page, page);
        assert !Mapped(pd, page);
        return false;
      }
      PageMapped(pd, page, page, PGSIZE);
      page := page + PGSIZE;
    }
    return true;
  }

  // ---------------------------------------------------------------------------------------
  // is_valid_string

  /** Outcome of a validator that may itself read user memory: it accepts, it refuses, or
      it reads an unmapped byte (a page fault inside the kernel). */
  datatype Verdict = Accept | Reject | Fault

  /** `is_valid_string` as written: `strlen` scans the string before any page after the
      first is looked up. */
  function AsWrittenString(pd: PageMap, s: uint32): Verdict
    requires WellFormed(pd)
  {
    if !AsWrittenPtr(pd, s) then Reject
    else match ScanNul(pd, s)
      case None => Fault
      case Some(nul) => if Walk(pd, Wrap(s + (nul - s)), PgRoundUp(s)) then Accept else Reject
  }

  /** `is_valid_string`. */
  method IsValidString(pd: PageMap, s: uint32) returns (v: Verdict)
    requires WellFormed(pd)
    ensures v == AsWrittenString(pd, s)
  {
    var ok := IsValidPtr(pd, s);
    if !ok {
      return Reject;
    }
    var nul := ScanNul(pd, s);
    if nul.None? {
      return Fault;
    }
    var length := nul.value - s;
    ok := ProbePages(pd, Wrap(s + length), PgRoundUp(s));
    v := if ok then Accept else Reject;
  }

  /** What the as-written string check decides: a terminated string in mapped memory is
      accepted, a bad start pointer refused, and an unterminated one faults instead of
      being refused. */
  lemma {:induction false} StringVerdict(pd: PageMap, s: uint32)
    requires WellFormed(pd)
    ensures AsWrittenString(pd, s) == Accept <==> StringOk(pd, s)
    ensures AsWrittenString(pd, s) == Reject <==> !PtrOk(pd, s)
    ensures AsWrittenString(pd, s) == Fault <==> PtrOk(pd, s) && ScanNul(pd, s).None?
  {
    PtrExact(pd, s);
    if PtrOk(pd, s) && ScanNul(pd, s).Some? {
      var nul := ScanNul(pd, s).value;
      var upper := PgRoundUp(s);
      RoundUpUser(s);
      WalkProbesOnePage(pd, nul, upper);
      assert Mapped(pd, nul);
      assert Wrap(s + (nul - s)) == nul;
      if nul > upper {
        assert Mapped(pd, upper);
        RoundDownWithin(upper, upper);
        assert pd[upper].kpage + PGSIZE >= PHYS_BASE;
      }
    }
  }

  /** A page of non-NUL bytes, nothing mapped after it. */
  function NoNulPageMap(): (pd: PageMap)
    ensures WellFormed(pd) && pd.Keys == {PGSIZE}
  {
    map[PGSIZE := Frame(PHYS_BASE, true, seq(PGSIZE, _ => 65))]
  }

  /** Counterexample: a string filling the last bytes of a mapped page, with the page
      behind it unmapped, makes the check read unmapped memory instead of refusing it. */
  lemma AsWrittenStringFaults()
    ensures AsWrittenString(NoNulPageMap(), 2 * PGSIZE - 4) == Fault
  {
    var pd := NoNulPageMap();
    var s := 2 * PGSIZE - 4;
    PageMapped(pd, PGSIZE, s, 4);
    StringVerdict(pd, s);
    NoNulFrom(pd, s);
  }

  lemma {:induction false} NoNulFrom(pd: PageMap, a: int)
    requires pd == NoNulPageMap() && PGSIZE <= a <= 2 * PGSIZE
    ensures ScanNul(pd, a).None?
    decreases 2 * PGSIZE - a
  {
    if a < 2 * PGSIZE {
      RoundDownWithin(PGSIZE, a);
      NoNulFrom(pd, a + 1);
    } else {
      RoundDownWithin(2 * PGSIZE, a);
    }
  }

  /** The check `is_valid_string` evidently intends: the scan for the terminator itself
      stops at the first unmapped byte. */
  method CheckString(pd: PageMap, s: uint32) returns (ok: bool)
    requires WellFormed(pd)
    ensures ok == StringOk(pd, s)
  {
    ok := IsValidPtr(pd, s);
    if !ok {
      return;
    }
    var a: int := s;
    while Mapped(pd, a) && ByteAt(pd, a) != 0
      invariant s <= a && ScanNul(pd, a) == ScanNul(pd, s)
      decreases PHYS_BASE - a
    {
      a := a + 1;
    }
    ok := Mapped(pd, a);
  }

  // ---------------------------------------------------------------------------------------
  // is_valid_fd

  /** `is_valid_fd`: the descriptor names a slot of the open-file table. */
  predicate IsValidFd(fd: int)
  {
    2 <= fd <= 129
  }

  /** The valid descriptors are exactly the table slots shifted past stdin and stdout. */
  lemma FdSlots(fd: int)
    ensures IsValidFd(fd) <==> 0 <= fd - 2 < MAX_FILES
  {
  }
}
