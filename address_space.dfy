/** The user pool of physical pages, a process's address space, and the three helpers of
    `load` that fill it: `install_page`, `load_segment` and `setup_stack`. */
module Paging {
  import opened Memory

  /** All free pages are pages of the user pool. */
  predicate PoolOk(free: seq<int>)
  {
    forall i :: 0 <= i < |free| ==> KernelPage(free[i])
  }

  /** The user pool of `palloc`: its free pages, the next one to hand out first. */
  class Pool {
    var free: seq<int>

    constructor (pages: seq<int>)
      ensures free == pages
    {
      free := pages;
    }

    /** `palloc_get_page (PAL_USER)`: a free page, or None when the pool is exhausted. */
    method GetPage() returns (kpage: Option<int>)
      modifies this
      ensures old(free) == [] ==> kpage == None && free == old(free)
      ensures old(free) != [] ==> kpage == Some(old(free)[0]) && free == old(free)[1..]
    {
      if free == [] {
        return None;
      }
      kpage := Some(free[0]);
      free := free[1..];
    }

    /** `palloc_free_page`: the page is free again and is the next to be handed out. */
    method FreePage(kpage: int)
      modifies this
      ensures free == [kpage] + old(free)
    {
      free := [kpage] + free;
    }
  }

  /** `n` zero bytes, as `memset` or `PAL_ZERO` leave them. */
  function Zeros(n: nat): (z: seq<byte>)
    ensures |z| == n && forall i :: 0 <= i < n ==> z[i] == 0
  {
    seq(n, _ => 0)
  }

  /** `file_read` at position `pos`: up to `n` bytes, fewer at the end of the file. */
  function FileRead(image: seq<byte>, pos: nat, n: nat): (r: seq<byte>)
    ensures |r| <= n
    ensures |r| == n <==> n == 0 || pos + n <= |image|
    ensures pos + n <= |image| ==> r == image[pos..pos + n]
  {
    if pos + n <= |image| then image[pos..pos + n]
    else if pos >= |image| then []
    else image[pos..]
  }

  /** How many bytes of the next page `load_segment` reads from the file; the rest of the
      page is zeroed. Each step keeps the remaining total a multiple of PGSIZE and lowers it
      by exactly one page. */
  function PageRead(readBytes: nat, zeroBytes: nat): (n: nat)
    requires (readBytes + zeroBytes) % PGSIZE == 0 && readBytes + zeroBytes > 0
    ensures n <= readBytes && n <= PGSIZE && PGSIZE - n <= zeroBytes
    ensures (readBytes - n) + (zeroBytes - (PGSIZE - n)) == readBytes + zeroBytes - PGSIZE
    ensures ((readBytes - n) + (zeroBytes - (PGSIZE - n))) % PGSIZE == 0
    ensures n < PGSIZE ==> n == readBytes
  {
    if readBytes < PGSIZE then readBytes else PGSIZE
  }

  /** The state `load` works on: the new page directory and the user pool. */
  datatype Mem = Mem(pages: PageMap, free: seq<int>)

  /** One iteration of `load_segment`: take a page from the pool, read `pageRead` file
      bytes into it, zero the rest and map it at `upage`. None when the pool is empty, the
      file runs short or `upage` is mapped; a page taken is then handed back. */
  function FillPage(m: Mem, image: seq<byte>, pos: nat, upage: int, pageRead: nat,
                    writable: bool): (r: Option<Mem>)
    requires pageRead <= PGSIZE
    ensures r.Some? <==>
      m.free != [] && (pageRead == 0 || pos + pageRead <= |image|) && upage !in m.pages
  {
    if m.free == [] then None
    else
      var data := FileRead(image, pos, pageRead);
      if |data| != pageRead || upage in m.pages then None
      else Some(Mem(m.pages[upage := Frame(m.free[0], writable, data + Zeros(PGSIZE - pageRead))],
                    m.free[1..]))
  }

  /** What `load_segment` does to the page directory and the pool, page by page: it stops
      with false at the first page that cannot be filled. */
  function LoadPages(m: Mem, image: seq<byte>, pos: nat, upage: int, readBytes: nat,
                     zeroBytes: nat, writable: bool): (bool, Mem)
    requires (readBytes + zeroBytes) % PGSIZE == 0
    decreases readBytes + zeroBytes
  {
    if readBytes == 0 && zeroBytes == 0 then (true, m)
    else
      var n := PageRead(readBytes, zeroBytes);
      match FillPage(m, image, pos, upage, n, writable)
      case None => (false, m)
      case Some(m1) =>
        LoadPages(m1, image, pos + n, upage + PGSIZE, readBytes - n, zeroBytes - (PGSIZE - n),
                  writable)
  }

  /** Number of file bytes on page `j` of a segment that reads `readBytes` bytes. */
  function ReadOnPage(readBytes: nat, j: nat): (n: nat)
    ensures n <= PGSIZE
    ensures n > 0 ==> j * PGSIZE + n <= readBytes
  {
    if readBytes >= (j + 1) * PGSIZE then PGSIZE
    else if readBytes >= j * PGSIZE then readBytes - j * PGSIZE
    else 0
  }

  /** Contents of page `j` of a segment read from offset `pos`: its file bytes followed by
      zeros. */
  function PageContent(image: seq<byte>, pos: nat, readBytes: nat, j: nat): (d: seq<byte>)
    requires pos + readBytes <= |image|
    ensures |d| == PGSIZE
  {
    var start := pos + j * PGSIZE;
    var n := ReadOnPage(readBytes, j);
    if n == 0 then Zeros(PGSIZE) else image[start..start + n] + Zeros(PGSIZE - n)
  }

  /** The `n` consecutive user pages from `upage`. */
  function PageRun(upage: int, n: nat): (r: set<int>)
    ensures forall u :: u in r ==> upage <= u < upage + n * PGSIZE
    decreases n
  {
    if n == 0 then {} else {upage} + PageRun(upage + PGSIZE, n - 1)
  }

  lemma {:induction false} PageRunHas(upage: int, n: nat, j: nat)
    requires j < n
    ensures upage + j * PGSIZE in PageRun(upage, n)
    decreases n
  {
    if j > 0 {
      PageRunHas(upage + PGSIZE, n - 1, j - 1);
    }
  }

  /** Whatever `load_segment` returns, it only adds pages: existing mappings stay as they
      were, every new page lies in the segment, and the page directory and the pool stay
      well formed. */
  lemma LoadPagesOnlyAdds(m: Mem, image: seq<byte>, pos: nat, upage: int, readBytes: nat,
                          zeroBytes: nat, writable: bool)
    requires (readBytes + zeroBytes) % PGSIZE == 0 && upage % PGSIZE == 0
    requires 0 <= upage && upage + readBytes + zeroBytes <= PHYS_BASE
    requires WellFormed(m.pages) && PoolOk(m.free)
    ensures var m' := LoadPages(m, image, pos, upage, readBytes, zeroBytes, writable).1;
      && WellFormed(m'.pages) && PoolOk(m'.free)
      && (forall u :: u in m.pages ==> u in m'.pages && m'.pages[u] == m.pages[u])
      && (forall u :: u in m'.pages && u !in m.pages ==>
            upage <= u < upage + readBytes + zeroBytes)
  {
    var m' := LoadPages(m, image, pos, upage, readBytes, zeroBytes, writable).1;
    LoadPagesKeepsOk(m, image, pos, upage, readBytes, zeroBytes, writable);
    LoadPagesNewInRange(m, image, pos, upage, readBytes, zeroBytes, writable);
    forall u | u in m.pages
      ensures u in m'.pages && m'.pages[u] == m.pages[u]
    {
      LoadPagesOnlyAddsAt(m, image, pos, upage, readBytes, zeroBytes, writable, u);
    }
  }

  /** One filled page keeps the page directory and the pool well formed. */
  lemma FillPageOk(m: Mem, image: seq<byte>, pos: nat, upage: int, pageRead: nat,
                   writable: bool)
    requires pageRead <= PGSIZE && UserPage(upage)
    requires WellFormed(m.pages) && PoolOk(m.free)
    requires FillPage(m, image, pos, upage, pageRead, writable).Some?
    ensures var m1 := FillPage(m, image, pos, upage, pageRead, writable).value;
      WellFormed(m1.pages) && PoolOk(m1.free)
  {
    assert KernelPage(m.free[0]);
    var rest := m.free[1..];
    forall i | 0 <= i < |rest|
      ensures KernelPage(rest[i])
    {
      assert rest[i] == m.free[i + 1];
    }
  }

  /** The pages `load_segment` maps are user pages backed by pool pages, and what is left
      of the pool is still pool pages. */
  lemma {:induction false} LoadPagesKeepsOk(m: Mem, image: seq<byte>, pos: nat, upage: int,
                                            readBytes: nat, zeroBytes: nat, writable: bool)
    requires (readBytes + zeroBytes) % PGSIZE == 0 && upage % PGSIZE == 0
    requires 0 <= upage && upage + readBytes + zeroBytes <= PHYS_BASE
    requires WellFormed(m.pages) && PoolOk(m.free)
    ensures var m' := LoadPages(m, image, pos, upage, readBytes, zeroBytes, writable).1;
      WellFormed(m'.pages) && PoolOk(m'.free)
    decreases readBytes + zeroBytes
  {
    if readBytes != 0 || zeroBytes != 0 {
      var n := PageRead(readBytes, zeroBytes);
      var m1 := FillPage(m, image, pos, upage, n, writable);
      if m1.Some? {
        FillPageOk(m, image, pos, upage, n, writable);
        LoadPagesUnfold(m, image, pos, upage, readBytes, zeroBytes, writable, m1.value);
        LoadPagesKeepsOk(m1.value, image, pos + n, upage + PGSIZE, readBytes - n,
                         zeroBytes - (PGSIZE - n), writable);
      }
    }
  }

  /** Every page `load_segment` maps lies in the segment. */
  lemma {:induction false} LoadPagesNewInRange(m: Mem, image: seq<byte>, pos: nat, upage: int,
                                               readBytes: nat, zeroBytes: nat, writable: bool)
    requires (readBytes + zeroBytes) % PGSIZE == 0
    ensures var m' := LoadPages(m, image, pos, upage, readBytes, zeroBytes, writable).1;
      forall u :: u in m'.pages && u !in m.pages ==> upage <= u < upage + readBytes + zeroBytes
    decreases readBytes + zeroBytes
  {
    if readBytes != 0 || zeroBytes != 0 {
      var n := PageRead(readBytes, zeroBytes);
      var m1 := FillPage(m, image, pos, upage, n, writable);
      if m1.Some? {
        var m' := LoadPages(m, image, pos, upage, readBytes, zeroBytes, writable).1;
        LoadPagesUnfold(m, image, pos, upage, readBytes, zeroBytes, writable, m1.value);
        LoadPagesNewInRange(m1.value, image, pos + n, upage + PGSIZE, readBytes - n,
                            zeroBytes - (PGSIZE - n), writable);
        forall u | u in m'.pages && u !in m.pages
          ensures upage <= u < upage + readBytes + zeroBytes
        {
          if u != upage {
            assert u !in m1.value.pages;
          }
        }
      }
    }
  }

  /** When `load_segment` succeeds it has taken one pool page per page of the segment, and
      every byte it was to read lies in the file. */
  lemma {:induction false} LoadPagesUsesPool(m: Mem, image: seq<byte>, pos: nat, upage: int,
                                             readBytes: nat, zeroBytes: nat, writable: bool)
    requires (readBytes + zeroBytes) % PGSIZE == 0 && pos <= |image|
    requires LoadPages(m, image, pos, upage, readBytes, zeroBytes, writable).0
    ensures var m' := LoadPages(m, image, pos, upage, readBytes, zeroBytes, writable).1;
      && (readBytes + zeroBytes) / PGSIZE <= |m.free|
      && m'.free == m.free[(readBytes + zeroBytes) / PGSIZE..]
      && pos + readBytes <= |image|
    decreases readBytes + zeroBytes
  {
    if readBytes != 0 || zeroBytes != 0 {
      var n := PageRead(readBytes, zeroBytes);
      LoadPagesStep(m, image, pos, upage, readBytes, zeroBytes, writable);
      var m1 := FillPage(m, image, pos, upage, n, writable).value;
      LoadPagesUsesPool(m1, image, pos + n, upage + PGSIZE, readBytes - n,
                        zeroBytes - (PGSIZE - n), writable);
      PagesLeft(readBytes, zeroBytes, n);
      DropAfterFirst(m.free, (readBytes + zeroBytes) / PGSIZE);
    }
  }

  lemma DropAfterFirst(s: seq<int>, k: int)
    requires 1 <= k <= |s|
    ensures s[1..][k - 1..] == s[k..]
  {
  }

  /** When `load_segment` succeeds it has mapped exactly the `(read + zero) / PGSIZE`
      consecutive pages from `upage`, none of them mapped before. */
  lemma {:induction false} LoadPagesKeys(m: Mem, image: seq<byte>, pos: nat, upage: int,
                                         readBytes: nat, zeroBytes: nat, writable: bool)
    requires (readBytes + zeroBytes) % PGSIZE == 0
    requires LoadPages(m, image, pos, upage, readBytes, zeroBytes, writable).0
    ensures var m' := LoadPages(m, image, pos, upage, readBytes, zeroBytes, writable).1;
      var run := PageRun(upage, (readBytes + zeroBytes) / PGSIZE);
      m'.pages.Keys == m.pages.Keys + run && m.pages.Keys * run == {}
    decreases readBytes + zeroBytes
  {
    if readBytes != 0 || zeroBytes != 0 {
      var m1, n, r1, z1 := LoadPagesNext(m, image, pos, upage, readBytes, zeroBytes, writable);
      LoadPagesKeys(m1, image, pos + n, upage + PGSIZE, r1, z1, writable);
      KeysStep(m.pages.Keys, m1.pages.Keys,
               LoadPages(m, image, pos, upage, readBytes, zeroBytes, writable).1.pages.Keys,
               upage, (readBytes + zeroBytes) / PGSIZE, (r1 + z1) / PGSIZE);
    }
  }

  lemma KeysStep(before: set<int>, filled: set<int>, after: set<int>, u: int, count: nat,
                 restCount: nat)
    requires count == restCount + 1
    requires u !in before && filled == before + {u}
    requires after == filled + PageRun(u + PGSIZE, restCount)
    requires filled * PageRun(u + PGSIZE, restCount) == {}
    ensures after == before + PageRun(u, count) && before * PageRun(u, count) == {}
  {
    var rest := PageRun(u + PGSIZE, restCount);
    assert PageRun(u, count) == {u} + rest;
  }

  /** When `load_segment` succeeds with page directory `pages`, page `j` of the segment is
      backed by the `j`-th free page of the pool, has the requested access, and holds the
      file bytes due to it followed by zeros. */
  lemma LoadPagesFrames(m: Mem, image: seq<byte>, pos: nat, upage: int, readBytes: nat,
                        zeroBytes: nat, writable: bool, pages: PageMap)
    requires (readBytes + zeroBytes) % PGSIZE == 0 && pos <= |image|
    requires LoadPages(m, image, pos, upage, readBytes, zeroBytes, writable).0
    requires pages == LoadPages(m, image, pos, upage, readBytes, zeroBytes, writable).1.pages
    ensures (readBytes + zeroBytes) / PGSIZE <= |m.free| && pos + readBytes <= |image|
    ensures forall j :: 0 <= j < (readBytes + zeroBytes) / PGSIZE ==>
      && upage + j * PGSIZE in pages
      && pages[upage + j * PGSIZE] ==
           Frame(m.free[j], writable, PageContent(image, pos, readBytes, j))
  {
    LoadPagesUsesPool(m, image, pos, upage, readBytes, zeroBytes, writable);
    forall j | 0 <= j < (readBytes + zeroBytes) / PGSIZE
      ensures && upage + j * PGSIZE in pages
              && pages[upage + j * PGSIZE] ==
                   Frame(m.free[j], writable, PageContent(image, pos, readBytes, j))
    {
      LoadPagesFrameAt(m, image, pos, upage, readBytes, zeroBytes, writable, j, pages);
    }
  }

  /** Page `j` of a segment `load_segment` loaded. */
  lemma {:induction false} LoadPagesFrameAt(m: Mem, image: seq<byte>, pos: nat, upage: int,
                                            readBytes: nat, zeroBytes: nat, writable: bool,
                                            j: nat, pages: PageMap)
    requires (readBytes + zeroBytes) % PGSIZE == 0 && pos + readBytes <= |image|
    requires LoadPages(m, image, pos, upage, readBytes, zeroBytes, writable).0
    requires pages == LoadPages(m, image, pos, upage, readBytes, zeroBytes, writable).1.pages
    requires j < (readBytes + zeroBytes) / PGSIZE <= |m.free|
    ensures upage + j * PGSIZE in pages
    ensures pages[upage + j * PGSIZE] ==
              Frame(m.free[j], writable, PageContent(image, pos, readBytes, j))
    decreases j, 1
  {
    if j == 0 {
      LoadPagesFirstFrame(m, image, pos, upage, readBytes, zeroBytes, writable, pages);
    } else {
      var m1, n, r1, z1 := LoadPagesNext(m, image, pos, upage, readBytes, zeroBytes, writable);
      LaterFrame(m.free, m1, image, pos, upage, readBytes, n, r1, z1, writable, j, pages);
    }
  }

  /** Page `j > 0` of a segment is page `j - 1` of the rest of it, which starts with the
      state `m1` and `n` bytes further in the file. */
  lemma {:induction false} LaterFrame(free: seq<int>, m1: Mem, image: seq<byte>, pos: nat,
                                      upage: int, readBytes: nat, n: nat, r1: nat, z1: nat,
                                      writable: bool, j: nat, pages: PageMap)
    requires 1 <= j < |free| && m1.free == free[1..] && j - 1 < (r1 + z1) / PGSIZE <= |m1.free|
    requires (r1 + z1) % PGSIZE == 0 && n + r1 == readBytes && pos + readBytes <= |image|
    requires n == if readBytes < PGSIZE then readBytes else PGSIZE
    requires LoadPages(m1, image, pos + n, upage + PGSIZE, r1, z1, writable).0
    requires pages == LoadPages(m1, image, pos + n, upage + PGSIZE, r1, z1, writable).1.pages
    ensures upage + j * PGSIZE in pages
    ensures pages[upage + j * PGSIZE] ==
              Frame(free[j], writable, PageContent(image, pos, readBytes, j))
    decreases j, 0
  {
    LoadPagesFrameAt(m1, image, pos + n, upage + PGSIZE, r1, z1, writable, j - 1, pages);
    FrameShift(pages, free, m1.free, image, pos, upage, readBytes, n, r1, writable, j);
  }

  /** The first page of a segment `load_segment` loaded. */
  lemma LoadPagesFirstFrame(m: Mem, image: seq<byte>, pos: nat, upage: int, readBytes: nat,
                            zeroBytes: nat, writable: bool, pages: PageMap)
    requires (readBytes + zeroBytes) % PGSIZE == 0 && pos + readBytes <= |image|
    requires readBytes != 0 || zeroBytes != 0
    requires LoadPages(m, image, pos, upage, readBytes, zeroBytes, writable).0
    requires pages == LoadPages(m, image, pos, upage, readBytes, zeroBytes, writable).1.pages
    ensures m.free != [] && upage in pages
    ensures pages[upage] == Frame(m.free[0], writable, PageContent(image, pos, readBytes, 0))
  {
    var n := PageRead(readBytes, zeroBytes);
    LoadPagesStep(m, image, pos, upage, readBytes, zeroBytes, writable);
    var m1 := FillPage(m, image, pos, upage, n, writable).value;
    LoadPagesOnlyAddsAt(m1, image, pos + n, upage + PGSIZE, readBytes - n,
                        zeroBytes - (PGSIZE - n), writable, upage);
    FirstPageContent(image, pos, readBytes, n);
  }

  /** Page `j - 1` of the rest of a segment is page `j` of the segment. */
  lemma FrameShift(pages: PageMap, free: seq<int>, rest: seq<int>, image: seq<byte>, pos: nat,
                   upage: int, readBytes: nat, pageRead: nat, restRead: nat, writable: bool,
                   j: nat)
    requires 1 <= j < |free| && rest == free[1..] && pos + readBytes <= |image|
    requires pageRead == (if readBytes < PGSIZE then readBytes else PGSIZE)
    requires pageRead + restRead == readBytes
    requires upage + PGSIZE + (j - 1) * PGSIZE in pages
    requires pages[upage + PGSIZE + (j - 1) * PGSIZE] ==
               Frame(rest[j - 1], writable, PageContent(image, pos + pageRead, restRead, j - 1))
    ensures upage + j * PGSIZE in pages
    ensures pages[upage + j * PGSIZE] ==
              Frame(free[j], writable, PageContent(image, pos, readBytes, j))
  {
    assert upage + PGSIZE + (j - 1) * PGSIZE == upage + j * PGSIZE;
    ShiftedContent(image, pos, readBytes, pageRead, j);
  }

  lemma PagesLeft(readBytes: nat, zeroBytes: nat, n: nat)
    requires (readBytes + zeroBytes) % PGSIZE == 0 && readBytes + zeroBytes > 0
    requires n == PageRead(readBytes, zeroBytes)
    ensures (readBytes - n + (zeroBytes - (PGSIZE - n))) / PGSIZE
            == (readBytes + zeroBytes) / PGSIZE - 1
  {
  }

  /** A successful `load_segment` fills its first page from the front of the pool and goes
      on with the rest of the segment. */
  lemma LoadPagesStep(m: Mem, image: seq<byte>, pos: nat, upage: int, readBytes: nat,
                      zeroBytes: nat, writable: bool)
    requires (readBytes + zeroBytes) % PGSIZE == 0 && (readBytes != 0 || zeroBytes != 0)
    requires LoadPages(m, image, pos, upage, readBytes, zeroBytes, writable).0
    ensures var n := PageRead(readBytes, zeroBytes);
      var m1 := FillPage(m, image, pos, upage, n, writable);
      && m1.Some? && m.free != [] && m1.value.free == m.free[1..]
      && upage !in m.pages && m1.value.pages.Keys == m.pages.Keys + {upage}
      && m1.value.pages[upage] == Frame(m.free[0], writable, FileRead(image, pos, n) + Zeros(PGSIZE - n))
      && LoadPages(m1.value, image, pos + n, upage + PGSIZE, readBytes - n,
                   zeroBytes - (PGSIZE - n), writable)
         == LoadPages(m, image, pos, upage, readBytes, zeroBytes, writable)
  {
  }

  /** The state after the first page of a successful `load_segment`, that page's count
      of file bytes, and the counts of bytes left to read and to zero. */
  lemma LoadPagesNext(m: Mem, image: seq<byte>, pos: nat, upage: int, readBytes: nat,
                      zeroBytes: nat, writable: bool) returns (m1: Mem, n: nat, r1: nat, z1: nat)
    requires (readBytes + zeroBytes) % PGSIZE == 0 && (readBytes != 0 || zeroBytes != 0)
    requires LoadPages(m, image, pos, upage, readBytes, zeroBytes, writable).0
    ensures n == PageRead(readBytes, zeroBytes)
    ensures n == if readBytes < PGSIZE then readBytes else PGSIZE
    ensures r1 == readBytes - n && z1 == zeroBytes - (PGSIZE - n) && n + r1 == readBytes
    ensures (r1 + z1) % PGSIZE == 0 && r1 + z1 < readBytes + zeroBytes
    ensures (r1 + z1) / PGSIZE + 1 == (readBytes + zeroBytes) / PGSIZE
    ensures m.free != [] && m1.free == m.free[1..] && |m1.free| + 1 == |m.free|
    ensures upage !in m.pages && m1.pages.Keys == m.pages.Keys + {upage}
    ensures LoadPages(m1, image, pos + n, upage + PGSIZE, r1, z1, writable)
            == LoadPages(m, image, pos, upage, readBytes, zeroBytes, writable)
  {
    n := PageRead(readBytes, zeroBytes);
    LoadPagesStep(m, image, pos, upage, readBytes, zeroBytes, writable);
    m1 := FillPage(m, image, pos, upage, n, writable).value;
    r1, z1 := readBytes - n, zeroBytes - (PGSIZE - n);
    PagesLeft(readBytes, zeroBytes, n);
  }

  /** A page `load_segment` fills leaves it to carry on with the rest of the segment. */
  lemma LoadPagesUnfold(m: Mem, image: seq<byte>, pos: nat, upage: int, readBytes: nat,
                        zeroBytes: nat, writable: bool, m1: Mem)
    requires (readBytes + zeroBytes) % PGSIZE == 0 && (readBytes != 0 || zeroBytes != 0)
    requires FillPage(m, image, pos, upage, PageRead(readBytes, zeroBytes), writable) == Some(m1)
    ensures var n := PageRead(readBytes, zeroBytes);
      LoadPages(m1, image, pos + n, upage + PGSIZE, readBytes - n, zeroBytes - (PGSIZE - n),
                writable)
      == LoadPages(m, image, pos, upage, readBytes, zeroBytes, writable)
  {
  }

  /** A page a successful `load_segment` does not itself map keeps its frame. */
  lemma {:induction false} LoadPagesOnlyAddsAt(m: Mem, image: seq<byte>, pos: nat, upage: int,
                                               readBytes: nat, zeroBytes: nat, writable: bool,
                                               u: int)
    requires (readBytes + zeroBytes) % PGSIZE == 0 && u in m.pages
    ensures var m' := LoadPages(m, image, pos, upage, readBytes, zeroBytes, writable).1;
      u in m'.pages && m'.pages[u] == m.pages[u]
    decreases readBytes + zeroBytes
  {
    if readBytes != 0 || zeroBytes != 0 {
      var n := PageRead(readBytes, zeroBytes);
      var m1 := FillPage(m, image, pos, upage, n, writable);
      if m1.Some? {
        LoadPagesUnfold(m, image, pos, upage, readBytes, zeroBytes, writable, m1.value);
        LoadPagesOnlyAddsAt(m1.value, image, pos + n, upage + PGSIZE, readBytes - n,
                            zeroBytes - (PGSIZE - n), writable, u);
      }
    }
  }

  lemma FirstPageContent(image: seq<byte>, pos: nat, readBytes: nat, pageRead: nat)
    requires pos + readBytes <= |image|
    requires pageRead == (if readBytes < PGSIZE then readBytes else PGSIZE)
    ensures FileRead(image, pos, pageRead) + Zeros(PGSIZE - pageRead)
            == PageContent(image, pos, readBytes, 0)
  {
  }

  /** Page `j` of a segment is page `j - 1` of what is left after the first page. */
  lemma ShiftedContent(image: seq<byte>, pos: nat, readBytes: nat, pageRead: nat, j: nat)
    requires j >= 1 && pos + readBytes <= |image|
    requires pageRead == (if readBytes < PGSIZE then readBytes else PGSIZE)
    ensures PageContent(image, pos + pageRead, readBytes - pageRead, j - 1)
            == PageContent(image, pos, readBytes, j)
  {
    assert j * PGSIZE == (j - 1) * PGSIZE + PGSIZE;
    if pageRead == PGSIZE {
      assert ReadOnPage(readBytes - pageRead, j - 1) == ReadOnPage(readBytes, j);
    } else {
      assert ReadOnPage(readBytes, j) == 0;
      assert ReadOnPage(readBytes - pageRead, j - 1) == 0;
    }
  }

  /** A process's page directory. */
  class AddressSpace {
    var pages: PageMap

    /** `pagedir_create`: an empty page directory. */
    constructor ()
      ensures pages == map[]
    {
      pages := map[];
    }

    /** `install_page`: maps `upage` to the frame only if `upage` was unmapped, and changes
        no other page. */
    method InstallPage(upage: int, kpage: int, data: seq<byte>, writable: bool)
      returns (ok: bool)
      modifies this
      ensures ok == (upage !in old(pages))
      ensures ok ==> pages == old(pages)[upage := Frame(kpage, writable, data)]
      ensures !ok ==> pages == old(pages)
    {
      if upage in pages {
        return false;
      }
      pages := pages[upage := Frame(kpage, writable, data)];
      return true;
    }

    /** A write through the mapping of `upage`: its frame now holds `data`. */
    method WritePage(upage: int, data: seq<byte>)
      requires upage in pages
      modifies this
      ensures pages == old(pages)[upage := old(pages)[upage].(data := data)]
    {
      pages := pages[upage := pages[upage].(data := data)];
    }

    /** `load_segment`: reads `readBytes` bytes of `image` from offset `ofs` into
        consecutive pages from `upage` and zeroes the `zeroBytes` bytes after them. */
    method LoadSegment(pool: Pool, image: seq<byte>, ofs: nat, upage: int, readBytes: nat,
                       zeroBytes: nat, writable: bool) returns (ok: bool)
      requires (readBytes + zeroBytes) % PGSIZE == 0 && upage % PGSIZE == 0
      requires ofs % PGSIZE == 0
      modifies this, pool
      ensures (ok, Mem(pages, pool.free)) ==
        LoadPages(Mem(old(pages), old(pool.free)), image, ofs, upage, readBytes, zeroBytes,
                  writable)
    {
      var pos: nat := ofs;
      var read: nat, zero: nat, page := readBytes, zeroBytes, upage;
      while read > 0 || zero > 0
        invariant (read + zero) % PGSIZE == 0
        invariant LoadPages(Mem(pages, pool.free), image, pos, page, read, zero, writable) ==
          LoadPages(Mem(old(pages), old(pool.free)), image, ofs, upage, readBytes, zeroBytes,
                    writable)
        decreases read + zero
      {
        var pageRead := PageRead(read, zero);
        ghost var before := Mem(pages, pool.free);
        var filled := FillNextPage(pool, image, pos, page, pageRead, writable);
        if !filled {
          return false;
        }
        LoadPagesUnfold(before, image, pos, page, read, zero, writable, Mem(pages, pool.free));
        pos, read, zero, page := pos + pageRead, read - pageRead, zero - (PGSIZE - pageRead),
                                 page + PGSIZE;
      }
      return true;
    }

    /** One iteration of the loop of `load_segment`: get a page from the pool, read
        `pageRead` bytes of the file at `pos` into it, zero the rest and install it at
        `upage`; on a failed read or install the page goes back to the pool. */
    method FillNextPage(pool: Pool, image: seq<byte>, pos: nat, upage: int, pageRead: nat,
                        writable: bool) returns (ok: bool)
      requires pageRead <= PGSIZE
      modifies this, pool
      ensures var r := FillPage(Mem(old(pages), old(pool.free)), image, pos, upage, pageRead,
                                writable);
        if ok then r == Some(Mem(pages, pool.free))
        else r == None && pages == old(pages) && pool.free == old(pool.free)
    {
      var kpage := pool.GetPage();
      if kpage.None? {
        return false;
      }
      var data := FileRead(image, pos, pageRead);
      if |data| != pageRead {
        pool.FreePage(kpage.value);
        assert [kpage.value] + old(pool.free)[1..] == old(pool.free);
        return false;
      }
      ok := InstallPage(upage, kpage.value, data + Zeros(PGSIZE - pageRead), writable);
      if !ok {
        pool.FreePage(kpage.value);
        assert [kpage.value] + old(pool.free)[1..] == old(pool.free);
      }
    }

    /** `setup_stack`: maps a zeroed, writable page just below PHYS_BASE and leaves the
        stack pointer at PHYS_BASE. On failure the pool and the pages are as before and the
        stack pointer is not written. */
    method SetupStack(pool: Pool, esp0: int) returns (ok: bool, esp: int)
      modifies this, pool
      ensures (ok, Mem(pages, pool.free)) == StackPage(Mem(old(pages), old(pool.free)))
      ensures esp == if ok then PHYS_BASE else esp0
    {
      esp := esp0;
      ok := false;
      var kpage := pool.GetPage();
      if kpage.Some? {
        ok := InstallPage(PHYS_BASE - PGSIZE, kpage.value, Zeros(PGSIZE), true);
        if ok {
          esp := PHYS_BASE;
        } else {
          pool.FreePage(kpage.value);
          assert [kpage.value] + old(pool.free)[1..] == old(pool.free);
        }
      }
    }
  }

  /** The user page holding the initial stack. */
  const STACK_PAGE: int := PHYS_BASE - PGSIZE

  /** What `setup_stack` does to the page directory and the pool. */
  function StackPage(m: Mem): (bool, Mem)
  {
    if m.free == [] || STACK_PAGE in m.pages then (false, m)
    else (true, Mem(m.pages[STACK_PAGE := Frame(m.free[0], true, Zeros(PGSIZE))], m.free[1..]))
  }

  /** `setup_stack` succeeds exactly when a page is free and the stack page is unmapped;
      then the stack page is a zeroed, writable page from the pool and nothing else changed. */
  lemma StackPageMeaning(m: Mem)
    requires WellFormed(m.pages) && PoolOk(m.free)
    ensures var (ok, m') := StackPage(m);
      && (ok <==> m.free != [] && STACK_PAGE !in m.pages)
      && WellFormed(m'.pages) && PoolOk(m'.free)
      && (ok ==> STACK_PAGE in m'.pages && m'.pages[STACK_PAGE].writable
                 && m'.pages[STACK_PAGE].data == Zeros(PGSIZE)
                 && m'.pages[STACK_PAGE].kpage == m.free[0] && m'.free == m.free[1..])
      && (forall u :: u in m.pages ==> u in m'.pages && m'.pages[u] == m.pages[u])
      && (forall u :: u in m'.pages && u !in m.pages ==> u == STACK_PAGE)
  {
  }
}
