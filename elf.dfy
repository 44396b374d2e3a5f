/** The ELF32 structures the loader reads, the executable-header check, the classification
    of program headers, `validate_segment`, and the read/zero split of a loadable segment.
    Field layouts follow the ELF header and program header of the Tool Interface Standard
    Executable and Linking Format specification, version 1.2 (Book I, pages 1-4 to 1-8 and
    2-2 to 2-4). */
module Elf {
  import opened Memory

  /** `sizeof (struct Elf32_Ehdr)` and `sizeof (struct Elf32_Phdr)`. */
  const EHDR_SIZE: int := 52
  const PHDR_SIZE: int := 32

  /** Values of `p_type`. */
  const PT_NULL: int := 0
  const PT_LOAD: int := 1
  const PT_DYNAMIC: int := 2
  const PT_INTERP: int := 3
  const PT_NOTE: int := 4
  const PT_SHLIB: int := 5
  const PT_PHDR: int := 6
  const PT_STACK: int := 0x6474_e551

  /** Bit of `p_flags` that makes a segment writable. */
  const PF_W: int := 2

  /** The first seven bytes of `e_ident`: "\177ELF", 32-bit class, little-endian data,
      version 1. */
  const ELF_MAGIC: seq<byte> := [0x7f, 0x45, 0x4c, 0x46, 1, 1, 1]

  /** The fields of the executable header the loader uses. */
  datatype Ehdr = Ehdr(ident: seq<byte>, etype: int, machine: int, version: int,
                       entry: uint32, phoff: uint32, phentsize: int, phnum: int)

  /** A program header. */
  datatype Phdr = Phdr(ptype: uint32, offset: uint32, vaddr: uint32, paddr: uint32,
                       filesz: uint32, memsz: uint32, flags: uint32, align: uint32)

  function Half(b: seq<byte>, k: int): (h: int)
    requires 0 <= k && k + 2 <= |b|
    ensures 0 <= h < 0x1_0000
  {
    DecodeBound(b[k..k + 2]);
    assert Pow256(2) == 0x1_0000;
    DecodeLE(b[k..k + 2])
  }

  /** The header as it lies in the first 52 bytes of the file. */
  function ParseEhdr(b: seq<byte>): (h: Ehdr)
    requires |b| == EHDR_SIZE
    ensures h.ident == b[..16] && h.phnum < 0x1_0000
  {
    Ehdr(b[..16], Half(b, 16), Half(b, 18), Word32(b, 20), Word32(b, 24), Word32(b, 28),
         Half(b, 42), Half(b, 44))
  }

  /** A program header as it lies in 32 bytes of the file. */
  function ParsePhdr(b: seq<byte>): Phdr
    requires |b| == PHDR_SIZE
  {
    Phdr(Word32(b, 0), Word32(b, 4), Word32(b, 8), Word32(b, 12), Word32(b, 16),
         Word32(b, 20), Word32(b, 24), Word32(b, 28))
  }

  /** The executable-header test of `load`: an ELF32 little-endian i386 executable of the
      current version, with program headers of the expected size and at most 1024 of
      them. */
  predicate HeaderOk(h: Ehdr)
  {
    |h.ident| >= 7 && h.ident[..7] == ELF_MAGIC && h.etype == 2 && h.machine == 3
    && h.version == 1 && h.phentsize == PHDR_SIZE && h.phnum <= 1024
  }

  /** What `load` does with a program header of a given type. */
  datatype SegmentKind = Ignored | Refused | Loadable

  function Classify(ptype: uint32): (k: SegmentKind)
  {
    if ptype == PT_LOAD then Loadable
    else if ptype == PT_DYNAMIC || ptype == PT_INTERP || ptype == PT_SHLIB then Refused
    else Ignored
  }

  /** Dynamic linking information, an interpreter and the reserved type abort the load; a
      loadable segment is loaded; every other type, known or not, is skipped. */
  lemma ClassifyCases(ptype: uint32)
    ensures Classify(ptype) == Refused <==> ptype in {PT_DYNAMIC, PT_INTERP, PT_SHLIB}
    ensures Classify(ptype) == Loadable <==> ptype == PT_LOAD
    ensures ptype in {PT_NULL, PT_NOTE, PT_PHDR, PT_STACK} ==> Classify(ptype) == Ignored
  {
  }

  /** `validate_segment` as written, with 32-bit unsigned arithmetic. */
  predicate ValidateSegment(p: Phdr, fileLength: int)
  {
    PgOfs(p.offset) == PgOfs(p.vaddr)
    && p.offset <= fileLength
    && p.memsz >= p.filesz
    && p.memsz != 0
    && p.vaddr < PHYS_BASE
    && Wrap(p.vaddr + p.memsz) < PHYS_BASE
    && Wrap(p.vaddr + p.memsz) >= p.vaddr
    && p.vaddr >= PGSIZE
  }

  /** What the checks of `validate_segment` amount to in unbounded arithmetic: file and
      memory share the page offset, the segment starts inside the file, it is non-empty and
      no smaller in memory than in the file, and it lies wholly in user space above page 0. */
  lemma ValidateSegmentMeaning(p: Phdr, fileLength: int)
    ensures ValidateSegment(p, fileLength) <==>
      p.offset % PGSIZE == p.vaddr % PGSIZE && p.offset <= fileLength
      && p.filesz <= p.memsz && 0 < p.memsz
      && PGSIZE <= p.vaddr && p.vaddr + p.memsz < PHYS_BASE
  {
    if p.vaddr + p.memsz >= WORD {
      assert Wrap(p.vaddr + p.memsz) == p.vaddr + p.memsz - WORD;
    }
  }

  /** How a loadable segment is split into pages: the page-aligned file offset and user
      address it starts at, the bytes read from the file and the bytes zeroed after them. */
  datatype Layout = Layout(filePage: int, memPage: int, readBytes: int, zeroBytes: int,
                           writable: bool)

  /** `ROUND_UP (x, PGSIZE)` in `uint32_t` arithmetic. */
  function RoundUp32(x: uint32): uint32
  {
    Wrap(Wrap(x + PGSIZE - 1) / PGSIZE * PGSIZE)
  }

  /** The layout `load` computes for a program header that passed `validate_segment`. */
  function SegmentLayout(p: Phdr, fileLength: int): Layout
    requires ValidateSegment(p, fileLength)
  {
    var pageOffset := PgOfs(p.vaddr);
    var readBytes := if p.filesz > 0 then Wrap(pageOffset + p.filesz) else 0;
    var zeroBytes := Wrap(RoundUp32(Wrap(pageOffset + p.memsz)) - readBytes);
    Layout(PgRoundDown(p.offset), PgRoundDown(p.vaddr), readBytes, zeroBytes,
           p.flags / PF_W % 2 == 1)
  }

  /** For a valid segment no `uint32_t` step of the layout wraps: the read and zeroed bytes
      together cover the segment's memory rounded up to whole pages, nothing is read for an
      all-zero segment, and the pages lie in user space from page 1 on. */
  lemma {:induction false} SegmentLayoutSound(p: Phdr, fileLength: int)
    requires ValidateSegment(p, fileLength)
    ensures var l := SegmentLayout(p, fileLength);
      && l.readBytes + l.zeroBytes == RoundUpPage(p.vaddr % PGSIZE + p.memsz)
      && (l.readBytes + l.zeroBytes) % PGSIZE == 0
      && (p.filesz == 0 ==> l.readBytes == 0)
      && (p.filesz > 0 ==> l.readBytes == p.vaddr % PGSIZE + p.filesz)
      && l.filePage % PGSIZE == 0 && l.filePage <= p.offset
      && l.memPage % PGSIZE == 0 && PGSIZE <= l.memPage
      && l.memPage + p.vaddr % PGSIZE == p.vaddr
      && p.vaddr + p.memsz <= l.memPage + l.readBytes + l.zeroBytes <= PHYS_BASE
  {
    ValidateSegmentMeaning(p, fileLength);
    var po := p.vaddr % PGSIZE;
    var mp := PgRoundDown(p.vaddr);
    var x := po + p.memsz;
    assert mp + x == p.vaddr + p.memsz < PHYS_BASE;
    assert Wrap(x) == x && Wrap(x + PGSIZE - 1) == x + PGSIZE - 1;
    var r := RoundUpPage(x);
    assert RoundUp32(x) == r;
    assert mp + r <= PHYS_BASE by {
      // `mp + r` is a page boundary below PHYS_BASE + PGSIZE.
      assert mp % PGSIZE == 0 && r % PGSIZE == 0;
      var q := (mp + r) / PGSIZE;
      assert mp + r == q * PGSIZE by {
        assert (mp + r) % PGSIZE == 0;
      }
      assert q * PGSIZE < (PHYS_BASE / PGSIZE + 1) * PGSIZE;
    }
  }
}
