/** The user/kernel address split of the i386 kernel, 32-bit address arithmetic, the page
    map that `pagedir_get_page` consults, and little-endian words. */
module Memory {

  /** Size of a page (threads/vaddr.h). */
  const PGSIZE: int := 4096
  /** First kernel virtual address; user addresses lie below it. */
  const PHYS_BASE: int := 0xC000_0000
  /** 2^32: pointers, `uint32_t` and `unsigned` values wrap here. */
  const WORD: int := 0x1_0000_0000

  type byte = b: int | 0 <= b < 256

  /** A 32-bit unsigned value: a pointer, a `uint32_t` or an `unsigned`. */
  type uint32 = x: int | 0 <= x < WORD

  datatype Option<T> = None | Some(value: T)

  /** A 32-bit unsigned value: pointer arithmetic and `uint32_t` sums wrap around. */
  function Wrap(x: int): (r: int)
    ensures 0 <= r < WORD
    ensures 0 <= x < WORD ==> r == x
  {
    x % WORD
  }

  /** An unsigned 32-bit word read back as a C `int` (two's complement). */
  function ToInt32(w: int): (r: int)
    requires 0 <= w < WORD
    ensures -0x8000_0000 <= r < 0x8000_0000
    ensures Wrap(r) == w
  {
    if w < 0x8000_0000 then w else w - WORD
  }

  /** `pg_ofs`: offset of an address within its page. */
  function PgOfs(a: int): int
  {
    a % PGSIZE
  }

  /** `pg_round_down`: start of the page holding `a`. */
  function PgRoundDown(a: int): (r: int)
    ensures r % PGSIZE == 0 && r <= a < r + PGSIZE
  {
    a - a % PGSIZE
  }

  /** `pg_round_up` on a 32-bit address: the next page boundary at or above `a`. */
  function PgRoundUp(a: int): (r: int)
    requires 0 <= a < WORD
    ensures r % PGSIZE == 0
    ensures a <= WORD - PGSIZE ==> a <= r < a + PGSIZE
  {
    PgRoundDown(Wrap(a + PGSIZE - 1))
  }

  /** `ROUND_UP (x, PGSIZE)` for a non-negative `x`. */
  function RoundUpPage(x: int): (r: int)
    requires x >= 0
    ensures r % PGSIZE == 0 && x <= r < x + PGSIZE
  {
    (x + PGSIZE - 1) / PGSIZE * PGSIZE
  }

  /** A page-aligned user address. */
  predicate UserPage(u: int)
  {
    0 <= u < PHYS_BASE && u % PGSIZE == 0
  }

  /** A page-aligned kernel address of a page of the user pool. The last page of the
      address space is never handed out, so rounding up inside a kernel page never wraps. */
  predicate KernelPage(k: int)
  {
    PHYS_BASE <= k < WORD - PGSIZE && k % PGSIZE == 0
  }

  /** A user page of a process: the kernel page backing it, whether the user may write it,
      and its bytes. */
  datatype Frame = Frame(kpage: int, writable: bool, data: seq<byte>)

  /** A page directory: user page address to the frame mapped there. */
  type PageMap = map<int, Frame>

  predicate FrameOk(f: Frame)
  {
    KernelPage(f.kpage) && |f.data| == PGSIZE
  }

  predicate WellFormed(pd: PageMap)
  {
    forall u :: u in pd ==> UserPage(u) && FrameOk(pd[u])
  }

  /** `pagedir_get_page`: the kernel address that user address `a` maps to. An address at
      or above PHYS_BASE is never mapped. */
  function GetPage(pd: PageMap, a: int): (r: Option<int>)
    ensures r.Some? <==> 0 <= a < PHYS_BASE && PgRoundDown(a) in pd
    ensures r.Some? ==> r.value == pd[PgRoundDown(a)].kpage + PgOfs(a)
  {
    if 0 <= a < PHYS_BASE && PgRoundDown(a) in pd then
      Some(pd[PgRoundDown(a)].kpage + PgOfs(a))
    else
      None
  }

  /** The user byte at `a` is mapped. */
  predicate Mapped(pd: PageMap, a: int)
  {
    0 <= a < PHYS_BASE && PgRoundDown(a) in pd
  }

  /** Every byte of `[a, a + n)` is mapped user memory. */
  predicate UserRange(pd: PageMap, a: int, n: int)
  {
    forall i :: a <= i < a + n ==> Mapped(pd, i)
  }

  /** The user byte at a mapped address. */
  function ByteAt(pd: PageMap, a: int): byte
    requires WellFormed(pd) && Mapped(pd, a)
  {
    pd[PgRoundDown(a)].data[PgOfs(a)]
  }

  /** `n` user bytes from `a`. */
  function BytesAt(pd: PageMap, a: int, n: nat): (r: seq<byte>)
    requires WellFormed(pd) && UserRange(pd, a, n)
    ensures |r| == n && forall i :: 0 <= i < n ==> r[i] == ByteAt(pd, a + i)
  {
    if n == 0 then [] else BytesAt(pd, a, n - 1) + [ByteAt(pd, a + n - 1)]
  }

  /** Address of the first NUL at or after `a`, scanning user memory as `strlen` does;
      None when the scan meets an unmapped byte first. */
  function ScanNul(pd: PageMap, a: int): (r: Option<int>)
    requires WellFormed(pd)
    ensures r.Some? ==> a <= r.value && UserRange(pd, a, r.value - a + 1)
    ensures r.Some? ==> ByteAt(pd, r.value) == 0
    ensures r.Some? ==> forall i :: a <= i < r.value ==> ByteAt(pd, i) != 0
    decreases PHYS_BASE - a
  {
    if !Mapped(pd, a) then None
    else if ByteAt(pd, a) == 0 then Some(a)
    else ScanNul(pd, a + 1)
  }

  /** Little-endian value of a byte sequence. */
  function DecodeLE(b: seq<byte>): (n: nat)
  {
    if b == [] then 0 else b[0] + 256 * DecodeLE(b[1..])
  }

  /** `width` little-endian bytes of `n`, as a `memcpy` of an i386 integer lays it out. */
  function EncodeLE(n: nat, width: nat): (b: seq<byte>)
    ensures |b| == width
  {
    if width == 0 then [] else [n % 256] + EncodeLE(n / 256, width - 1)
  }

  function Pow256(width: nat): (p: nat)
    ensures p >= 1
  {
    if width == 0 then 1 else 256 * Pow256(width - 1)
  }

  /** Decoding what was encoded gives the value back when it fits in `width` bytes. */
  lemma {:induction false} DecodeEncode(n: nat, width: nat)
    requires n < Pow256(width)
    ensures DecodeLE(EncodeLE(n, width)) == n
  {
    if width > 0 {
      DecodeEncode(n / 256, width - 1);
    }
  }

  /** A decoded value fits in as many bytes as were read. */
  lemma {:induction false} DecodeBound(b: seq<byte>)
    ensures DecodeLE(b) < Pow256(|b|)
  {
    if b != [] {
      DecodeBound(b[1..]);
    }
  }

  /** The 32-bit little-endian word at `k` of a byte sequence. */
  function Word32(b: seq<byte>, k: int): (w: int)
    requires 0 <= k && k + 4 <= |b|
    ensures 0 <= w < WORD
  {
    DecodeBound(b[k..k + 4]);
    assert Pow256(4) == WORD;
    DecodeLE(b[k..k + 4])
  }
}
