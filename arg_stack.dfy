/** The start of a user process: `start_process` splits the command line into words with
    `strtok_r`, loads the executable named by the first word, and lays out the call frame of
    `main (argc, argv)` at the top of the stack page as the i386 calling convention expects:
    the words themselves, padding to a multiple of 4, the `argv` array closed by a null
    pointer, `argv`, `argc` and an empty return address. */
module ArgStack {
  import opened Memory
  import opened Paging
  import opened Loader

  /** The only delimiter `start_process` hands to `strtok_r`. */
  const SPACE: byte := 0x20

  /** Length of the `argv` array of `start_process`, the closing null pointer included. */
  const MAX_ARGS: int := 32

  /** A word `strtok_r` can return: non-empty and free of delimiters. */
  predicate IsWord(w: seq<byte>)
  {
    |w| > 0 && SPACE !in w
  }

  /** Length of the run of non-space bytes at the start of `s`. */
  function WordLen(s: seq<byte>): (n: nat)
    ensures n <= |s|
    ensures forall j :: 0 <= j < n ==> s[j] != SPACE
    ensures n < |s| ==> s[n] == SPACE
  {
    if s == [] || s[0] == SPACE then 0 else 1 + WordLen(s[1..])
  }

  /** The words successive calls of `strtok_r (..., " ", ...)` return: the maximal runs of
      non-space bytes, in order, with every run of spaces skipped. */
  function Tokens(s: seq<byte>): (ts: seq<seq<byte>>)
    ensures forall k :: 0 <= k < |ts| ==> IsWord(ts[k])
    decreases |s|
  {
    if s == [] then []
    else if s[0] == SPACE then Tokens(s[1..])
    else
      var n := WordLen(s);
      assert forall j :: 0 <= j < n ==> s[..n][j] != SPACE;
      [s[..n]] + Tokens(s[n..])
  }

  /** Words joined by single spaces. */
  function Unwords(ts: seq<seq<byte>>): seq<byte>
  {
    if |ts| == 0 then []
    else if |ts| == 1 then ts[0]
    else ts[0] + [SPACE] + Unwords(ts[1..])
  }

  lemma {:induction false} WordLenOfWord(w: seq<byte>, rest: seq<byte>)
    requires SPACE !in w && (rest == [] || rest[0] == SPACE)
    ensures WordLen(w + rest) == |w|
  {
    if w != [] {
      assert (w + rest)[1..] == w[1..] + rest;
      WordLenOfWord(w[1..], rest);
    }
  }

  /** Splitting words joined by single spaces gives the words back. */
  lemma {:induction false} TokensUnwords(ts: seq<seq<byte>>)
    requires forall k :: 0 <= k < |ts| ==> IsWord(ts[k])
    ensures Tokens(Unwords(ts)) == ts
  {
    if |ts| == 1 {
      WordLenOfWord(ts[0], []);
      assert ts[0][|ts[0]|..] == [];
      assert ts[0][..|ts[0]|] == ts[0];
    } else if |ts| > 1 {
      var rest := [SPACE] + Unwords(ts[1..]);
      assert Unwords(ts) == ts[0] + rest;
      WordLenOfWord(ts[0], rest);
      assert (ts[0] + rest)[..|ts[0]|] == ts[0];
      assert (ts[0] + rest)[|ts[0]|..] == rest;
      assert rest[1..] == Unwords(ts[1..]);
      TokensUnwords(ts[1..]);
    }
  }

  /** A byte that is not in the command line is in none of its words. */
  lemma {:induction false} TokensAvoid(s: seq<byte>, b: byte)
    requires b !in s
    ensures forall k :: 0 <= k < |Tokens(s)| ==> b !in Tokens(s)[k]
    decreases |s|
  {
    if s != [] {
      assert b !in s[1..];
      if s[0] != SPACE {
        var n := WordLen(s);
        assert b !in s[n..];
        assert forall j :: 0 <= j < n ==> s[..n][j] != b;
        TokensAvoid(s[n..], b);
      } else {
        TokensAvoid(s[1..], b);
      }
    }
  }

  /** The words with their terminating NULs in address order, the first word lowest: the
      block the string loop of `start_process` leaves under PHYS_BASE. */
  function Flatten(args: seq<seq<byte>>): seq<byte>
  {
    if args == [] then [] else args[0] + [0] + Flatten(args[1..])
  }

  lemma FlattenStep(args: seq<seq<byte>>, k: int)
    requires 0 <= k < |args|
    ensures Flatten(args[k..]) == args[k] + [0] + Flatten(args[k + 1..])
  {
    assert args[k..][1..] == args[k + 1..];
  }

  /** The block from word `k` on starts with word `k` and its NUL. */
  lemma FlattenPrefix(args: seq<seq<byte>>, k: int)
    requires 0 <= k < |args|
    ensures |args[k]| < |Flatten(args[k..])|
    ensures Flatten(args[k..])[0..|args[k]| + 1] == args[k] + [0]
  {
    FlattenStep(args, k);
    var x := Flatten(args[k..]);
    assert x[0..] == x;
    Peel(x, 0, |args[k]| + 1, args[k] + [0], Flatten(args[k + 1..]));
  }

  /** Word `k` and the words above it form a suffix of the block. */
  lemma {:induction false} FlattenSuffix(args: seq<seq<byte>>, k: int)
    requires 0 <= k <= |args|
    ensures |Flatten(args[k..])| <= |Flatten(args)|
    ensures Flatten(args)[|Flatten(args)| - |Flatten(args[k..])|..] == Flatten(args[k..])
  {
    if k > 0 {
      FlattenSuffix(args[1..], k - 1);
      assert args[1..][k - 1..] == args[k..];
    } else {
      assert args[0..] == args;
    }
  }

  /** The address `start_process` copies word `k` to. */
  function StrAddr(args: seq<seq<byte>>, k: int): int
    requires 0 <= k <= |args|
  {
    PHYS_BASE - |Flatten(args[k..])|
  }

  /** The addresses of the words, as the `argv` array holds them. */
  function Pointers(args: seq<seq<byte>>): (ps: seq<int>)
    ensures |ps| == |args|
  {
    if args == [] then [] else [PHYS_BASE - |Flatten(args)|] + Pointers(args[1..])
  }

  lemma {:induction false} PointersAt(args: seq<seq<byte>>, k: int)
    requires 0 <= k < |args|
    ensures Pointers(args)[k] == StrAddr(args, k)
  {
    if k > 0 {
      PointersAt(args[1..], k - 1);
      assert args[1..][k - 1..] == args[k..];
    } else {
      assert args[0..] == args;
    }
  }

  /** Bytes skipped below the words to bring the stack pointer to a multiple of 4. */
  function Pad(args: seq<seq<byte>>): nat
  {
    (PHYS_BASE - |Flatten(args)|) % 4
  }

  /** Address of `argv[0]`. */
  function ArgvAddr(args: seq<seq<byte>>): int
  {
    PHYS_BASE - |Flatten(args)| - Pad(args) - 4 - 4 * |args|
  }

  /** 32-bit words laid out one after the other, as `memcpy` of pointers stores them. */
  function EncodeWords(ws: seq<int>): (b: seq<byte>)
    ensures |b| == 4 * |ws|
  {
    if ws == [] then [] else EncodeLE(Wrap(ws[0]), 4) + EncodeWords(ws[1..])
  }

  /** A call frame of `main`: the return address (never written, so zero), `argc`, `argv`,
      the array `ptrs`, its null pointer and `pad` bytes of alignment (neither written, so
      zero), and the words `flat`. Each part lies in front of the rest, as `start_process`
      pushes them. */
  function Frame(argc: int, argv: int, ptrs: seq<int>, pad: nat, flat: seq<byte>): seq<byte>
  {
    Zeros(4) + (EncodeLE(Wrap(argc), 4) + (EncodeLE(Wrap(argv), 4)
      + (EncodeWords(ptrs) + (Zeros(4 + pad) + flat))))
  }

  /** The bytes `start_process` leaves from its final stack pointer up to PHYS_BASE. */
  function FrameBytes(args: seq<seq<byte>>): seq<byte>
  {
    Frame(|args|, ArgvAddr(args), Pointers(args), Pad(args), Flatten(args))
  }

  /** The frame fits in the stack page. `start_process` does not check this: a longer frame
      runs below the page. */
  predicate Fits(args: seq<seq<byte>>)
  {
    |FrameBytes(args)| <= PGSIZE
  }

  /** `x` from `i` on is `a` followed by `b`. */
  lemma Peel(x: seq<byte>, i: int, n: int, a: seq<byte>, b: seq<byte>)
    requires 0 <= i <= |x| && x[i..] == a + b && |a| == n
    ensures x[i..i + n] == a && x[i + n..] == b && x[|x| - |b|..] == b
  {
    assert x[i..i + n] == x[i..][..n];
    assert x[i + n..] == x[i..][n..];
  }

  /** A slice of a part of `x`. */
  lemma Inside(x: seq<byte>, i: int, w: seq<byte>, j: int, n: int)
    requires 0 <= i && i + |w| <= |x| && x[i..i + |w|] == w
    requires 0 <= j && 0 <= n && j + n <= |w|
    ensures x[i + j..i + j + n] == w[j..j + n]
  {
    var a, b := x[i + j..i + j + n], w[j..j + n];
    forall t | 0 <= t < n
      ensures a[t] == b[t]
    {
      assert x[i + j + t] == x[i..i + |w|][j + t];
    }
  }

  /** A slice of the part `y` that ends `x`. */
  lemma InSuffix(x: seq<byte>, y: seq<byte>, i: int, n: int)
    requires |y| <= |x| && x[|x| - |y|..] == y
    requires 0 <= i && 0 <= n && i + n <= |y|
    ensures x[|x| - |y| + i..|x| - |y| + i + n] == y[i..i + n]
  {
    assert x[|x| - |y|..][i..i + n] == x[|x| - |y| + i..|x| - |y| + i + n];
  }

  lemma SliceOfConcat(a: seq<byte>, b: seq<byte>, i: int, j: int)
    requires 0 <= i <= j <= |b|
    ensures (a + b)[|a| + i..|a| + j] == b[i..j]
  {
  }

  /** The return address of a frame, and what follows it. */
  lemma FrameAt0(argc: int, argv: int, ptrs: seq<int>, pad: nat, flat: seq<byte>)
    ensures var f := Frame(argc, argv, ptrs, pad, flat);
      && f[0..4] == Zeros(4)
      && f[4..] == EncodeLE(Wrap(argc), 4) + (EncodeLE(Wrap(argv), 4)
           + (EncodeWords(ptrs) + (Zeros(4 + pad) + flat)))
  {
    var f := Frame(argc, argv, ptrs, pad, flat);
    assert f[0..] == f;
    Peel(f, 0, 4, Zeros(4), f[4..]);
  }

  /** `argc` in a frame, and what follows it. */
  lemma FrameAt4(argc: int, argv: int, ptrs: seq<int>, pad: nat, flat: seq<byte>)
    ensures var f := Frame(argc, argv, ptrs, pad, flat);
      && f[4..8] == EncodeLE(Wrap(argc), 4)
      && f[8..] == EncodeLE(Wrap(argv), 4) + (EncodeWords(ptrs) + (Zeros(4 + pad) + flat))
  {
    FrameAt0(argc, argv, ptrs, pad, flat);
    Peel(Frame(argc, argv, ptrs, pad, flat), 4, 4, EncodeLE(Wrap(argc), 4),
         EncodeLE(Wrap(argv), 4) + (EncodeWords(ptrs) + (Zeros(4 + pad) + flat)));
  }

  /** `argv` in a frame, and what follows it. */
  lemma FrameAt8(argc: int, argv: int, ptrs: seq<int>, pad: nat, flat: seq<byte>)
    ensures var f := Frame(argc, argv, ptrs, pad, flat);
      && f[8..12] == EncodeLE(Wrap(argv), 4)
      && f[12..] == EncodeWords(ptrs) + (Zeros(4 + pad) + flat)
  {
    FrameAt4(argc, argv, ptrs, pad, flat);
    Peel(Frame(argc, argv, ptrs, pad, flat), 8, 4, EncodeLE(Wrap(argv), 4),
         EncodeWords(ptrs) + (Zeros(4 + pad) + flat));
  }

  /** The pointer array of a frame, and what follows it. */
  lemma FrameAt12(argc: int, argv: int, ptrs: seq<int>, pad: nat, flat: seq<byte>)
    ensures var f := Frame(argc, argv, ptrs, pad, flat); var n := |ptrs|;
      && f[12..12 + 4 * n] == EncodeWords(ptrs)
      && f[12 + 4 * n..] == Zeros(4 + pad) + flat
  {
    FrameAt8(argc, argv, ptrs, pad, flat);
    Peel(Frame(argc, argv, ptrs, pad, flat), 12, 4 * |ptrs|, EncodeWords(ptrs), Zeros(4 + pad) + flat);
  }

  /** The null pointer closing the array, and the words at the frame's end. */
  lemma FrameTail(argc: int, argv: int, ptrs: seq<int>, pad: nat, flat: seq<byte>)
    ensures var f := Frame(argc, argv, ptrs, pad, flat); var n := |ptrs|;
      && |f| == 16 + 4 * n + pad + |flat|
      && f[12 + 4 * n..16 + 4 * n] == Zeros(4)
      && f[|f| - |flat|..] == flat
  {
    var f := Frame(argc, argv, ptrs, pad, flat);
    var n := |ptrs|;
    FrameAt12(argc, argv, ptrs, pad, flat);
    Peel(f, 12 + 4 * n, 4 + pad, Zeros(4 + pad), flat);
    assert f[12 + 4 * n..16 + 4 * n] == f[12 + 4 * n..][..4];
    assert (Zeros(4 + pad) + flat)[..4] == Zeros(4);
  }

  lemma FrameSize(args: seq<seq<byte>>)
    ensures |FrameBytes(args)| == 16 + 4 * |args| + Pad(args) + |Flatten(args)|
    ensures ArgvAddr(args) == PHYS_BASE - |FrameBytes(args)| + 12
  {
    FrameTail(|args|, ArgvAddr(args), Pointers(args), Pad(args), Flatten(args));
  }

  /** The 32-bit word at user address `a` of the stack page `p` (0 outside the page). */
  function ReadWord(p: seq<byte>, a: int): nat
  {
    var o := a - STACK_PAGE;
    if 0 <= o && o + 4 <= |p| then LoadLE(p, o, 4) else 0
  }

  /** The little-endian value of the `n` bytes of `p` from offset `o`. */
  function LoadLE(p: seq<byte>, o: int, n: nat): nat
    requires 0 <= o && o + n <= |p|
    decreases n
  {
    if n == 0 then 0 else p[o] as int + 256 * LoadLE(p, o + 1, n - 1)
  }

  lemma {:induction false} LoadDecode(p: seq<byte>, o: int, n: nat)
    requires 0 <= o && o + n <= |p|
    ensures LoadLE(p, o, n) == DecodeLE(p[o..o + n])
    decreases n
  {
    if n > 0 {
      LoadDecode(p, o + 1, n - 1);
      assert p[o..o + n][1..] == p[o + 1..o + 1 + (n - 1)];
    }
  }

  /** The NUL-terminated string at offset `o` of the page, cut at the page's end. */
  function CStringAt(p: seq<byte>, o: int): seq<byte>
    decreases |p| - o
  {
    if o < 0 || o >= |p| || p[o] == 0 then [] else [p[o]] + CStringAt(p, o + 1)
  }

  /** What `main` finds on entry with stack pointer `esp`: `argc` at `esp + 4`, `argv` at
      `esp + 8`, and `argv[k]` pointing to a string in the stack page. */
  function ReadArgv(p: seq<byte>, esp: int): seq<seq<byte>>
  {
    var argc := ReadWord(p, esp + 4);
    var argv := ReadWord(p, esp + 8);
    seq(argc, k => CStringAt(p, ReadWord(p, argv + 4 * k) - STACK_PAGE))
  }

  lemma {:induction false} CStringStored(p: seq<byte>, o: int, s: seq<byte>)
    requires 0 <= o && o + |s| < |p| && p[o..o + |s| + 1] == s + [0] && 0 !in s
    ensures CStringAt(p, o) == s
    decreases |s|
  {
    if s != [] {
      assert p[o] == (s + [0])[0];
      assert p[o + 1..o + 1 + |s[1..]| + 1] == p[o..o + |s| + 1][1..];
      assert (s + [0])[1..] == s[1..] + [0];
      CStringStored(p, o + 1, s[1..]);
    } else {
      assert p[o] == p[o..o + 1][0];
    }
  }

  lemma {:induction false} EncodeWordsAt(ws: seq<int>, k: int)
    requires 0 <= k < |ws|
    ensures EncodeWords(ws)[4 * k..4 * k + 4] == EncodeLE(Wrap(ws[k]), 4)
  {
    if k > 0 {
      EncodeWordsAt(ws[1..], k - 1);
      assert EncodeWords(ws)[4..] == EncodeWords(ws[1..]);
    }
  }

  lemma DecodeWord(v: int)
    requires 0 <= v < WORD
    ensures DecodeLE(EncodeLE(v, 4)) == v
  {
    assert Pow256(4) == WORD;
    DecodeEncode(v, 4);
  }

  lemma DecodeZeros()
    ensures DecodeLE(Zeros(4)) == 0
  {
    assert Zeros(4)[1..][1..][1..][1..] == [];
  }

  /** The stack pointer `start_process` leaves: the start of the frame. */
  function FrameEsp(args: seq<seq<byte>>): int
  {
    PHYS_BASE - |FrameBytes(args)|
  }

  /** The stack page `start_process` leaves: zero below the frame. */
  function StackImage(args: seq<seq<byte>>): seq<byte>
    requires Fits(args)
  {
    Zeros(PGSIZE - |FrameBytes(args)|) + FrameBytes(args)
  }

  lemma Mod4(x: int, n: int)
    ensures (x - x % 4 - 4 * (4 + n)) % 4 == 0
  {
  }

  /** Reading back a word stored at offset `j` of a frame `f` at the top of a zeroed page. */
  lemma WordAt(p: seq<byte>, f: seq<byte>, j: int, w: seq<byte>)
    requires |f| <= PGSIZE && p == Zeros(PGSIZE - |f|) + f
    requires 0 <= j && j + 4 <= |f| && f[j..j + 4] == w
    ensures ReadWord(p, PHYS_BASE - |f| + j) == DecodeLE(w)
  {
    SliceOfConcat(Zeros(PGSIZE - |f|), f, j, j + 4);
    LoadDecode(p, PGSIZE - |f| + j, 4);
  }

  /** Reading back a string stored with its NUL at offset `a` of a frame `f` at the top of a
      zeroed page. */
  lemma StringAt(p: seq<byte>, f: seq<byte>, a: int, o: int, s: seq<byte>)
    requires |f| <= PGSIZE && p == Zeros(PGSIZE - |f|) + f
    requires 0 <= a && a + |s| < |f| && f[a..a + |s| + 1] == s + [0]
    requires 0 !in s && o == PGSIZE - |f| + a
    ensures CStringAt(p, o) == s
  {
    SliceOfConcat(Zeros(PGSIZE - |f|), f, a, a + |s| + 1);
    CStringStored(p, o, s);
  }

  lemma ReturnWord(p: seq<byte>, args: seq<seq<byte>>)
    requires Fits(args) && p == StackImage(args)
    ensures ReadWord(p, FrameEsp(args)) == 0
  {
    FrameAt0(|args|, ArgvAddr(args), Pointers(args), Pad(args), Flatten(args));
    WordAt(p, FrameBytes(args), 0, Zeros(4));
    DecodeZeros();
  }

  lemma ArgcWord(p: seq<byte>, args: seq<seq<byte>>)
    requires Fits(args) && p == StackImage(args)
    ensures ReadWord(p, FrameEsp(args) + 4) == |args|
  {
    FrameAt4(|args|, ArgvAddr(args), Pointers(args), Pad(args), Flatten(args));
    FrameSize(args);
    WordAt(p, FrameBytes(args), 4, EncodeLE(Wrap(|args|), 4));
    DecodeWord(|args|);
  }

  lemma ArgvWord(p: seq<byte>, args: seq<seq<byte>>)
    requires Fits(args) && p == StackImage(args)
    ensures ReadWord(p, FrameEsp(args) + 8) == ArgvAddr(args)
  {
    FrameAt8(|args|, ArgvAddr(args), Pointers(args), Pad(args), Flatten(args));
    FrameSize(args);
    WordAt(p, FrameBytes(args), 8, EncodeLE(Wrap(ArgvAddr(args)), 4));
    DecodeWord(ArgvAddr(args));
  }

  lemma NullWord(p: seq<byte>, args: seq<seq<byte>>)
    requires Fits(args) && p == StackImage(args)
    ensures ReadWord(p, ArgvAddr(args) + 4 * |args|) == 0
  {
    FrameTail(|args|, ArgvAddr(args), Pointers(args), Pad(args), Flatten(args));
    FrameSize(args);
    WordAt(p, FrameBytes(args), 12 + 4 * |args|, Zeros(4));
    DecodeZeros();
  }

  /** The fixed words of the frame on the stack page `p`: an empty return address, `argc`,
      `argv` pointing right above itself, and the null pointer closing the `argv` array. */
  lemma FrameWords(p: seq<byte>, args: seq<seq<byte>>)
    requires Fits(args) && p == StackImage(args)
    ensures FrameEsp(args) % 4 == 0
    ensures ReadWord(p, FrameEsp(args)) == 0
    ensures ReadWord(p, FrameEsp(args) + 4) == |args|
    ensures ReadWord(p, FrameEsp(args) + 8) == ArgvAddr(args)
    ensures ArgvAddr(args) == FrameEsp(args) + 12
    ensures ReadWord(p, ArgvAddr(args) + 4 * |args|) == 0
  {
    FrameSize(args);
    Mod4(PHYS_BASE - |Flatten(args)|, |args|);
    ReturnWord(p, args);
    ArgcWord(p, args);
    ArgvWord(p, args);
    NullWord(p, args);
  }

  /** The bytes of entry `k` of the `argv` array. */
  lemma EntryBytes(args: seq<seq<byte>>, k: int)
    requires 0 <= k < |args|
    ensures 12 + 4 * k + 4 <= |FrameBytes(args)|
    ensures FrameBytes(args)[12 + 4 * k..12 + 4 * k + 4] == EncodeLE(Wrap(StrAddr(args, k)), 4)
  {
    var ptrs := Pointers(args);
    FrameAt12(|args|, ArgvAddr(args), ptrs, Pad(args), Flatten(args));
    Inside(FrameBytes(args), 12, EncodeWords(ptrs), 4 * k, 4);
    EncodeWordsAt(ptrs, k);
    PointersAt(args, k);
  }

  /** Entry `k` of the `argv` array points to word `k`. */
  lemma FrameEntry(p: seq<byte>, args: seq<seq<byte>>, k: int)
    requires Fits(args) && p == StackImage(args) && 0 <= k < |args|
    ensures ReadWord(p, ArgvAddr(args) + 4 * k) == StrAddr(args, k)
  {
    FrameSize(args);
    FlattenSuffix(args, k);
    EntryBytes(args, k);
    WordAt(p, FrameBytes(args), 12 + 4 * k, EncodeLE(Wrap(StrAddr(args, k)), 4));
    DecodeWord(StrAddr(args, k));
  }

  /** Word `k` and its NUL in the words block. */
  lemma FlatString(args: seq<seq<byte>>, k: int)
    requires 0 <= k < |args|
    ensures var flat, suffix := Flatten(args), Flatten(args[k..]);
      && |args[k]| < |suffix| <= |flat|
      && flat[|flat| - |suffix|..|flat| - |suffix| + |args[k]| + 1] == args[k] + [0]
  {
    FlattenSuffix(args, k);
    FlattenPrefix(args, k);
    InSuffix(Flatten(args), Flatten(args[k..]), 0, |args[k]| + 1);
  }

  /** Word `k` and its NUL in the frame `f`. */
  lemma StringBytes(f: seq<byte>, args: seq<seq<byte>>, k: int)
    requires f == FrameBytes(args) && 0 <= k < |args|
    ensures var suffix := Flatten(args[k..]);
      && |args[k]| < |suffix| <= |f|
      && f[|f| - |suffix|..|f| - |suffix| + |args[k]| + 1] == args[k] + [0]
  {
    var flat := Flatten(args);
    FrameTail(|args|, ArgvAddr(args), Pointers(args), Pad(args), flat);
    FlatString(args, k);
    SuffixSlice(f, flat, Flatten(args[k..]), args[k] + [0]);
  }

  /** A slice near the end of `y` lies at the same distance from the end of `x` when `x`
      ends with `y`. */
  lemma SuffixSlice(x: seq<byte>, y: seq<byte>, suffix: seq<byte>, w: seq<byte>)
    requires |y| <= |x| && x[|x| - |y|..] == y
    requires |w| <= |suffix| <= |y| && y[|y| - |suffix|..|y| - |suffix| + |w|] == w
    ensures x[|x| - |suffix|..|x| - |suffix| + |w|] == w
  {
    InSuffix(x, y, |y| - |suffix|, |w|);
  }

  /** Word `k` lies NUL-terminated at the address entry `k` holds. */
  lemma FrameString(p: seq<byte>, args: seq<seq<byte>>, k: int)
    requires Fits(args) && p == StackImage(args) && 0 <= k < |args| && 0 !in args[k]
    ensures CStringAt(p, StrAddr(args, k) - STACK_PAGE) == args[k]
  {
    var f := FrameBytes(args);
    StringBytes(f, args, k);
    StringAt(p, f, |f| - |Flatten(args[k..])|, StrAddr(args, k) - STACK_PAGE, args[k]);
  }

  /** What `main` finds, from the words `argc` and `argv` and the strings `argv` points to. */
  lemma ReadArgvFrom(p: seq<byte>, esp: int, argv: int, args: seq<seq<byte>>)
    requires ReadWord(p, esp + 4) == |args| && ReadWord(p, esp + 8) == argv
    requires forall k :: 0 <= k < |args| ==>
      CStringAt(p, ReadWord(p, argv + 4 * k) - STACK_PAGE) == args[k]
    ensures ReadArgv(p, esp) == args
  {
  }

  /** The frame `start_process` builds on the stack page `p` gives `main` its words back. */
  lemma FrameRoundTrip(p: seq<byte>, args: seq<seq<byte>>)
    requires Fits(args) && p == StackImage(args)
    requires forall k :: 0 <= k < |args| ==> 0 !in args[k]
    ensures ReadArgv(p, FrameEsp(args)) == args
  {
    ArgcWord(p, args);
    ArgvWord(p, args);
    FrameArgs(p, args);
    ReadFrame(p, args);
  }

  /** `ReadArgvFrom` on the frame's own `argc`, `argv` and strings. */
  lemma ReadFrame(p: seq<byte>, args: seq<seq<byte>>)
    requires Fits(args) && p == StackImage(args)
    requires ReadWord(p, FrameEsp(args) + 4) == |args|
    requires ReadWord(p, FrameEsp(args) + 8) == ArgvAddr(args)
    requires forall k :: 0 <= k < |args| ==>
      CStringAt(p, ReadWord(p, ArgvAddr(args) + 4 * k) - STACK_PAGE) == args[k]
    ensures ReadArgv(p, FrameEsp(args)) == args
  {
    ReadArgvFrom(p, FrameEsp(args), ArgvAddr(args), args);
  }

  /** Every `argv[k]` is word `k`. */
  lemma FrameArgs(p: seq<byte>, args: seq<seq<byte>>)
    requires Fits(args) && p == StackImage(args)
    requires forall k :: 0 <= k < |args| ==> 0 !in args[k]
    ensures forall k :: 0 <= k < |args| ==>
      CStringAt(p, ReadWord(p, ArgvAddr(args) + 4 * k) - STACK_PAGE) == args[k]
  {
    forall k | 0 <= k < |args|
      ensures CStringAt(p, ReadWord(p, ArgvAddr(args) + 4 * k) - STACK_PAGE) == args[k]
    {
      FrameArg(p, args, k);
    }
  }

  /** `argv[k]` is word `k`. */
  lemma FrameArg(p: seq<byte>, args: seq<seq<byte>>, k: int)
    requires Fits(args) && p == StackImage(args) && 0 <= k < |args| && 0 !in args[k]
    ensures CStringAt(p, ReadWord(p, ArgvAddr(args) + 4 * k) - STACK_PAGE) == args[k]
  {
    FrameEntry(p, args, k);
    FrameString(p, args, k);
  }

  /** `memcpy (page + at, bytes, |bytes|)`, a byte at a time; `strlcpy` of a word with a
      size of its length plus one stores the word and its NUL the same way. */
  method Store(page: array<byte>, at: int, bytes: seq<byte>)
    requires 0 <= at && at + |bytes| <= page.Length
    modifies page
    ensures page[..] == old(page[..])[..at] + bytes + old(page[..])[at + |bytes|..]
  {
    var j := 0;
    while j < |bytes|
      invariant 0 <= j <= |bytes|
      invariant page[..] == old(page[..])[..at] + bytes[..j] + old(page[..])[at + j..]
    {
      page[at + j] := bytes[j];
      assert bytes[..j + 1] == bytes[..j] + [bytes[j]];
      j := j + 1;
    }
  }

  /** Storing `b` right under the part `x` already built, in a page that is zero below it. */
  lemma PushBytes(o: int, b: seq<byte>, x: seq<byte>)
    requires |b| <= o
    ensures (Zeros(o) + x)[..o - |b|] + b + (Zeros(o) + x)[o - |b| + |b|..]
            == Zeros(o - |b|) + (b + x)
  {
  }

  /** Copying `bytes` right under the part `x` of the page already built; the page is zero
      below `x`, which starts at offset `o`. */
  method Push(page: array<byte>, o: int, bytes: seq<byte>, ghost x: seq<byte>)
    requires |bytes| <= o && page[..] == Zeros(o) + x
    modifies page
    ensures page[..] == Zeros(o - |bytes|) + (bytes + x)
  {
    PushBytes(o, bytes, x);
    Store(page, o - |bytes|, bytes);
  }

  /** Zeros of length `total` split in two. */
  lemma Regroup(total: nat, a: nat, b: nat, x: seq<byte>)
    requires total == a + b
    ensures Zeros(total) + x == Zeros(a) + (Zeros(b) + x)
  {
    assert Zeros(total) == Zeros(a) + Zeros(b);
  }

  lemma AlignDown(top: int, a: int)
    requires top - top % 4 <= a <= top && a % 4 == 0
    ensures a == top - top % 4
  {
  }

  /** C's `%`, which truncates toward zero. */
  function CRem(a: int, b: int): int
    requires b > 0
  {
    if a >= 0 then a % b else -((-a) % b)
  }

  /** The alignment test of `start_process`, `(int) esp % 4 != 0`, on the signed value of a
      kernel-space-sized address, is the plain divisibility test. */
  lemma AlignTest(a: int)
    requires 0 <= a < WORD
    ensures (CRem(ToInt32(a), 4) != 0) == (a % 4 != 0)
  {
  }

  /** The string loop of `start_process`: the words from the last to the first, each with
      its NUL, pushed under PHYS_BASE; `ptrs` is `argv_elements_pointers`. */
  method PushStrings(page: array<byte>, args: seq<seq<byte>>) returns (esp: int, ptrs: seq<int>)
    requires page.Length == PGSIZE && page[..] == Zeros(PGSIZE)
    requires |Flatten(args)| <= PGSIZE
    modifies page
    ensures esp == PHYS_BASE - |Flatten(args)| && ptrs == Pointers(args)
    ensures page[..] == Zeros(esp - STACK_PAGE) + Flatten(args)
  {
    var n := |args|;
    ptrs := seq(n, _ => 0);
    esp := PHYS_BASE;
    var i := n;
    assert args[n..] == [];
    assert page[..] == Zeros(PGSIZE) + [];
    while i > 0
      invariant 0 <= i <= n && |ptrs| == n
      invariant esp == StrAddr(args, i)
      invariant |Flatten(args[i..])| <= |Flatten(args)|
      invariant forall k :: i <= k < n ==> ptrs[k] == StrAddr(args, k)
      invariant page[..] == Zeros(esp - STACK_PAGE) + Flatten(args[i..])
    {
      i := i - 1;
      FlattenStep(args, i);
      FlattenSuffix(args, i);
      var size := |args[i]| + 1;
      Push(page, esp - STACK_PAGE, args[i] + [0], Flatten(args[i + 1..]));
      esp := esp - size;
      ptrs := ptrs[i := esp];
    }
    StringsPlaced(args, ptrs);
  }

  /** Addresses recorded for every word are the pointers of the `argv` array. */
  lemma StringsPlaced(args: seq<seq<byte>>, ptrs: seq<int>)
    requires |ptrs| == |args| && forall k :: 0 <= k < |args| ==> ptrs[k] == StrAddr(args, k)
    ensures ptrs == Pointers(args) && args[0..] == args
  {
    assert args[0..] == args;
    forall k | 0 <= k < |args|
      ensures ptrs[k] == Pointers(args)[k]
    {
      PointersAt(args, k);
    }
  }

  /** The pointers from entry `i` on, in front of `above`. */
  lemma EncodeWordsStep(ptrs: seq<int>, i: int, above: seq<byte>)
    requires 0 <= i < |ptrs|
    ensures EncodeWords(ptrs[i..]) + above
            == EncodeLE(Wrap(ptrs[i]), 4) + (EncodeWords(ptrs[i + 1..]) + above)
  {
    assert ptrs[i..][1..] == ptrs[i + 1..];
  }

  /** The pointer loop of `start_process`: `argv[argc - 1]` down to `argv[0]` pushed as
      32-bit words under `esp0`. */
  method PushPointers(page: array<byte>, esp0: int, ptrs: seq<int>, ghost above: seq<byte>)
    returns (esp: int)
    requires STACK_PAGE + 4 * |ptrs| <= esp0
    requires page[..] == Zeros(esp0 - STACK_PAGE) + above
    modifies page
    ensures esp == esp0 - 4 * |ptrs|
    ensures page[..] == Zeros(esp - STACK_PAGE) + (EncodeWords(ptrs) + above)
  {
    esp := esp0;
    var i := |ptrs|;
    assert ptrs[|ptrs|..] == [];
    assert page[..] == Zeros(esp - STACK_PAGE) + (EncodeWords(ptrs[i..]) + above);
    while i > 0
      invariant 0 <= i <= |ptrs|
      invariant esp == esp0 - 4 * (|ptrs| - i)
      invariant page[..] == Zeros(esp - STACK_PAGE) + (EncodeWords(ptrs[i..]) + above)
    {
      i := i - 1;
      EncodeWordsStep(ptrs, i, above);
      Push(page, esp - STACK_PAGE, EncodeLE(Wrap(ptrs[i]), 4), EncodeWords(ptrs[i + 1..]) + above);
      esp := esp - 4;
    }
    assert ptrs[0..] == ptrs;
  }

  /** The alignment loop of `start_process`: the stack pointer goes down one byte at a time
      until C's `esp % 4` is 0, that is to the word boundary at or below it. */
  method WordAlign(top: int) returns (esp: int)
    requires 0 <= top < WORD
    ensures esp == top - top % 4
  {
    esp := top;
    while CRem(ToInt32(esp), 4) != 0
      invariant top - top % 4 <= esp <= top
      decreases esp
    {
      AlignTest(esp);
      esp := esp - 1;
    }
    AlignTest(esp);
    AlignDown(top, esp);
  }

  /** The last pushes of `start_process`: `argv`, `argc` and the null return address. */
  method PushHead(page: array<byte>, esp0: int, argv: int, argc: int, ghost above: seq<byte>)
    returns (esp: int)
    requires STACK_PAGE + 12 <= esp0 && page[..] == Zeros(esp0 - STACK_PAGE) + above
    modifies page
    ensures esp == esp0 - 12
    ensures page[..] == Zeros(esp - STACK_PAGE)
      + (Zeros(4) + (EncodeLE(Wrap(argc), 4) + (EncodeLE(Wrap(argv), 4) + above)))
  {
    esp := esp0;
    ghost var rest := above;
    Push(page, esp - STACK_PAGE, EncodeLE(Wrap(argv), 4), rest);
    esp := esp - 4;
    rest := EncodeLE(Wrap(argv), 4) + rest;
    Push(page, esp - STACK_PAGE, EncodeLE(Wrap(argc), 4), rest);
    esp := esp - 4;
    rest := EncodeLE(Wrap(argc), 4) + rest;
    Regroup(esp - STACK_PAGE, esp - 4 - STACK_PAGE, 4, rest);
    esp := esp - 4;
  }

  /** The argument-passing part of `start_process`, on the stack page as user addresses
      STACK_PAGE to PHYS_BASE map onto it: the page ends with the frame and is zero below
      it, and the stack pointer is at the frame's start. */
  method PushArguments(page: array<byte>, args: seq<seq<byte>>) returns (esp: int)
    requires page.Length == PGSIZE && page[..] == Zeros(PGSIZE)
    requires Fits(args)
    modifies page
    ensures esp == FrameEsp(args) && page[..] == StackImage(args)
  {
    FrameSize(args);
    var ptrs;
    esp, ptrs := PushStrings(page, args);
    var top := esp;
    ghost var flat := Flatten(args);
    ghost var pad := Pad(args);
    esp := WordAlign(top);
    esp := esp - 4;
    Regroup(top - STACK_PAGE, esp - STACK_PAGE, 4 + pad, flat);
    esp := PushPointers(page, esp, ptrs, Zeros(4 + pad) + flat);
    var argv := esp;
    esp := PushHead(page, esp, argv, |args|, EncodeWords(ptrs) + (Zeros(4 + pad) + flat));
    assert argv == ArgvAddr(args);
  }

  /** The executable `filesys_open` finds under `name`, if any. */
  function Lookup(files: map<seq<byte>, seq<byte>>, name: seq<byte>): (r: Option<seq<byte>>)
    ensures r.Some? <==> name in files
    ensures r.Some? ==> r.value == files[name]
  {
    if name in files then Some(files[name]) else None
  }

  /** The executable `load` opens for the words `args`: the first word, or a null name when
      the command line holds no word, which no file answers to. */
  function ProgramImage(files: map<seq<byte>, seq<byte>>, args: seq<seq<byte>>)
    : (r: Option<seq<byte>>)
    ensures r.Some? <==> |args| > 0 && args[0] in files
    ensures r.Some? ==> r.value == files[args[0]]
  {
    if |args| == 0 then None else Lookup(files, args[0])
  }

  /** `start_process` up to the jump into user mode: split the command line into words,
      load the executable the first word names, and on success build the frame of
      `main (argc, argv)` on the stack page, from which `main` reads the words back. The
      command line is a C string, so it holds no NUL; `argv` has room for 31 words and a
      null pointer, and the frame must fit in the stack page, neither of which
      `start_process` checks. A command line without a word loads nothing. On success the
      process starts at the header's entry point with `esp` at the frame. */
  method StartProcess(cmdLine: seq<byte>, files: map<seq<byte>, seq<byte>>, dirOk: bool,
                      pool: Pool) returns (success: bool, space: AddressSpace?, eip: int,
                                           esp: int)
    requires 0 !in cmdLine
    requires |Tokens(cmdLine)| < MAX_ARGS && Fits(Tokens(cmdLine))
    requires forall name :: name in files ==> ImageOk(files[name])
    requires PoolOk(pool.free)
    modifies pool
    ensures space == null <==> !dirOk
    ensures var image := ProgramImage(files, Tokens(cmdLine));
      var load := LoadSpec(image, old(pool.free));
      && (success <==> space != null && load.0)
      && (space != null ==> fresh(space) && pool.free == load.1.free)
      && (space != null && !success ==> space.pages == load.1.pages)
      && (success ==>
            && image.Some? && Header(image.value).Some?
            && eip == Header(image.value).value.entry
            && STACK_PAGE in load.1.pages && esp == FrameEsp(Tokens(cmdLine))
            && space.pages == load.1.pages[STACK_PAGE :=
                 load.1.pages[STACK_PAGE].(data := StackImage(Tokens(cmdLine)))]
            && ReadArgv(space.pages[STACK_PAGE].data, esp) == Tokens(cmdLine))
  {
    var args := Tokens(cmdLine);
    var image := ProgramImage(files, args);
    success, space, eip, esp := Load(image, dirOk, pool);
    if !success {
      return;
    }
    LoadLeavesStack(image, old(pool.free));
    var data := space.pages[STACK_PAGE].data;
    var page := new byte[PGSIZE](i => if 0 <= i < |data| then data[i] else 0);
    assert page[..] == Zeros(PGSIZE);
    esp := PushArguments(page, args);
    space.WritePage(STACK_PAGE, page[..]);
    TokensAvoid(cmdLine, 0);
    FrameRoundTrip(page[..], args);
  }
}
