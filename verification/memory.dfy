/**
 * The memory system (src/memory_system.hpp, src/memory_system.cpp): a
 * demand-paged table from virtual pages to frames, little-endian loads
 * and stores that may straddle a page end, and the timing of every access,
 * charged by the cache hierarchy on translated addresses.
 *
 * Frames are numbered in allocation order; frame `f` is the physical
 * bytes `f * PGSIZE` .. `f * PGSIZE + PGSIZE - 1` of `phys`. A physical
 * address is what the source's host pointer is: what the caches see.
 */
module Memory {
  import opened Registers
  import opened Outcomes
  import opened Caches

  /** `PGSIZE`. */
  const PGSIZE: nat := 4096
  /** `HEAP_START`: where `reset` puts the heap pointer. */
  const HEAP_START: Word := 0x8_0000_0000
  /** `STACK_TOP`: the top of the guest stack. */
  const STACK_TOP: Word := 0x1_0000_0000_0000

  /** A byte of guest memory, `uint8_t`. */
  type Byte = x: int | 0 <= x < 256

  /** `PGADDR`: the address with its low twelve bits cleared. */
  function PageBase(va: Word): Word {
    va - va % PGSIZE
  }

  /** `PGOFF`: the low twelve bits. */
  function PageOffset(va: Word): nat {
    va % PGSIZE
  }

  /** A page is an aligned block of PGSIZE addresses, none of which reaches past 2^64. */
  lemma PageFacts(va: Word)
    ensures PageBase(va) % PGSIZE == 0 && PageOffset(va) < PGSIZE
    ensures PageBase(va) + PageOffset(va) == va
    ensures PageBase(va) + PGSIZE <= Two64
  {
  }

  /** Every address of a page has that page as its base, at its distance from the base. */
  lemma SamePage(x: Word, y: Word)
    requires PageBase(y) <= x < PageBase(y) + PGSIZE
    ensures PageBase(x) == PageBase(y) && PageOffset(x) == x - PageBase(y)
  {
  }

  /** The address `j` bytes past `va`, `va + j` computed in `reg_t`. */
  function At(va: Word, j: nat): Word {
    Wrap(va + j)
  }

  /** Below the top of the address space, `ptr + j` does not wrap. */
  lemma AtInRange(va: Word, j: nat)
    requires va + j < Two64
    ensures At(va, j) == va + j
  {
    WrapId(va + j);
  }

  /** Page bases are monotone in the address. */
  lemma PageMonotone(x: Word, y: Word)
    requires x <= y
    ensures PageBase(x) <= PageBase(y)
  {
    PageFacts(x);
    PageFacts(y);
  }

  /** `page_table`: page base address to frame number. */
  type PageTable = map<Word, nat>

  /**
   * Every entry is a page base pointing at an allocated frame of a
   * physical memory of `size` bytes, and no two pages share a frame.
   */
  ghost predicate TableOk(pt: PageTable, size: nat) {
    && (forall p :: p in pt ==> p % PGSIZE == 0 && (pt[p] + 1) * PGSIZE <= size)
    && (forall p, q :: p in pt && q in pt && p != q ==> pt[p] != pt[q])
  }

  /**
   * `translate`: the frame of the page of `ptr` with the page offset kept,
   * or an unmapped-address fault.
   */
  function Translate(pt: PageTable, ptr: Word): (r: Result<nat>)
    ensures r.Ok? <==> PageBase(ptr) in pt
    ensures r.Err? ==> r.fault == UnmappedAddress(ptr)
    ensures r.Ok? ==> r.value % PGSIZE == PageOffset(ptr) && r.value / PGSIZE == pt[PageBase(ptr)]
  {
    if PageBase(ptr) in pt then Ok(pt[PageBase(ptr)] * PGSIZE + PageOffset(ptr)) else Err(UnmappedAddress(ptr))
  }

  /** Translated addresses lie inside physical memory. */
  lemma TranslateInRange(pt: PageTable, size: nat, ptr: Word)
    requires TableOk(pt, size)
    ensures Translate(pt, ptr).Ok? ==> Translate(pt, ptr).value < size
  {
  }

  /** An access inside a mapped page stays inside its frame. */
  lemma InPageRange(pt: PageTable, size: nat, va: Word, n: nat)
    requires TableOk(pt, size) && Translate(pt, va).Ok? && PageOffset(va) + n <= PGSIZE
    ensures Translate(pt, va).value + n <= size
  {
    assert PageBase(va) in pt;
  }

  /** Distinct mapped addresses translate to distinct physical addresses. */
  lemma TranslateInjective(pt: PageTable, size: nat, x: Word, y: Word)
    requires TableOk(pt, size) && x != y
    requires Translate(pt, x).Ok? && Translate(pt, y).Ok?
    ensures Translate(pt, x).value != Translate(pt, y).value
  {
    PageFacts(x);
    PageFacts(y);
  }

  /** An address further into the same page translates that much further into the same frame. */
  lemma TranslateInPage(pt: PageTable, va: Word, k: nat)
    requires PageOffset(va) + k < PGSIZE && Translate(pt, va).Ok?
    ensures va + k < Two64 && At(va, k) == va + k
    ensures Translate(pt, va + k) == Ok(Translate(pt, va).value + k)
  {
    PageFacts(va);
    SamePage(va + k, va);
  }

  /** The byte at virtual address `va`. */
  function LoadByte(pt: PageTable, phys: seq<Byte>, va: Word): Result<Byte>
    requires TableOk(pt, |phys|)
  {
    TranslateInRange(pt, |phys|, va);
    var pa :- Translate(pt, va);
    Ok(phys[pa])
  }

  /**
   * Whether the bytes at offsets `i` .. `n - 1` from `va` (with 64-bit
   * wrap-around, as `ptr + i` is computed) are mapped; the fault names the
   * first that is not.
   */
  function Probe(pt: PageTable, va: Word, i: nat, n: nat): Result<()>
    requires i <= n
    decreases n - i
  {
    if i == n then Ok(())
    else
      var _ :- Translate(pt, At(va, i));
      Probe(pt, va, i + 1, n)
  }

  /** An unsigned little-endian number: byte 0 is the least significant. */
  function LittleEndian(bs: seq<Byte>): (v: nat)
    ensures v < Pow2(8 * |bs|)
  {
    if bs == [] then 0
    else
      Pow2Add(8, 8 * (|bs| - 1));
      MulMono(256, LittleEndian(bs[1..]), Pow2(8 * (|bs| - 1)) - 1);
      bs[0] + 256 * LittleEndian(bs[1..])
  }

  /** The `n` low bytes of `v`, least significant first. */
  function LeBytes(v: nat, n: nat): (bs: seq<Byte>)
    ensures |bs| == n
  {
    if n == 0 then [] else [v % 256] + LeBytes(v / 256, n - 1)
  }

  /**
   * The load of bytes `i` .. `n - 1` from `va`, little-endian: the
   * straddling loop of `read_data`, which fails at the first unmapped byte.
   */
  function LoadFrom(pt: PageTable, phys: seq<Byte>, va: Word, i: nat, n: nat): Result<nat>
    requires TableOk(pt, |phys|) && i <= n
    decreases n - i
  {
    if i == n then Ok(0)
    else Cons(LoadByte(pt, phys, At(va, i)), LoadFrom(pt, phys, va, i + 1, n))
  }

  /** One more low byte below a load: the first failure, or the byte below the rest shifted by 8 bits. */
  function Cons(b: Result<Byte>, rest: Result<nat>): Result<nat> {
    if b.Err? then Err(b.fault) else if rest.Err? then rest else Ok(b.value + 256 * rest.value)
  }

  /**
   * The store of `bs[i..]` at offsets `i`, `i + 1`, ... from `va`, one byte
   * at a time, stopping at the first unmapped byte with the earlier bytes
   * already written: the straddling loop of `write_data`.
   */
  function StoreFrom(pt: PageTable, phys: seq<Byte>, va: Word, bs: seq<Byte>, i: nat): (r: seq<Byte>)
    requires TableOk(pt, |phys|) && i <= |bs|
    ensures |r| == |phys|
    decreases |bs| - i
  {
    if i == |bs| then phys
    else
      TranslateInRange(pt, |phys|, At(va, i));
      match Translate(pt, At(va, i))
      case Err(_) => phys
      case Ok(pa) => StoreFrom(pt, phys[pa := bs[i]], va, bs, i + 1)
  }

  /** Dividing by `a * c` is dividing by `a` and then by `c`; the remainders combine as digits. */
  lemma MixedRadix(v: nat, a: nat, c: nat)
    requires a >= 1 && c >= 1
    ensures v / (a * c) == v / a / c
    ensures v % (a * c) == v % a + a * (v / a % c)
  {
    var q, r := v / a, v % a;
    var q2, r2 := q / c, q % c;
    assert v == a * (c * q2 + r2) + r;
    assert v == (a * c) * q2 + (a * r2 + r);
    MulMono(a, r2, c - 1);
    assert a * (c - 1) == a * c - a;
    DivModUnique(v, a * c, q2, a * r2 + r);
  }

  /** `LittleEndian` reads back the bytes `LeBytes` splits a number into, up to the width. */
  lemma {:induction false} LeBytesValue(v: nat, n: nat)
    ensures LittleEndian(LeBytes(v, n)) == v % Pow2(8 * n)
  {
    if n > 0 {
      var bs := LeBytes(v, n);
      assert bs[1..] == LeBytes(v / 256, n - 1);
      LeBytesValue(v / 256, n - 1);
      Pow2Add(8, 8 * (n - 1));
      assert Pow2(8) == 256;
      MixedRadix(v, 256, Pow2(8 * (n - 1)));
    }
  }

  /** Byte `i` of `LeBytes(v, n)` is `(v >> (i * 8)) & 0xFF`, the byte `write_data` stores at `ptr + i`. */
  lemma {:induction false} LeBytesIndex(v: nat, n: nat, i: nat)
    requires i < n
    ensures LeBytes(v, n)[i] == (v / Pow2(8 * i)) % 256
  {
    if i > 0 {
      LeBytesIndex(v / 256, n - 1, i - 1);
      Pow2Add(8, 8 * (i - 1));
      assert Pow2(8) == 256;
      MixedRadix(v, 256, Pow2(8 * (i - 1)));
    }
  }

  /** `Probe` succeeds exactly when every byte in the range is mapped. */
  lemma {:induction false} ProbeAll(pt: PageTable, va: Word, i: nat, n: nat)
    requires i <= n
    ensures Probe(pt, va, i, n).Ok? <==> forall j :: i <= j < n ==> PageBase(At(va, j)) in pt
    decreases n - i
  {
    if i < n {
      ProbeAll(pt, va, i + 1, n);
      assert Probe(pt, va, i, n).Ok? <==> PageBase(At(va, i)) in pt && Probe(pt, va, i + 1, n).Ok?;
    }
  }

  /** A load fails exactly when `Probe` does, with the same fault. */
  lemma {:induction false} LoadProbe(pt: PageTable, phys: seq<Byte>, va: Word, i: nat, n: nat)
    requires TableOk(pt, |phys|) && i <= n
    ensures LoadFrom(pt, phys, va, i, n).Err? <==> Probe(pt, va, i, n).Err?
    ensures LoadFrom(pt, phys, va, i, n).Err? ==> LoadFrom(pt, phys, va, i, n).fault == Probe(pt, va, i, n).fault
    decreases n - i
  {
    if i < n {
      LoadProbe(pt, phys, va, i + 1, n);
    }
  }

  /** When the bytes in memory are `bs`, the load is their little-endian value. */
  lemma {:induction false} LoadBytes(pt: PageTable, phys: seq<Byte>, va: Word, i: nat, bs: seq<Byte>)
    requires TableOk(pt, |phys|) && i <= |bs|
    requires forall j :: i <= j < |bs| ==> LoadByte(pt, phys, At(va, j)) == Ok(bs[j])
    ensures LoadFrom(pt, phys, va, i, |bs|) == Ok(LittleEndian(bs[i..]))
    decreases |bs| - i
  {
    if i < |bs| {
      LoadBytes(pt, phys, va, i + 1, bs);
      assert bs[i..][1..] == bs[i + 1..];
    }
  }

  /** Offsets less than 2^64 apart name different addresses. */
  lemma AtDistinct(va: Word, j: nat, k: nat)
    requires j < k < j + Two64
    ensures At(va, j) != At(va, k)
  {
  }

  /** A store leaves every physical byte it does not address alone. */
  lemma {:induction false} StoreFrame(pt: PageTable, phys: seq<Byte>, va: Word, bs: seq<Byte>, i: nat, x: nat)
    requires TableOk(pt, |phys|) && i <= |bs| && x < |phys|
    requires forall j :: i <= j < |bs| ==> Translate(pt, At(va, j)) != Ok(x)
    ensures StoreFrom(pt, phys, va, bs, i)[x] == phys[x]
    decreases |bs| - i
  {
    if i < |bs| && Translate(pt, At(va, i)).Ok? {
      TranslateInRange(pt, |phys|, At(va, i));
      var pa := Translate(pt, At(va, i)).value;
      assert pa != x;
      StoreFrame(pt, phys[pa := bs[i]], va, bs, i + 1, x);
    }
  }

  /** After a store over mapped bytes, byte `j` reads back as `bs[j]`. */
  lemma {:induction false} StoreWritten(pt: PageTable, phys: seq<Byte>, va: Word, bs: seq<Byte>, i: nat, j: nat)
    requires TableOk(pt, |phys|) && i <= j < |bs| <= PGSIZE
    requires Probe(pt, va, i, |bs|).Ok?
    ensures LoadByte(pt, StoreFrom(pt, phys, va, bs, i), At(va, j)) == Ok(bs[j])
    decreases j - i
  {
    ProbeAll(pt, va, i, |bs|);
    TranslateInRange(pt, |phys|, At(va, i));
    var pa := Translate(pt, At(va, i)).value;
    var next := phys[pa := bs[i]];
    ProbeAll(pt, va, i + 1, |bs|);
    if i < j {
      StoreWritten(pt, next, va, bs, i + 1, j);
    } else {
      forall k | i + 1 <= k < |bs|
        ensures Translate(pt, At(va, k)) != Ok(pa)
      {
        AtDistinct(va, i, k);
        TranslateInjective(pt, |phys|, At(va, i), At(va, k));
      }
      StoreFrame(pt, next, va, bs, i + 1, pa);
    }
  }

  /** A store changes no byte outside the addresses it writes. */
  lemma StoreOnlyWritten(pt: PageTable, phys: seq<Byte>, va: Word, bs: seq<Byte>, x: Word)
    requires TableOk(pt, |phys|)
    requires forall j :: 0 <= j < |bs| ==> At(va, j) != x
    ensures LoadByte(pt, StoreFrom(pt, phys, va, bs, 0), x) == LoadByte(pt, phys, x)
  {
    TranslateInRange(pt, |phys|, x);
    if Translate(pt, x).Ok? {
      var pa := Translate(pt, x).value;
      forall j | 0 <= j < |bs|
        ensures Translate(pt, At(va, j)) != Ok(pa)
      {
        if Translate(pt, At(va, j)).Ok? {
          assert At(va, j) != x;
          TranslateInjective(pt, |phys|, At(va, j), x);
        }
      }
      StoreFrame(pt, phys, va, bs, 0, pa);
    }
  }

  /**
   * Storing the `n` low bytes of `v` and loading `n` bytes from the same
   * address gives `v` modulo 2^(8n), whether or not the access straddles a
   * page, provided every byte is mapped.
   */
  lemma StoreLoadRoundTrip(pt: PageTable, phys: seq<Byte>, va: Word, v: nat, n: nat)
    requires TableOk(pt, |phys|) && n <= PGSIZE
    requires Probe(pt, va, 0, n).Ok?
    ensures LoadFrom(pt, StoreFrom(pt, phys, va, LeBytes(v, n), 0), va, 0, n) == Ok(v % Pow2(8 * n))
  {
    var bs := LeBytes(v, n);
    var after := StoreFrom(pt, phys, va, bs, 0);
    forall j | 0 <= j < n
      ensures LoadByte(pt, after, At(va, j)) == Ok(bs[j])
    {
      StoreWritten(pt, phys, va, bs, 0, j);
    }
    LoadBytes(pt, after, va, 0, bs);
    assert bs[0..] == bs;
    LeBytesValue(v, n);
  }

  /** Stepping `d` bytes from the address `i` bytes past `va` is stepping `i + d` bytes past `va`. */
  lemma AtAt(va: Word, i: nat, d: nat)
    ensures At(At(va, i), d) == At(va, i + d)
  {
    var q := (va + i) / Two64;
    DivModUnique(va + i + d, Two64, q + (At(va, i) + d) / Two64, (At(va, i) + d) % Two64);
  }

  /** Bytes `i` .. `k - 1` being mapped, probing from `i` is probing from `k`. */
  lemma {:induction false} ProbeSkip(pt: PageTable, va: Word, i: nat, k: nat, n: nat)
    requires i <= k <= n
    requires forall j :: i <= j < k ==> PageBase(At(va, j)) in pt
    ensures Probe(pt, va, i, n) == Probe(pt, va, k, n)
    decreases k - i
  {
    if i < k {
      ProbeSkip(pt, va, i + 1, k, n);
    }
  }

  /** A load within one page is the little-endian value of the frame bytes it covers. */
  lemma InPageLoad(pt: PageTable, phys: seq<Byte>, va: Word, n: nat)
    requires TableOk(pt, |phys|) && Translate(pt, va).Ok? && PageOffset(va) + n <= PGSIZE
    ensures Translate(pt, va).value + n <= |phys|
    ensures LoadFrom(pt, phys, va, 0, n) == Ok(LittleEndian(phys[Translate(pt, va).value .. Translate(pt, va).value + n]))
  {
    InPageRange(pt, |phys|, va, n);
    var pa := Translate(pt, va).value;
    var bs := phys[pa .. pa + n];
    InPageBytes(pt, phys, va, n);
    assert |bs| == n && bs[0..] == bs;
    assert forall j :: 0 <= j < n ==> LoadByte(pt, phys, At(va, j)) == Ok(bs[j]);
    LoadBytes(pt, phys, va, 0, bs);
  }

  /** The bytes of an access inside a mapped page are consecutive bytes of its frame. */
  lemma InPageBytes(pt: PageTable, phys: seq<Byte>, va: Word, n: nat)
    requires TableOk(pt, |phys|) && Translate(pt, va).Ok? && PageOffset(va) + n <= PGSIZE
    ensures Translate(pt, va).value + n <= |phys|
    ensures forall j :: 0 <= j < n ==> LoadByte(pt, phys, At(va, j)) == Ok(phys[Translate(pt, va).value + j])
  {
    InPageRange(pt, |phys|, va, n);
    forall j | 0 <= j < n
      ensures LoadByte(pt, phys, At(va, j)) == Ok(phys[Translate(pt, va).value + j])
    {
      TranslateInPage(pt, va, j);
    }
  }

  /** Every byte of an access that stays inside a mapped page is mapped. */
  lemma InPageMapped(pt: PageTable, va: Word, n: nat)
    requires Translate(pt, va).Ok? && PageOffset(va) + n <= PGSIZE
    ensures Probe(pt, va, 0, n).Ok?
  {
    forall j | 0 <= j < n
      ensures PageBase(At(va, j)) in pt
    {
      TranslateInPage(pt, va, j);
    }
    ProbeAll(pt, va, 0, n);
  }

  /** There is one successful `Result<()>`. */
  lemma UnitResult(r: Result<()>)
    requires r.Ok?
    ensures r == Ok(())
  {
    var u: () := r.value;
    match u { case () => }
  }

  /** A store inside one mapped page is one copy into its frame. */
  lemma InPageStore(pt: PageTable, phys: seq<Byte>, ptr: Word, bs: seq<Byte>)
    requires TableOk(pt, |phys|) && Translate(pt, ptr).Ok? && PageOffset(ptr) + |bs| <= PGSIZE
    ensures Translate(pt, ptr).value + |bs| <= |phys|
    ensures StoreFrom(pt, phys, ptr, bs, 0) == Splice(phys, Translate(pt, ptr).value, bs)
  {
    AtInRange(ptr, 0);
    var pa := Translate(pt, At(ptr, 0)).value;
    SegmentMapped(pt, ptr, 0, |bs|);
    InPageRange(pt, |phys|, ptr, |bs|);
    SegmentStore(pt, phys, ptr, bs, 0, |bs|, pa);
    assert bs[0..|bs|] == bs;
  }


  /**
   * Whether an access of `bytes` bytes at `ptr` runs past the end of a
   * line of the smallest line size: `(ptr & (min_line_size - 1)) >
   * min_line_size - bytes`, where the right side is unsigned, so a line
   * shorter than the access never counts as crossed.
   */
  predicate LineStraddles(ptr: Word, minLine: nat, bytes: nat)
    requires minLine >= 1
  {
    minLine >= bytes && ptr % minLine > minLine - bytes
  }

  /** `memcpy` of `bs` into the frames at physical address `pa`. */
  function Splice(phys: seq<Byte>, pa: nat, bs: seq<Byte>): (r: seq<Byte>)
    requires pa + |bs| <= |phys|
    ensures |r| == |phys|
    ensures forall x :: 0 <= x < |phys| ==> r[x] == if pa <= x < pa + |bs| then bs[x - pa] else phys[x]
  {
    phys[..pa] + bs + phys[pa + |bs|..]
  }

  /** The page offset of an address `j` bytes past `va` is that of the unwrapped sum. */
  lemma AtOffset(va: Word, j: nat)
    ensures PageOffset(At(va, j)) == (va + j) % PGSIZE
  {
    var c := 0x10_0000_0000_0000;
    assert Two64 == PGSIZE * c;
    MixedRadix(va + j, PGSIZE, c);
    DivModUnique(At(va, j), PGSIZE, (va + j) / PGSIZE % c, (va + j) % PGSIZE);
  }

  /**
   * The bytes `k` .. `m - 1` past `va`, when they lie in the page of byte
   * `k` and that page is mapped, sit at consecutive physical addresses.
   */
  lemma SegmentMapped(pt: PageTable, va: Word, k: nat, m: nat)
    requires k <= m && Translate(pt, At(va, k)).Ok? && PageOffset(At(va, k)) + (m - k) <= PGSIZE
    ensures forall j :: k <= j < m ==>
      && Translate(pt, At(va, j)) == Ok(Translate(pt, At(va, k)).value + (j - k))
      && PageOffset(At(va, j)) == PageOffset(At(va, k)) + (j - k)
  {
    forall j | k <= j < m
      ensures Translate(pt, At(va, j)) == Ok(Translate(pt, At(va, k)).value + (j - k))
      ensures PageOffset(At(va, j)) == PageOffset(At(va, k)) + (j - k)
    {
      TranslateInPage(pt, At(va, k), j - k);
      AtAt(va, k, j - k);
      PageFacts(At(va, k));
      SamePage(At(va, j), At(va, k));
    }
  }

  /**
   * Storing bytes `k` .. `m - 1` of `bs`, which sit at consecutive physical
   * addresses from `pa`, is one `memcpy` into the frames.
   */
  lemma {:induction false} SegmentStore(pt: PageTable, phys: seq<Byte>, va: Word, bs: seq<Byte>, k: nat, m: nat, pa: nat)
    requires TableOk(pt, |phys|) && k <= m <= |bs| && pa + (m - k) <= |phys|
    requires forall j :: k <= j < m ==> Translate(pt, At(va, j)) == Ok(pa + (j - k))
    ensures StoreFrom(pt, phys, va, bs, k) == StoreFrom(pt, Splice(phys, pa, bs[k..m]), va, bs, m)
    decreases m - k
  {
    if k < m {
      var next := phys[pa := bs[k]];
      SegmentStore(pt, next, va, bs, k + 1, m, pa + 1);
      assert Splice(next, pa + 1, bs[k + 1..m]) == Splice(phys, pa, bs[k..m]);
    } else {
      assert Splice(phys, pa, bs[k..m]) == phys;
    }
  }

  /** Loading from `d` bytes past `va` is loading from `va` with the offsets moved by `d`. */
  lemma {:induction false} LoadShift(pt: PageTable, phys: seq<Byte>, va: Word, d: nat, i: nat, n: nat)
    requires TableOk(pt, |phys|) && i <= n
    ensures LoadFrom(pt, phys, At(va, d), i, n) == LoadFrom(pt, phys, va, d + i, d + n)
    decreases n - i
  {
    if i < n {
      AtAt(va, d, i);
      LoadShift(pt, phys, va, d, i + 1, n);
    }
  }

  /** Two loads side by side: the first failure, or the low value below the high one shifted by `width` bits. */
  function Juxtapose(lo: Result<nat>, hi: Result<nat>, width: nat): Result<nat> {
    if lo.Err? then lo else if hi.Err? then hi else Ok(lo.value + Pow2(width) * hi.value)
  }

  /** A byte below a juxtaposed pair is the byte below the low part, juxtaposed with the high part. */
  lemma ConsJuxtapose(b: Result<Byte>, lo: Result<nat>, hi: Result<nat>, w: nat)
    ensures Cons(b, Juxtapose(lo, hi, w)) == Juxtapose(Cons(b, lo), hi, 8 + w)
  {
    if b.Ok? && lo.Ok? && hi.Ok? {
      JuxtaposeStep(b.value, lo.value, hi.value, w);
    }
  }

  /** Digit arithmetic: one more low byte below a juxtaposed pair. */
  lemma JuxtaposeStep(b: nat, lo: nat, hi: nat, w: nat)
    ensures b + 256 * (lo + Pow2(w) * hi) == (b + 256 * lo) + Pow2(8 + w) * hi
  {
    Pow2Add(8, w);
    assert Pow2(8) == 256;
    assert 256 * (Pow2(w) * hi) == (256 * Pow2(w)) * hi;
  }

  /**
   * A load of bytes `i` .. `n - 1` is the load of `i` .. `k - 1` below the
   * load of `k` .. `n - 1`, failing where the first of them fails.
   */
  lemma {:induction false} LoadConcat(pt: PageTable, phys: seq<Byte>, va: Word, i: nat, k: nat, n: nat)
    requires TableOk(pt, |phys|) && i <= k <= n
    ensures LoadFrom(pt, phys, va, i, n) == Juxtapose(LoadFrom(pt, phys, va, i, k), LoadFrom(pt, phys, va, k, n), 8 * (k - i))
    decreases k - i
  {
    if i < k {
      LoadConcat(pt, phys, va, i + 1, k, n);
      ConsJuxtapose(LoadByte(pt, phys, At(va, i)), LoadFrom(pt, phys, va, i + 1, k), LoadFrom(pt, phys, va, k, n), 8 * (k - i - 1));
    } else {
      assert LoadFrom(pt, phys, va, i, k) == Ok(0);
    }
  }

  /** A load that succeeds touched only mapped bytes. */
  lemma LoadMapped(pt: PageTable, phys: seq<Byte>, va: Word, n: nat)
    requires TableOk(pt, |phys|) && LoadFrom(pt, phys, va, 0, n).Ok?
    ensures forall j :: 0 <= j < n ==> PageBase(At(va, j)) in pt
  {
    LoadProbe(pt, phys, va, 0, n);
    ProbeAll(pt, va, 0, n);
  }

  /** The frame that `page_alloc` adds: PGSIZE zero bytes at the end of the frames. */
  function ZeroPage(): (z: seq<Byte>)
    ensures |z| == PGSIZE && forall x :: 0 <= x < PGSIZE ==> z[x] == 0
  {
    seq(PGSIZE, _ => 0)
  }

  /**
   * After `page_alloc`, every byte of the page of `va` reads as zero, every
   * other page reads as before, and the table stays well formed.
   */
  lemma AllocatedPage(pt: PageTable, phys: seq<Byte>, va: Word, x: Word)
    requires TableOk(pt, |phys|) && |phys| % PGSIZE == 0
    ensures TableOk(pt[PageBase(va) := |phys| / PGSIZE], |phys| + PGSIZE)
    ensures PageBase(x) == PageBase(va) ==> LoadByte(pt[PageBase(va) := |phys| / PGSIZE], phys + ZeroPage(), x) == Ok(0)
    ensures PageBase(x) != PageBase(va) ==> LoadByte(pt[PageBase(va) := |phys| / PGSIZE], phys + ZeroPage(), x) == LoadByte(pt, phys, x)
  {
    var f := |phys| / PGSIZE;
    var pt' := pt[PageBase(va) := f];
    PageFacts(va);
    forall p | p in pt
      ensures pt[p] < f
    {
      MulMono(PGSIZE, f, pt[p]);
    }
    TranslateInRange(pt', |phys| + PGSIZE, x);
    if PageBase(x) != PageBase(va) {
      TranslateInRange(pt, |phys|, x);
    } else {
      PageFacts(x);
      assert Translate(pt', x).value == f * PGSIZE + PageOffset(x);
    }
  }

  /** `AllocatedPage` for every address at once. */
  lemma AllocatedPages(pt: PageTable, phys: seq<Byte>, va: Word)
    requires TableOk(pt, |phys|) && |phys| % PGSIZE == 0
    ensures TableOk(pt[PageBase(va) := |phys| / PGSIZE], |phys| + PGSIZE)
    ensures forall x :: PageBase(x) == PageBase(va) ==> LoadByte(pt[PageBase(va) := |phys| / PGSIZE], phys + ZeroPage(), x) == Ok(0)
    ensures forall x :: PageBase(x) != PageBase(va) ==> LoadByte(pt[PageBase(va) := |phys| / PGSIZE], phys + ZeroPage(), x) == LoadByte(pt, phys, x)
  {
    forall x
      ensures PageBase(x) == PageBase(va) ==> LoadByte(pt[PageBase(va) := |phys| / PGSIZE], phys + ZeroPage(), x) == Ok(0)
      ensures PageBase(x) != PageBase(va) ==> LoadByte(pt[PageBase(va) := |phys| / PGSIZE], phys + ZeroPage(), x) == LoadByte(pt, phys, x)
    {
      AllocatedPage(pt, phys, va, x);
    }
    AllocatedPage(pt, phys, va, va);
  }

  /** The configured caches as entry points of the hierarchy. */
  function Levels(caches: seq<Cache>): (es: seq<Storage>)
    ensures |es| == |caches| && forall i :: 0 <= i < |caches| ==> es[i] == Level(caches[i])
  {
    if caches == [] then [] else [Level(caches[0])] + Levels(caches[1..])
  }

  /** The objects of one entry point: its top cache and everything below it. */
  ghost function Objects(st: Storage): set<object> {
    if st.Level? then {st.cache} + st.cache.Repr else {}
  }

  /**
   * The shape of a configured hierarchy whose objects are `hier`: any two
   * entry points overlap only as a chain overlaps its lower part. It
   * depends on no mutable state.
   */
  ghost predicate Layout(es: seq<Storage>, hier: set<object>) {
    && (forall i :: 0 <= i < |es| ==> Objects(es[i]) <= hier)
    && (forall i, j :: 0 <= i < |es| && 0 <= j < |es| ==> Sharing(es[i], es[j]))
  }

  /** A configured hierarchy laid out as `Layout` says, with every entry point valid. */
  ghost predicate Hierarchy(es: seq<Storage>, hier: set<object>)
    reads hier
  {
    && Layout(es, hier)
    && (forall i :: 0 <= i < |es| ==> StorageValid(es[i]))
  }

  /**
   * An access through the entry point `st` that keeps it valid and changes
   * nothing of the hierarchy outside its levels keeps the hierarchy valid.
   * (The hierarchy, its objects and the entry point travel as one triple.)
   */
  twostate lemma HierarchyKept(h: (seq<Storage>, set<object>, Storage))
    requires old(Hierarchy(h.0, h.1)) && h.2 in h.0 && StorageValid(h.2)
    requires unchanged(h.1 - StorageRepr(h.2))
    ensures Hierarchy(h.0, h.1)
  {
    var (es, hier, st) := h;
    forall i | 0 <= i < |es|
      ensures StorageValid(es[i])
    {
      assert old(StorageValid(es[i]));
      StillValid((st, es[i]));
    }
  }

  /**
   * The smallest line size of the configured caches, starting from PGSIZE
   * (the loop of the `MemorySystem` constructor).
   */
  method MinLineSize(caches: seq<Cache>) returns (m: nat)
    ensures IsPow2(m) && m <= PGSIZE
    ensures forall c :: c in caches ==> m <= c.LineSize()
    ensures m == PGSIZE || exists c :: c in caches && m == c.LineSize()
  {
    m := PGSIZE;
    assert Pow2(12) == PGSIZE by {
      Pow2Add(8, 4);
      Pow2Byte();
    }
    Pow2IsPow2(12);
    var i := 0;
    while i < |caches|
      invariant 0 <= i <= |caches| && m <= PGSIZE && IsPow2(m)
      invariant forall j :: 0 <= j < i ==> m <= caches[j].LineSize()
      invariant m == PGSIZE || exists j :: 0 <= j < i && m == caches[j].LineSize()
    {
      if caches[i].LineSize() < m {
        m := caches[i].LineSize();
        Pow2IsPow2(caches[i].b);
      }
      i := i + 1;
    }
  }

  /**
   * The byte-at-a-time read of `read_data` for an access that runs past
   * the end of its page: byte `i` is or-ed in at bit `8 * i`, and the first
   * unmapped byte is a fault.
   */
  method LoadBytewise(pt: PageTable, phys: seq<Byte>, ptr: Word, bytes: nat) returns (r: Result<nat>)
    requires TableOk(pt, |phys|)
    ensures r == LoadFrom(pt, phys, ptr, 0, bytes)
  {
    var reg: nat := 0;
    var i := 0;
    while i < bytes
      invariant 0 <= i <= bytes
      invariant LoadFrom(pt, phys, ptr, 0, i) == Ok(reg)
    {
      var t := Translate(pt, At(ptr, i));
      if t.Err? {
        LoadConcat(pt, phys, ptr, 0, i, bytes);
        return Err(t.fault);
      }
      TranslateInRange(pt, |phys|, At(ptr, i));
      var b := phys[t.value];
      assert LoadFrom(pt, phys, ptr, i, i + 1) == Ok(b);
      LoadConcat(pt, phys, ptr, 0, i, i + 1);
      reg := reg + Pow2(8 * i) * b;
      i := i + 1;
    }
    r := Ok(reg);
  }

  /** The single read of `read_data` for an access inside one page. */
  method LoadInPage(pt: PageTable, phys: seq<Byte>, ptr: Word, bytes: nat) returns (r: Result<nat>)
    requires TableOk(pt, |phys|) && PageOffset(ptr) + bytes <= PGSIZE
    ensures r == LoadFrom(pt, phys, ptr, 0, bytes)
    ensures r.Ok? <==> bytes == 0 || PageBase(ptr) in pt
  {
    var t := Translate(pt, ptr);
    if t.Err? {
      if bytes > 0 {
        AtInRange(ptr, 0);
        assert LoadByte(pt, phys, At(ptr, 0)).Err?;
      }
      return if bytes == 0 then Ok(0) else Err(t.fault);
    }
    InPageLoad(pt, phys, ptr, bytes);
    r := Ok(LittleEndian(phys[t.value .. t.value + bytes]));
  }

  /**
   * The byte-at-a-time write of `write_data` for an access that runs past
   * the end of its page: byte `i` is `(v >> (8 * i)) & 0xFF`; the write
   * stops at the first unmapped byte with the earlier bytes written.
   */
  method StoreBytewise(pt: PageTable, phys: seq<Byte>, ptr: Word, v: Word, bytes: nat) returns (r: Result<()>, after: seq<Byte>)
    requires TableOk(pt, |phys|)
    ensures after == StoreFrom(pt, phys, ptr, LeBytes(v, bytes), 0)
    ensures r == Probe(pt, ptr, 0, bytes)
  {
    ghost var bs := LeBytes(v, bytes);
    after := phys;
    var i := 0;
    while i < bytes
      invariant 0 <= i <= bytes && |after| == |phys|
      invariant StoreFrom(pt, phys, ptr, bs, 0) == StoreFrom(pt, after, ptr, bs, i)
      invariant Probe(pt, ptr, 0, bytes) == Probe(pt, ptr, i, bytes)
    {
      var t := Translate(pt, At(ptr, i));
      if t.Err? {
        return Err(t.fault), after;
      }
      TranslateInRange(pt, |phys|, At(ptr, i));
      LeBytesIndex(v, bytes, i);
      after := after[t.value := (v / Pow2(8 * i)) % 256];
      i := i + 1;
    }
    r := Ok(());
  }

  /** The single typed store of `write_data` for an access inside one page: one copy into the frame. */
  method StoreInPage(pt: PageTable, phys: seq<Byte>, ptr: Word, v: Word, bytes: nat) returns (r: Result<()>, after: seq<Byte>)
    requires TableOk(pt, |phys|) && PageOffset(ptr) + bytes <= PGSIZE
    ensures after == StoreFrom(pt, phys, ptr, LeBytes(v, bytes), 0)
    ensures r == Probe(pt, ptr, 0, bytes)
  {
    var bs := LeBytes(v, bytes);
    var t := Translate(pt, ptr);
    if t.Err? || bytes == 0 {
      AtInRange(ptr, 0);
      return if bytes == 0 then Ok(()) else Err(t.fault), phys;
    }
    InPageStore(pt, phys, ptr, bs);
    InPageMapped(pt, ptr, bytes);
    UnitResult(Probe(pt, ptr, 0, bytes));
    after := Splice(phys, t.value, bs);
    r := Ok(());
  }

  /** A load of `n` bytes is the load of the first `k` below the load of the rest from `k` bytes on. */
  lemma LoadSplit(pt: PageTable, phys: seq<Byte>, ptr: Word, k: nat, n: nat)
    requires TableOk(pt, |phys|) && k <= n
    ensures LoadFrom(pt, phys, ptr, 0, n) == Juxtapose(LoadFrom(pt, phys, ptr, 0, k), LoadFrom(pt, phys, At(ptr, k), 0, n - k), 8 * k)
  {
    LoadShift(pt, phys, ptr, k, 0, n - k);
    LoadConcat(pt, phys, ptr, 0, k, n);
  }

  /** Two halfwords side by side: `lo | hi << 16`. */
  lemma HalfwordsJuxtaposed(lo: nat, hi: nat)
    ensures Juxtapose(Ok(lo), Ok(hi), 16) == Ok(lo + 65536 * hi)
  {
    Pow2Add(8, 8);
    assert Pow2(8) == 256;
  }

  /**
   * The four bytes at page offset 0xFFE: the mapped low halfword, then the
   * high halfword from the next page, shifted by 16 bits unless it fails.
   */
  lemma HalvesJoined(pt: PageTable, phys: seq<Byte>, ptr: Word)
    requires TableOk(pt, |phys|) && PageOffset(ptr) == 0xFFE && Translate(pt, ptr).Ok?
    ensures LoadFrom(pt, phys, ptr, 0, 2).Ok?
    ensures LoadFrom(pt, phys, At(ptr, 2), 0, 2).Err? ==>
      LoadFrom(pt, phys, ptr, 0, 4) == LoadFrom(pt, phys, At(ptr, 2), 0, 2)
    ensures LoadFrom(pt, phys, At(ptr, 2), 0, 2).Ok? ==>
      LoadFrom(pt, phys, ptr, 0, 4).Ok? &&
      LoadFrom(pt, phys, ptr, 0, 4).value == LoadFrom(pt, phys, ptr, 0, 2).value + 65536 * LoadFrom(pt, phys, At(ptr, 2), 0, 2).value
  {
    var lo, hi := LoadFrom(pt, phys, ptr, 0, 2), LoadFrom(pt, phys, At(ptr, 2), 0, 2);
    InPageLoad(pt, phys, ptr, 2);
    LoadSplit(pt, phys, ptr, 2, 4);
    if hi.Ok? {
      HalfwordsJuxtaposed(lo.value, hi.value);
    }
  }

  /** Two bytes past page offset 0xFFE is the start of the next page. */
  lemma EndOfPage(ptr: Word)
    requires PageOffset(ptr) == 0xFFE
    ensures PageOffset(At(ptr, 2)) == 0
  {
    AtOffset(ptr, 2);
    PageFacts(ptr);
    DivModUnique(ptr + 2, PGSIZE, PageBase(ptr) / PGSIZE + 1, 0);
  }

  /**
   * The fetch of `read_inst` at page offset 0xFFE: the low halfword from
   * the end of this page, the high one from the start of the next.
   */
  method LoadHalves(pt: PageTable, phys: seq<Byte>, ptr: Word) returns (r: Result<nat>)
    requires TableOk(pt, |phys|) && PageOffset(ptr) == 0xFFE && Translate(pt, ptr).Ok?
    ensures r == LoadFrom(pt, phys, ptr, 0, 4)
  {
    var lo := LoadInPage(pt, phys, ptr, 2);
    EndOfPage(ptr);
    var hi := LoadInPage(pt, phys, At(ptr, 2), 2);
    HalvesJoined(pt, phys, ptr);
    if hi.Err? {
      return hi;
    }
    r := Ok(lo.value + 65536 * hi.value);
  }

  /**
   * Bytes `k` .. `m - 1` past `va` that lie in the mapped page of byte `k`
   * are stored by one copy into its frame, and probing skips them.
   */
  lemma PageSegment(pt: PageTable, phys: seq<Byte>, va: Word, bs: seq<Byte>, k: nat, m: nat)
    requires TableOk(pt, |phys|) && k < m <= |bs|
    requires Translate(pt, At(va, k)).Ok? && PageOffset(At(va, k)) + (m - k) <= PGSIZE
    ensures Translate(pt, At(va, k)).value + (m - k) <= |phys|
    ensures StoreFrom(pt, phys, va, bs, k) == StoreFrom(pt, Splice(phys, Translate(pt, At(va, k)).value, bs[k..m]), va, bs, m)
    ensures Probe(pt, va, k, |bs|) == Probe(pt, va, m, |bs|)
  {
    SegmentMapped(pt, va, k, m);
    TranslateInRange(pt, |phys|, At(va, m - 1));
    SegmentStore(pt, phys, va, bs, k, m, Translate(pt, At(va, k)).value);
    ProbeSkip(pt, va, k, m, |bs|);
  }

  /**
   * The copy loop of `write_str`: page by page, each segment running to
   * the end of the string or of its page, and stopping at the first
   * unmapped page with the earlier segments written. When `va + |s|`
   * passes the top of the address space, the 64-bit end lies below `va`
   * and nothing is written.
   */
  method CopyString(pt: PageTable, phys: seq<Byte>, va: Word, s: seq<Byte>) returns (r: Result<()>, after: seq<Byte>)
    requires TableOk(pt, |phys|)
    ensures va + |s| < Two64 ==> after == StoreFrom(pt, phys, va, s, 0) && r == Probe(pt, va, 0, |s|)
    ensures va + |s| >= Two64 ==> after == phys && r == Ok(())
  {
    after := phys;
    if va + |s| >= Two64 {
      return Ok(()), after;
    }
    var k := 0;
    while k < |s|
      invariant 0 <= k <= |s| && |after| == |phys|
      invariant StoreFrom(pt, phys, va, s, 0) == StoreFrom(pt, after, va, s, k)
      invariant Probe(pt, va, 0, |s|) == Probe(pt, va, k, |s|)
    {
      var cur := va + k;
      AtInRange(va, k);
      var t := Translate(pt, cur);
      if t.Err? {
        return Err(t.fault), after;
      }
      PageFacts(cur);
      var m := if |s| - k < PGSIZE - PageOffset(cur) then |s| else k + (PGSIZE - PageOffset(cur));
      PageSegment(pt, after, va, s, k, m);
      after := Splice(after, t.value, s[k..m]);
      k := m;
    }
    UnitResult(Probe(pt, va, 0, |s|));
    r := Ok(());
  }

  /** Every byte of an unchanged page reads as before when frames are only appended. */
  lemma KeptPage(pt: PageTable, phys: seq<Byte>, pt': PageTable, phys': seq<Byte>, x: Word)
    requires TableOk(pt, |phys|) && TableOk(pt', |phys'|)
    requires |phys| <= |phys'| && phys'[..|phys|] == phys
    requires PageBase(x) in pt && PageBase(x) in pt' && pt'[PageBase(x)] == pt[PageBase(x)]
    ensures LoadByte(pt', phys', x) == LoadByte(pt, phys, x)
  {
    TranslateInRange(pt, |phys|, x);
    assert phys'[Translate(pt, x).value] == phys[Translate(pt, x).value];
  }

  /**
   * What `read_inst` yields at `ptr`: the four bytes there, little-endian,
   * except at page offsets 0xFFD and 0xFFF of a mapped page, where the
   * source reads past the end of the host frame.
   */
  function FetchAt(pt: PageTable, phys: seq<Byte>, ptr: Word): (r: Result<nat>)
    requires TableOk(pt, |phys|)
    ensures r.Ok? ==> r == LoadFrom(pt, phys, ptr, 0, 4) && r.value < 0x1_0000_0000
  {
    LoadFits(pt, phys, ptr, 4);
    if PageBase(ptr) in pt && PageOffset(ptr) in {0xFFD, 0xFFF} then Err(UndefinedAccess(ptr))
    else LoadFrom(pt, phys, ptr, 0, 4)
  }

  /** A load of `n - i` bytes is below 2^(8(n - i)). */
  lemma {:induction false} LoadFromBound(pt: PageTable, phys: seq<Byte>, va: Word, i: nat, n: nat)
    requires TableOk(pt, |phys|) && i <= n
    ensures LoadFrom(pt, phys, va, i, n).Ok? ==> LoadFrom(pt, phys, va, i, n).value < Pow2(8 * (n - i))
    decreases n - i
  {
    if i < n && LoadFrom(pt, phys, va, i, n).Ok? {
      LoadFromBound(pt, phys, va, i + 1, n);
      var b := LoadByte(pt, phys, At(va, i)).value;
      var rest := LoadFrom(pt, phys, va, i + 1, n).value;
      assert LoadFrom(pt, phys, va, i, n).value == b + 256 * rest;
      DigitBound(b, rest, 8 * (n - i - 1));
    }
  }

  /** A low byte below a number under 2^w gives a number under 2^(8 + w). */
  lemma DigitBound(b: Byte, rest: nat, w: nat)
    requires rest < Pow2(w)
    ensures b + 256 * rest < Pow2(8 + w)
  {
    Pow2Add(8, w);
    Pow2Byte();
    MulMono(256, rest, Pow2(w) - 1);
  }

  /**
   * A load of at most eight bytes is a 64-bit value, and a load of four
   * bytes a 32-bit one.
   */
  lemma LoadFits(pt: PageTable, phys: seq<Byte>, va: Word, n: nat)
    requires TableOk(pt, |phys|) && n <= 8
    ensures LoadFrom(pt, phys, va, 0, n).Ok? ==> LoadFrom(pt, phys, va, 0, n).value < Two64
    ensures n == 4 && LoadFrom(pt, phys, va, 0, n).Ok? ==> LoadFrom(pt, phys, va, 0, n).value < 0x1_0000_0000
  {
    LoadFromBound(pt, phys, va, 0, n);
    Pow2AtMostTwo64(8 * n);
    if n == 4 {
      Pow2Wide();
    }
  }

  /** The counters of a cache are zero and none of its lines is valid. */
  ghost predicate Cleared(c: Cache)
    reads c, c.lines
  {
    && c.hitNum == 0 && c.missNum == 0
    && forall i, j :: 0 <= i < c.lines.Length0 && 0 <= j < c.lines.Length1 ==> !c.lines[i, j].valid
  }

  /**
   * What `invalidate` keeps of a cache across the two states: its clock,
   * and every line's tag, timestamp and dirty bit, only the valid bit
   * cleared. These still decide the victim once the set refills.
   */
  twostate predicate KeptButInvalid(c: Cache)
    reads c, c.lines
  {
    && c.time == old(c.time)
    && forall i, j :: 0 <= i < c.lines.Length0 && 0 <= j < c.lines.Length1 ==>
         c.lines[i, j] == old(c.lines[i, j]).(valid := false)
  }

  /**
   * The data path of `read_data`: an access that runs past the end of its
   * page is read a byte at a time, any other one at once from the frame.
   * A load that succeeds found its first and last byte mapped.
   */
  method LoadData(pt: PageTable, phys: seq<Byte>, ptr: Word, bytes: nat) returns (r: Result<nat>)
    requires TableOk(pt, |phys|) && 1 <= bytes <= PGSIZE
    ensures r == LoadFrom(pt, phys, ptr, 0, bytes)
    ensures r.Ok? ==> PageBase(ptr) in pt && PageBase(At(ptr, bytes - 1)) in pt
  {
    if PageOffset(ptr) > PGSIZE - bytes {
      r := LoadBytewise(pt, phys, ptr, bytes);
    } else {
      r := LoadInPage(pt, phys, ptr, bytes);
    }
    if r.Ok? {
      LoadMapped(pt, phys, ptr, bytes);
      AtInRange(ptr, 0);
    }
  }

  /**
   * The data path of `write_data`: an access that runs past the end of
   * its page is written a byte at a time, any other one is one copy into
   * the frame. A store that succeeds found its first and last byte mapped.
   */
  method StoreData(pt: PageTable, phys: seq<Byte>, ptr: Word, v: Word, bytes: nat) returns (r: Result<()>, after: seq<Byte>)
    requires TableOk(pt, |phys|) && 1 <= bytes <= PGSIZE
    ensures after == StoreFrom(pt, phys, ptr, LeBytes(v, bytes), 0)
    ensures r == Probe(pt, ptr, 0, bytes)
    ensures r.Ok? ==> PageBase(ptr) in pt && PageBase(At(ptr, bytes - 1)) in pt
  {
    if PageOffset(ptr) > PGSIZE - bytes {
      r, after := StoreBytewise(pt, phys, ptr, v, bytes);
    } else {
      r, after := StoreInPage(pt, phys, ptr, v, bytes);
    }
    if r.Ok? {
      ProbeAll(pt, ptr, 0, bytes);
      AtInRange(ptr, 0);
    }
  }

  /**
   * `write_data` for a width its `switch` has no case for: 16 to 128
   * bytes, asked for by a store whose funct3 is 4 to 7. Inside a page the
   * `switch` writes nothing, so only the translation of `ptr` can fail.
   * Across a page end the byte loop writes bytes 0 to 7 and then shifts
   * the 64-bit value by 64 bits or more, which is undefined; an unmapped
   * byte among the first eight faults before that.
   */
  function WideStore(pt: PageTable, ptr: Word, bytes: nat): (r: Result<()>)
    requires 8 <= bytes <= PGSIZE
    ensures PageOffset(ptr) + bytes <= PGSIZE ==> (r.Ok? <==> PageBase(ptr) in pt)
    ensures PageOffset(ptr) + bytes <= PGSIZE && r.Err? ==> r.fault == UnmappedAddress(ptr)
    ensures PageOffset(ptr) + bytes > PGSIZE ==> r.Err?
  {
    if PageOffset(ptr) > PGSIZE - bytes then
      match Probe(pt, ptr, 0, 8)
      case Err(f) => Err(f)
      case Ok(_) => Err(UndefinedAccess(ptr))
    else if PageBase(ptr) in pt then Ok(())
    else Err(UnmappedAddress(ptr))
  }

  /** The frames after `WideStore`: changed only by the eight bytes written across a page end. */
  function WidePhys(pt: PageTable, phys: seq<Byte>, ptr: Word, v: Word, bytes: nat): (r: seq<Byte>)
    requires TableOk(pt, |phys|) && 8 <= bytes <= PGSIZE
    ensures |r| == |phys|
    ensures PageOffset(ptr) + bytes <= PGSIZE ==> r == phys
  {
    if PageOffset(ptr) > PGSIZE - bytes then StoreFrom(pt, phys, ptr, LeBytes(v, 8), 0) else phys
  }

  /**
   * The part of `write_data` for 16 to 128 bytes: past the page end the
   * byte loop writes the eight bytes a 64-bit value has before its shift
   * becomes undefined; within a page one translation, and no write.
   */
  method StoreWide(pt: PageTable, phys: seq<Byte>, ptr: Word, v: Word, bytes: nat) returns (r: Result<()>, after: seq<Byte>)
    requires TableOk(pt, |phys|) && 8 <= bytes <= PGSIZE
    ensures after == WidePhys(pt, phys, ptr, v, bytes)
    ensures r == WideStore(pt, ptr, bytes)
    ensures r.Ok? ==> PageBase(ptr) in pt && PageBase(At(ptr, bytes - 1)) in pt
  {
    if PageOffset(ptr) > PGSIZE - bytes {
      r, after := StoreBytewise(pt, phys, ptr, v, 8);
      if r.Ok? {
        r := Err(UndefinedAccess(ptr));
      }
    } else {
      after := phys;
      if PageBase(ptr) !in pt {
        r := Err(UnmappedAddress(ptr));
      } else {
        r := Ok(());
        TranslateInPage(pt, ptr, bytes - 1);
      }
    }
  }

  /**
   * What `sbrk(size)` from heap pointer `hp` does to the page table and
   * the frames: the frames only grow and every old page keeps its frame;
   * when [hp, hp + size) does not wrap, every page of it is mapped; pages
   * are added only in that range, and they read zero.
   */
  predicate HeapGrown(pt0: PageTable, phys0: seq<Byte>, hp: Word, size: Word, pt: PageTable, phys: seq<Byte>)
    requires TableOk(pt, |phys|)
  {
    && |phys| >= |phys0| && phys[..|phys0|] == phys0
    && (forall p :: p in pt0 ==> p in pt && pt[p] == pt0[p])
    && (hp + size < Two64 ==> forall a: Word :: hp <= a < hp + size ==> PageBase(a) in pt)
    && (forall p :: p in pt && p !in pt0 ==> PageBase(hp) <= p < hp + size)
    && (forall x :: PageBase(x) in pt && PageBase(x) !in pt0 ==> LoadByte(pt, phys, x) == Ok(0))
  }

  /** `class MemorySystem`. */
  class MemorySystem {
    var pageTable: PageTable
    /** The frames, back to back. */
    var phys: seq<Byte>
    var heapPointer: Word
    /** The configured caches, which `reset` invalidates. */
    const caches: seq<Cache>
    const instEntry: Storage
    const dataEntry: Storage
    /** The smallest line size, at most PGSIZE. */
    const minLineSize: nat
    var totalCycles: nat
    var accessNum: nat
    /** The two entry points, then every cache. */
    ghost const Entries: seq<Storage>
    /** Every object of the cache hierarchy. */
    ghost const Hier: set<object>

    /** What the constructor fixes: the line size, the entry points, the layout of the caches. */
    ghost predicate Wiring() {
      && this !in Hier
      && IsPow2(minLineSize) && minLineSize <= PGSIZE
      && Entries == [instEntry, dataEntry] + Levels(caches)
      && Layout(Entries, Hier)
      && (forall i, j :: 0 <= i < j < |caches| ==> caches[i] != caches[j] && caches[i].lines != caches[j].lines)
    }

    ghost predicate Valid()
      reads this, Hier
    {
      && TableOk(pageTable, |phys|) && |phys| % PGSIZE == 0
      && Wiring()
      && Hierarchy(Entries, Hier)
    }

    /**
     * The constructor, given the caches and the two entry points that the
     * source reads from its configuration. The smallest line size starts
     * at PGSIZE and shrinks to each cache's line size. The page table
     * starts empty.
     */
    constructor (caches: seq<Cache>, instEntry: Storage, dataEntry: Storage, ghost hier: set<object>)
      requires Hierarchy([instEntry, dataEntry] + Levels(caches), hier)
      requires forall i, j :: 0 <= i < j < |caches| ==> caches[i] != caches[j] && caches[i].lines != caches[j].lines
      ensures Valid()
      ensures this.caches == caches && this.instEntry == instEntry && this.dataEntry == dataEntry
      ensures minLineSize <= PGSIZE && forall c :: c in caches ==> minLineSize <= c.LineSize()
      ensures minLineSize == PGSIZE || exists c :: c in caches && minLineSize == c.LineSize()
      ensures pageTable == map[] && phys == [] && heapPointer == HEAP_START && totalCycles == 0 && accessNum == 0
    {
      var m := MinLineSize(caches);
      this.caches, this.instEntry, this.dataEntry, minLineSize := caches, instEntry, dataEntry, m;
      pageTable, phys, heapPointer := map[], [], HEAP_START;
      totalCycles, accessNum := 0, 0;
      Entries := [instEntry, dataEntry] + Levels(caches);
      Hier := hier;
    }

    /** One access through an entry point of the hierarchy; every level stays valid. */
    method Access(st: Storage, pa: nat, write: bool) returns (cycles: nat)
      requires Valid() && st in Entries
      modifies Hier
      ensures Valid()
      ensures st.MainMemory? ==> cycles == st.cycles
    {
      if write {
        cycles := WriteStorage(st, pa);
      } else {
        cycles := ReadStorage(st, pa);
      }
      HierarchyKept((Entries, Hier, st));
    }
  
    /**
     * The cycle count of one access of `bytes` bytes at `ptr`: the entry
     * is charged for the line of `ptr` and, when the access runs past the
     * end of a line of the smallest line size, once more for the line of
     * the byte `far` bytes further on. Both totals are updated.
     */
    method Charge(st: Storage, ptr: Word, bytes: nat, far: nat, write: bool) returns (cycles: nat)
      requires Valid() && st in Entries
      requires PageBase(ptr) in pageTable && PageBase(At(ptr, far)) in pageTable
      modifies this, Hier
      ensures Valid()
      ensures pageTable == old(pageTable) && phys == old(phys) && heapPointer == old(heapPointer)
      ensures totalCycles == old(totalCycles) + cycles && accessNum == old(accessNum) + 1
      ensures st.MainMemory? ==> cycles == (if LineStraddles(ptr, minLineSize, bytes) then 2 else 1) * st.cycles
    {
      cycles := Access(st, Translate(pageTable, ptr).value, write);
      if LineStraddles(ptr, minLineSize, bytes) {
        var more := Access(st, Translate(pageTable, At(ptr, far)).value, write);
        cycles := cycles + more;
      }
      totalCycles := totalCycles + cycles;
      accessNum := accessNum + 1;
    }

    /**
     * `read_data`: the `bytes`-byte little-endian value at `ptr`. An access
     * that runs past the end of its page is read a byte at a time, any
     * other one at once from the frame. An unmapped byte is a fault and
     * nothing is counted; otherwise the data entry is charged.
     */
    method ReadData(ptr: Word, bytes: nat) returns (r: Result<nat>, cycles: nat)
      requires Valid() && bytes in {1, 2, 4, 8}
      modifies this, Hier
      ensures Valid()
      ensures pageTable == old(pageTable) && phys == old(phys) && heapPointer == old(heapPointer)
      ensures r == LoadFrom(pageTable, phys, ptr, 0, bytes)
      ensures r.Err? ==> cycles == 0 && totalCycles == old(totalCycles) && accessNum == old(accessNum)
      ensures r.Ok? ==> totalCycles == old(totalCycles) + cycles && accessNum == old(accessNum) + 1
      ensures r.Ok? && dataEntry.MainMemory? ==>
        cycles == (if LineStraddles(ptr, minLineSize, bytes) then 2 else 1) * dataEntry.cycles
    {
      r := LoadData(pageTable, phys, ptr, bytes);
      if r.Err? {
        return r, 0;
      }
      assert Entries[1] == dataEntry;
      cycles := Charge(dataEntry, ptr, bytes, bytes - 1, false);
    }

    /**
     * `write_data`: stores the `bytes` low bytes of `v` at `ptr`,
     * little-endian. An access that runs past the end of its page is
     * written a byte at a time and stops at the first unmapped byte, the
     * earlier bytes already written; any other one is one copy into the
     * frame. Wider accesses behave as `WideStore` says. A fault counts
     * nothing; otherwise the data entry is charged.
     */
    method WriteData(ptr: Word, v: Word, bytes: nat) returns (r: Result<()>, cycles: nat)
      requires Valid() && bytes in {1, 2, 4, 8, 16, 32, 64, 128}
      modifies this, Hier
      ensures Valid()
      ensures pageTable == old(pageTable) && heapPointer == old(heapPointer)
      ensures bytes <= 8 ==> phys == StoreFrom(pageTable, old(phys), ptr, LeBytes(v, bytes), 0)
      ensures bytes <= 8 ==> r == Probe(pageTable, ptr, 0, bytes)
      ensures bytes > 8 ==> phys == WidePhys(pageTable, old(phys), ptr, v, bytes)
      ensures bytes > 8 ==> r == WideStore(pageTable, ptr, bytes)
      ensures r.Err? ==> cycles == 0 && totalCycles == old(totalCycles) && accessNum == old(accessNum)
      ensures r.Ok? ==> totalCycles == old(totalCycles) + cycles && accessNum == old(accessNum) + 1
      ensures r.Ok? && dataEntry.MainMemory? ==>
        cycles == (if LineStraddles(ptr, minLineSize, bytes) then 2 else 1) * dataEntry.cycles
    {
      var after;
      if bytes <= 8 {
        r, after := StoreData(pageTable, phys, ptr, v, bytes);
      } else {
        r, after := StoreWide(pageTable, phys, ptr, v, bytes);
      }
      phys := after;
      if r.Err? {
        return r, 0;
      }
      assert Entries[1] == dataEntry;
      cycles := Charge(dataEntry, ptr, bytes, bytes - 1, true);
    }
  
    /**
     * `read_inst`: the four bytes at `ptr`, little-endian. At page offset
     * 0xFFE the two halfwords come from the two pages; at offsets 0xFFD and
     * 0xFFF of a mapped page the source reads four bytes across the end of
     * the frame, outside the simulated memory, which is an undefined
     * access here. A fault counts nothing; otherwise the instruction
     * entry is charged, a second time for the line of `ptr + 2` when the
     * fetch runs past the end of a line of the smallest line size.
     */
    method ReadInst(ptr: Word) returns (r: Result<nat>, cycles: nat)
      requires Valid()
      modifies this, Hier
      ensures Valid()
      ensures pageTable == old(pageTable) && phys == old(phys) && heapPointer == old(heapPointer)
      ensures r == FetchAt(pageTable, phys, ptr)
      ensures r.Err? ==> cycles == 0 && totalCycles == old(totalCycles) && accessNum == old(accessNum)
      ensures r.Ok? ==> totalCycles == old(totalCycles) + cycles && accessNum == old(accessNum) + 1
      ensures r.Ok? && instEntry.MainMemory? ==>
        cycles == (if LineStraddles(ptr, minLineSize, 4) then 2 else 1) * instEntry.cycles
    {
      var t := Translate(pageTable, ptr);
      if t.Err? {
        AtInRange(ptr, 0);
        return Err(t.fault), 0;
      }
      var off := PageOffset(ptr);
      if off == 0xFFE {
        r := LoadHalves(pageTable, phys, ptr);
      } else if off == 0xFFD || off == 0xFFF {
        return Err(UndefinedAccess(ptr)), 0;
      } else {
        r := LoadInPage(pageTable, phys, ptr, 4);
      }
      if r.Err? {
        return r, 0;
      }
      LoadMapped(pageTable, phys, ptr, 4);
      assert PageBase(At(ptr, 0)) in pageTable && PageBase(At(ptr, 2)) in pageTable;
      assert Entries[0] == instEntry;
      cycles := Charge(instEntry, ptr, 4, 2, false);
    }

    /**
     * `write_str`: copies the bytes of `s` (the string without its
     * terminator) to `va`, page by page, stopping at the first unmapped
     * page; nothing when `va + |s|` passes the top of the address space.
     */
    method WriteStr(va: Word, s: seq<Byte>) returns (r: Result<()>)
      requires Valid()
      modifies this
      ensures Valid()
      ensures pageTable == old(pageTable) && heapPointer == old(heapPointer)
      ensures totalCycles == old(totalCycles) && accessNum == old(accessNum)
      ensures va + |s| < Two64 ==> phys == StoreFrom(pageTable, old(phys), va, s, 0) && r == Probe(pageTable, va, 0, |s|)
      ensures va + |s| >= Two64 ==> phys == old(phys) && r == Ok(())
    {
      var after;
      r, after := CopyString(pageTable, phys, va, s);
      phys := after;
    }

    /**
     * `page_alloc`: maps the page of `va` to a new zero-filled frame,
     * replacing any earlier mapping of that page, and returns the frame.
     */
    method PageAlloc(va: Word) returns (frame: nat)
      requires Valid()
      modifies this
      ensures Valid()
      ensures frame == old(|phys|) / PGSIZE
      ensures pageTable == old(pageTable)[PageBase(va) := frame] && phys == old(phys) + ZeroPage()
      ensures heapPointer == old(heapPointer) && totalCycles == old(totalCycles) && accessNum == old(accessNum)
      ensures forall x :: PageBase(x) == PageBase(va) ==> LoadByte(pageTable, phys, x) == Ok(0)
      ensures forall x :: PageBase(x) != PageBase(va) ==> LoadByte(pageTable, phys, x) == old(LoadByte(pageTable, phys, x))
    {
      AllocatedPages(pageTable, phys, va);
      frame := |phys| / PGSIZE;
      pageTable, phys := pageTable[PageBase(va) := frame], phys + ZeroPage();
    }

    /**
     * `sbrk`: moves the heap pointer `size` bytes up (with 64-bit
     * wrap-around) and returns where it was, mapping every page of the
     * new range that is not mapped yet to a new zero-filled frame.
     */
    method Sbrk(size: Word) returns (oldHp: Word)
      requires Valid()
      modifies this
      ensures Valid()
      ensures oldHp == old(heapPointer) && heapPointer == Wrap(old(heapPointer) + size)
      ensures totalCycles == old(totalCycles) && accessNum == old(accessNum)
      ensures HeapGrown(old(pageTable), old(phys), old(heapPointer), size, pageTable, phys)
    {
      oldHp := heapPointer;
      var end := heapPointer + size;
      if end < Two64 {
        MapRange(heapPointer, end);
      }
      heapPointer := Wrap(end);
    }

    /**
     * The loop of `sbrk`: walks page by page from `lo` to `end`, giving
     * every unmapped page a new zero-filled frame.
     */
    method MapRange(lo: Word, end: nat)
      requires Valid() && lo <= end < Two64
      modifies this
      ensures Valid()
      ensures heapPointer == old(heapPointer) && totalCycles == old(totalCycles) && accessNum == old(accessNum)
      ensures |phys| >= old(|phys|) && phys[..old(|phys|)] == old(phys)
      ensures forall p :: p in old(pageTable) ==> p in pageTable && pageTable[p] == old(pageTable)[p]
      ensures forall a: Word :: lo <= a < end ==> PageBase(a) in pageTable
      ensures forall p :: p in pageTable && p !in old(pageTable) ==> PageBase(lo) <= p < end
      ensures forall x :: PageBase(x) in pageTable && PageBase(x) !in old(pageTable) ==> LoadByte(pageTable, phys, x) == Ok(0)
    {
      var hp: int := lo;
      while hp < end
        invariant lo <= hp <= Two64
        invariant Valid()
        invariant heapPointer == old(heapPointer) && totalCycles == old(totalCycles) && accessNum == old(accessNum)
        invariant |phys| >= old(|phys|) && phys[..old(|phys|)] == old(phys)
        invariant forall p :: p in old(pageTable) ==> p in pageTable && pageTable[p] == old(pageTable)[p]
        invariant forall a: Word :: lo <= a < hp && a < end ==> PageBase(a) in pageTable
        invariant forall p :: p in pageTable && p !in old(pageTable) ==> PageBase(lo) <= p < end
        invariant forall x :: PageBase(x) in pageTable && PageBase(x) !in old(pageTable) ==> LoadByte(pageTable, phys, x) == Ok(0)
        decreases end - hp
      {
        PageFacts(hp);
        PageMonotone(lo, hp);
        if PageBase(hp) !in pageTable {
          var _ := PageAlloc(hp);
        }
        forall a: Word | hp <= a < PageBase(hp) + PGSIZE
          ensures PageBase(a) == PageBase(hp)
        {
          SamePage(a, hp);
        }
        hp := PageBase(hp) + PGSIZE;
      }
    }
  
    /** `c->invalidate()` on the `k`-th configured cache; every level stays valid and the other caches are untouched. */
    method InvalidateCache(k: nat)
      requires Valid() && k < |caches|
      modifies Hier
      ensures Valid()
      ensures Cleared(caches[k]) && KeptButInvalid(caches[k])
      ensures forall j :: 0 <= j < |caches| && j != k ==> unchanged(caches[j], caches[j].lines)
    {
      var c := caches[k];
      assert Entries[2 + k] == Level(c);
      c.Invalidate();
      HierarchyKept((Entries, Hier, Level(c)));
    }

    /**
     * `reset`: the heap pointer back to HEAP_START, every page unmapped,
     * every configured cache invalidated and both totals cleared. The
     * frames stay allocated but unreachable.
     */
    method Reset()
      requires Valid()
      modifies this, Hier
      ensures Valid()
      ensures pageTable == map[] && heapPointer == HEAP_START && totalCycles == 0 && accessNum == 0
      ensures phys == old(phys)
      ensures forall c :: c in caches ==> Cleared(c) && KeptButInvalid(c)
    {
      heapPointer := HEAP_START;
      pageTable := map[];
      var k := 0;
      while k < |caches|
        invariant 0 <= k <= |caches| && Valid()
        invariant pageTable == map[] && heapPointer == HEAP_START && phys == old(phys)
        invariant forall j :: 0 <= j < k ==> Cleared(caches[j]) && KeptButInvalid(caches[j])
        invariant forall j :: k <= j < |caches| ==> unchanged(caches[j], caches[j].lines)
      {
        InvalidateCache(k);
        k := k + 1;
      }
      totalCycles, accessNum := 0, 0;
    }
  }
}
