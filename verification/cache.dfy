/**
 * The set-associative cache timing model (src/cache.hpp, src/cache.cpp).
 *
 * A cache tracks, per line, only a valid bit, a dirty bit, the time of the
 * last access and the tag; it never holds data. Each access returns the
 * number of cycles it costs, which includes the cost of the accesses it
 * passes on to the next level. The chain of levels ends in main memory,
 * whose accesses cost a fixed number of cycles.
 */
module Caches {
  import opened Registers

  /** `uint32_t`: the width of the access clock and of the line timestamps. */
  const Two32: int := 0x1_0000_0000

  /** `struct CacheLine`. */
  datatype Line = Line(valid: bool, dirty: bool, timestamp: int, tag: nat)

  /** The zero-initialised line the model starts from. */
  const EmptyLine := Line(false, false, 0, 0)

  /** A level of the hierarchy: `Memory` with its fixed cost, or a `Cache`. */
  datatype Storage = MainMemory(cycles: nat) | Level(cache: Cache)

  /** `time - timestamp` computed in `uint32_t`, so it wraps around. */
  function Age(time: int, stamp: int): int {
    (time - stamp) % Two32
  }

  /** A valid line holding `tag`. */
  predicate Holds(l: Line, tag: int) {
    l.valid && l.tag == tag
  }

  /**
   * The floor of log2 by repeated halving, `log2` in src/cache.cpp; 0 for
   * every argument up to 1.
   */
  method Log2(x: int) returns (r: nat)
    ensures x <= 1 ==> r == 0
    ensures x >= 1 ==> Pow2(r) <= x < 2 * Pow2(r)
  {
    r := 0;
    var y := x;
    while y > 1
      invariant y >= 1 ==> Pow2(r) * y <= x < Pow2(r) * (y + 1)
      invariant x <= 1 ==> r == 0 && y == x
      invariant x > 1 ==> y >= 1
    {
      HalveStep(y, Pow2(r));
      y := y / 2;
      r := r + 1;
    }
  }

  lemma HalveStep(y: nat, p: nat)
    requires y >= 2
    ensures 2 * p * (y / 2) <= p * y
    ensures p * (y + 1) <= 2 * p * (y / 2 + 1)
  {
    assert 2 * (y / 2) <= y && y + 1 <= 2 * (y / 2 + 1);
    MulMono(p, 2 * (y / 2), y);
    MulMono(p, y + 1, 2 * (y / 2 + 1));
  }

  /** A power of two: 1, or an even number whose half is a power of two. */
  predicate IsPow2(n: int)
    decreases if n > 0 then n else 0
  {
    n == 1 || (n >= 2 && n % 2 == 0 && IsPow2(n / 2))
  }

  /** 2^k is a power of two. */
  lemma {:induction false} Pow2IsPow2(k: nat)
    ensures IsPow2(Pow2(k))
  {
    if k > 0 {
      Pow2IsPow2(k - 1);
      assert Pow2(k) / 2 == Pow2(k - 1);
    }
  }

  /** On a power of two, `log2` is exact. */
  lemma {:induction false} Log2OfPow2(n: int, r: nat)
    requires IsPow2(n) && Pow2(r) <= n < 2 * Pow2(r)
    ensures n == Pow2(r)
  {
    if r > 0 {
      assert n >= 2;
      Log2OfPow2(n / 2, r - 1);
    }
  }

  /**
   * One step of the victim scan: the candidate becomes line `i` when there
   * is no candidate yet, when line `i` is invalid, or when line `i` is
   * strictly older.
   */
  function NextEvict(row: seq<Line>, time: int, i: nat, evict: int): int
    requires i < |row| && -1 <= evict < |row|
  {
    if evict < 0 || !row[i].valid || Age(time, row[i].timestamp) > Age(time, row[evict].timestamp) then i else evict
  }

  /**
   * The loop of `get_cache_line` from position `i` with candidate `evict`:
   * the first line holding `tag`, else the final candidate.
   */
  function Scan(row: seq<Line>, tag: int, time: int, i: nat, evict: int): (r: int)
    requires i <= |row| && -1 <= evict < |row|
    ensures -1 <= r < |row|
    ensures (i < |row| || evict >= 0) ==> r >= 0
    decreases |row| - i
  {
    if i == |row| then evict
    else if Holds(row[i], tag) then i
    else Scan(row, tag, time, i + 1, NextEvict(row, time, i, evict))
  }

  /** The scan stops at the first line holding the tag. */
  lemma {:induction false} ScanFindsFirstHit(row: seq<Line>, tag: int, time: int, i: nat, evict: int, k: nat)
    requires i <= k < |row| && -1 <= evict < |row|
    requires Holds(row[k], tag)
    requires forall j :: i <= j < k ==> !Holds(row[j], tag)
    ensures Scan(row, tag, time, i, evict) == k
    decreases k - i
  {
    if i < k {
      ScanFindsFirstHit(row, tag, time, i + 1, NextEvict(row, time, i, evict), k);
    }
  }

  /** `e` is the first of the lines before `n` with the greatest age. */
  predicate FirstOldest(row: seq<Line>, time: int, n: nat, e: int)
    requires n <= |row|
  {
    && 0 <= e < n
    && (forall j :: 0 <= j < n ==> Age(time, row[j].timestamp) <= Age(time, row[e].timestamp))
    && (forall j :: 0 <= j < e ==> Age(time, row[j].timestamp) < Age(time, row[e].timestamp))
  }

  /**
   * When every line is valid and none holds the tag, the scan picks the
   * first line of greatest age: least recently used under the wrapped clock.
   */
  lemma {:induction false} ScanPicksOldest(row: seq<Line>, tag: int, time: int, i: nat, evict: int)
    requires i <= |row| && -1 <= evict < |row|
    requires forall j :: 0 <= j < |row| ==> row[j].valid && row[j].tag != tag
    requires (i == 0 && evict == -1) || FirstOldest(row, time, i, evict)
    requires 0 < |row|
    ensures FirstOldest(row, time, |row|, Scan(row, tag, time, i, evict))
    decreases |row| - i
  {
    if i < |row| {
      ScanPicksOldest(row, tag, time, i + 1, NextEvict(row, time, i, evict));
    }
  }

  /**
   * What `get_cache_line` returns for a non-empty set: a line of the set;
   * a line holding the tag, the first one, exactly when one exists; and
   * when all lines are valid and none holds the tag, the first oldest one.
   */
  lemma ScanSpec(row: seq<Line>, tag: int, time: int)
    requires 0 < |row|
    ensures var r := Scan(row, tag, time, 0, -1);
      && 0 <= r < |row|
      && (Holds(row[r], tag) <==> exists j :: 0 <= j < |row| && Holds(row[j], tag))
      && (Holds(row[r], tag) ==> forall j :: 0 <= j < r ==> !Holds(row[j], tag))
      && ((forall j :: 0 <= j < |row| ==> row[j].valid && row[j].tag != tag) ==> FirstOldest(row, time, |row|, r))
  {
    var r := Scan(row, tag, time, 0, -1);
    if exists j :: 0 <= j < |row| && Holds(row[j], tag) {
      var k := FirstHit(row, tag);
      ScanFindsFirstHit(row, tag, time, 0, -1, k);
    } else if forall j :: 0 <= j < |row| ==> row[j].valid && row[j].tag != tag {
      ScanPicksOldest(row, tag, time, 0, -1);
    }
  }

  /** The index of the first line holding `tag`, given that one does. */
  lemma FirstHit(row: seq<Line>, tag: int) returns (k: nat)
    requires exists j :: 0 <= j < |row| && Holds(row[j], tag)
    ensures k < |row| && Holds(row[k], tag)
    ensures forall j :: 0 <= j < k ==> !Holds(row[j], tag)
  {
    k := 0;
    while !Holds(row[k], tag)
      invariant k < |row|
      invariant forall j :: 0 <= j < k ==> !Holds(row[j], tag)
      invariant exists j :: k <= j < |row| && Holds(row[j], tag)
      decreases |row| - k
    {
      k := k + 1;
    }
  }

  /** The cost of a memory access: `Memory::read` and `Memory::write` charge the fixed latency. */
  function MemoryCost(m: Storage, ptr: nat): (c: nat)
    requires m.MainMemory?
    ensures c == m.cycles
  {
    m.cycles
  }

  /** An address built from a tag, a set index below `P` and a zero offset splits back into them. */
  lemma SplitAddress(tag: nat, si: nat, B: nat, P: nat)
    requires B >= 1 && P >= 1 && si < P
    ensures var x := tag * (B * P) + si * B;
      x / B % P == si && x / B == tag * P + si && x / (B * P) == tag
  {
    var x := tag * (B * P) + si * B;
    assert x == B * (tag * P + si) + 0 by {
      assert tag * (B * P) == B * (tag * P);
    }
    DivModUnique(x, B, tag * P + si, 0);
    DivModUnique(tag * P + si, P, tag, si);
    MulMono(B, si, P - 1);
    assert B * (P - 1) == B * P - B;
    DivModUnique(x, B * P, tag, si * B);
  }

  /** `class Cache`: geometry, policies, the next level and the per-line metadata. */
  class Cache {
    /** Number of sets, a power of two. */
    const S: nat
    /** log2 of the number of sets. */
    const s: nat
    /** Lines per set (the associativity). */
    const E: nat
    /** log2 of the line size in bytes. */
    const b: nat
    const writeBack: bool
    const writeAllocate: bool
    const hitCycles: nat
    const next: Storage
    /** `cache_set[i][j]`: line `j` of set `i`. */
    const lines: array2<Line>
    /** The access clock, a `uint32_t`. */
    var time: int
    var hitNum: nat
    var missNum: nat

    /** The levels below this one, counted from main memory. */
    ghost const depth: nat
    ghost const Repr: set<object>

    /** Within a set, at most one valid line holds a given tag. */
    ghost predicate UniqueTags()
      reads this, lines
    {
      forall i, j1, j2 ::
        0 <= i < lines.Length0 && 0 <= j1 < j2 < lines.Length1 && lines[i, j1].valid && lines[i, j2].valid
        ==> lines[i, j1].tag != lines[i, j2].tag
    }

    ghost predicate Valid()
      reads this, Repr
      decreases depth, 0
    {
      && this in Repr && lines in Repr
      && S >= 1 && E >= 1 && S == Pow2(s)
      && lines.Length0 == S && lines.Length1 == E
      && 0 <= time < Two32
      && UniqueTags()
      && StorageDepth(next) < depth
      && match next
         case MainMemory(_) => true
         case Level(c) =>
           && c in Repr && c.Repr <= Repr && this !in c.Repr && lines !in c.Repr
           && c.depth < depth && c.Valid()
    }

    /**
     * The constructor with the configuration as parameters: `size` in KiB,
     * the line size in bytes and the associativity. The number of sets is
     * `size * 1024 / line_size / E`; `s` and `b` are their logarithms. The
     * source leaves the clock, timestamps and dirty bits uninitialised;
     * here they start at zero, and every line starts invalid.
     */
    constructor (size: nat, lineSize: nat, assoc: nat, hitCycles: nat, writeBack: bool, writeAllocate: bool, next: Storage)
      requires lineSize >= 1 && assoc >= 1
      requires IsPow2(lineSize) && IsPow2(size * 1024 / lineSize / assoc)
      requires StorageValid(next)
      ensures Valid() && fresh(lines)
      ensures Repr == {this, lines} + StorageRepr(next)
      ensures S == size * 1024 / lineSize / assoc && E == assoc && Pow2(b) == lineSize
      ensures this.hitCycles == hitCycles && this.writeBack == writeBack
      ensures this.writeAllocate == writeAllocate && this.next == next
      ensures time == 0 && hitNum == 0 && missNum == 0
      ensures forall i, j :: 0 <= i < S && 0 <= j < E ==> lines[i, j] == EmptyLine
    {
      var sets := size * 1024 / lineSize / assoc;
      var setBits := Log2(sets);
      var lineBits := Log2(lineSize);
      Log2OfPow2(sets, setBits);
      Log2OfPow2(lineSize, lineBits);
      S, s, E, b := sets, setBits, assoc, lineBits;
      this.hitCycles, this.writeBack, this.writeAllocate, this.next := hitCycles, writeBack, writeAllocate, next;
      lines := new Line[sets, assoc]((_, _) => EmptyLine);
      time, hitNum, missNum := 0, 0, 0;
      depth := StorageDepth(next) + 1;
      Repr := {this, lines} + StorageRepr(next);
    }

    /** `get_line_size`. */
    function LineSize(): (n: nat)
      ensures n >= 1
    {
      Pow2(b)
    }

    /** The set of an address: bits b .. b+s-1, `(ptr >> b) & (S - 1)`. */
    function SetIndex(ptr: nat): (i: nat)
      requires S >= 1
      ensures i < S
    {
      (ptr / Pow2(b)) % S
    }

    /** The tag of an address: the bits above the set index, `ptr >> (b + s)`. */
    function Tag(ptr: nat): nat {
      ptr / Pow2(b + s)
    }

    /** The lines of set `i`, in order. */
    ghost function Row(i: nat): (row: seq<Line>)
      requires i < lines.Length0
      reads lines
      ensures |row| == lines.Length1
      ensures forall j :: 0 <= j < |row| ==> row[j] == lines[i, j]
    {
      seq(lines.Length1, j requires 0 <= j < lines.Length1 reads lines => lines[i, j])
    }

    /** Line `k` of set `si` became `l`; every other line is unchanged. */
    twostate predicate LinesAfter(si: nat, k: nat, l: Line)
      reads lines
    {
      forall i, j :: 0 <= i < lines.Length0 && 0 <= j < lines.Length1 ==>
        lines[i, j] == if i == si && j == k then l else old(lines[i, j])
    }

    /** The address of the line `tag` would occupy in set `si`, as written back to the next level. */
    function VictimAddress(tag: nat, si: nat): nat {
      // `tag << (b + s) | (ptr & ((S - 1) << b))`: the two parts have no bit in common.
      tag * Pow2(b + s) + si * Pow2(b)
    }

    /** The victim address lies in set `si` and carries `tag`: write-backs reach the line's own address. */
    lemma VictimAddressInverse(tag: nat, si: nat)
      requires S == Pow2(s) && si < S
      ensures SetIndex(VictimAddress(tag, si)) == si && Tag(VictimAddress(tag, si)) == tag
    {
      Pow2Add(b, s);
      SplitAddress(tag, si, Pow2(b), Pow2(s));
    }

    /**
     * `get_cache_line`: scans the set of `ptr` for a valid line with its tag
     * and otherwise chooses the victim.
     */
    method GetCacheLine(ptr: nat) returns (k: nat)
      requires Valid()
      ensures k < E
      ensures k == Scan(Row(SetIndex(ptr)), Tag(ptr), time, 0, -1)
    {
      var si, tag := SetIndex(ptr), Tag(ptr);
      ghost var row := Row(si);
      var evict := -1;
      var i := 0;
      while i < E
        invariant 0 <= i <= E && -1 <= evict < E
        invariant i > 0 ==> evict >= 0
        invariant Scan(row, tag, time, i, evict) == Scan(row, tag, time, 0, -1)
      {
        var l := lines[si, i];
        if l.valid && l.tag == tag {
          return i;
        }
        if evict < 0 || !l.valid || Age(time, l.timestamp) > Age(time, lines[si, evict].timestamp) {
          evict := i;
        }
        i := i + 1;
      }
      return evict;
    }

    /**
     * `read`: advances the clock; on a hit refreshes the line's timestamp
     * and costs `hit_cycles`; on a miss writes a dirty victim back (under
     * write-back), reads the line from the next level and refills the
     * victim as valid and clean.
     */
    method Read(ptr: nat) returns (cycles: nat)
      requires Valid()
      modifies Repr
      ensures Valid()
      ensures time == (old(time) + 1) % Two32
      ensures var si, tag := SetIndex(ptr), Tag(ptr);
        var k := Scan(old(Row(si)), tag, time, 0, -1);
        0 <= k < E &&
        if Holds(old(lines[si, k]), tag) then
          && hitNum == old(hitNum) + 1 && missNum == old(missNum)
          && LinesAfter(si, k, old(lines[si, k]).(timestamp := time))
          && cycles == hitCycles
        else
          && missNum == old(missNum) + 1 && hitNum == old(hitNum)
          && LinesAfter(si, k, Line(true, false, time, tag))
          && cycles >= hitCycles
          && (next.MainMemory? ==>
                cycles == hitCycles + next.cycles + (if WritesBack(old(lines[si, k])) then next.cycles else 0))
      decreases depth, 1
    {
      var si, k, hit := Lookup(ptr);
      if hit {
        SetLine(si, k, lines[si, k].(timestamp := time));
        return hitCycles;
      }
      cycles := Refill(ptr, si, k, false);
    }

    /**
     * The part `read` and `write` share: advance the clock, find the line
     * of `ptr` or its victim, and count the hit or the miss.
     */
    method Lookup(ptr: nat) returns (si: nat, k: nat, hit: bool)
      requires Valid()
      modifies this
      ensures Valid()
      ensures time == (old(time) + 1) % Two32
      ensures si == SetIndex(ptr) && k < E && k == Scan(Row(si), Tag(ptr), time, 0, -1)
      ensures hit == Holds(lines[si, k], Tag(ptr))
      ensures hit ==> hitNum == old(hitNum) + 1 && missNum == old(missNum)
      ensures !hit ==> missNum == old(missNum) + 1 && hitNum == old(hitNum)
      ensures !hit ==> forall j :: 0 <= j < E ==> !Holds(lines[si, j], Tag(ptr))
    {
      time := (time + 1) % Two32;
      si := SetIndex(ptr);
      k := GetCacheLine(ptr);
      ScanSpec(Row(si), Tag(ptr), time);
      hit := lines[si, k].valid && lines[si, k].tag == Tag(ptr);
      if hit {
        hitNum := hitNum + 1;
      } else {
        missNum := missNum + 1;
      }
    }

    /**
     * `write`: advances the clock; on a hit marks the line dirty and
     * refreshes it, passing the write on only under write-through; on a
     * miss without write-allocate passes the write on and changes no line;
     * on a miss with write-allocate refills the victim like `read` does
     * but leaves it dirty.
     */
    method Write(ptr: nat) returns (cycles: nat)
      requires Valid()
      modifies Repr
      ensures Valid()
      ensures time == (old(time) + 1) % Two32
      ensures var si, tag := SetIndex(ptr), Tag(ptr);
        var k := Scan(old(Row(si)), tag, time, 0, -1);
        0 <= k < E &&
        if Holds(old(lines[si, k]), tag) then
          && hitNum == old(hitNum) + 1 && missNum == old(missNum)
          && LinesAfter(si, k, old(lines[si, k]).(dirty := true, timestamp := time))
          && cycles >= hitCycles
          && (writeBack ==> cycles == hitCycles)
          && (next.MainMemory? ==> cycles == hitCycles + (if writeBack then 0 else next.cycles))
        else if !writeAllocate then
          && missNum == old(missNum) + 1 && hitNum == old(hitNum)
          && LinesAfter(si, k, old(lines[si, k]))
          && (next.MainMemory? ==> cycles == next.cycles)
        else
          && missNum == old(missNum) + 1 && hitNum == old(hitNum)
          && LinesAfter(si, k, Line(true, true, time, tag))
          && cycles >= hitCycles
          && (next.MainMemory? ==>
                cycles == hitCycles + next.cycles + (if WritesBack(old(lines[si, k])) then next.cycles else 0))
      decreases depth, 1
    {
      var si, k, hit := Lookup(ptr);
      if hit {
        cycles := WriteHit(ptr, si, k);
        return;
      }
      if !writeAllocate {
        cycles := WriteAround(ptr);
        return;
      }
      cycles := Refill(ptr, si, k, true);
    }

    /** The miss path of `write` without write-allocate: the write goes on to the next level and no line changes. */
    method WriteAround(ptr: nat) returns (cycles: nat)
      requires Valid()
      modifies Repr
      ensures Valid()
      ensures time == old(time) && hitNum == old(hitNum) && missNum == old(missNum)
      ensures unchanged(lines)
      ensures next.MainMemory? ==> cycles == next.cycles
      decreases depth, 0
    {
      cycles := WriteStorage(next, ptr);
    }

    /**
     * The hit path of `write`: the line becomes dirty and is refreshed; the
     * write goes on to the next level only under write-through.
     */
    method WriteHit(ptr: nat, si: nat, k: nat) returns (cycles: nat)
      requires Valid() && si == SetIndex(ptr) && k < E && Holds(lines[si, k], Tag(ptr))
      modifies Repr
      ensures Valid()
      ensures time == old(time) && hitNum == old(hitNum) && missNum == old(missNum)
      ensures LinesAfter(si, k, old(lines[si, k]).(dirty := true, timestamp := time))
      ensures cycles >= hitCycles && (writeBack ==> cycles == hitCycles)
      ensures next.MainMemory? ==> cycles == hitCycles + (if writeBack then 0 else next.cycles)
      decreases depth, 0
    {
      SetLine(si, k, lines[si, k].(dirty := true, timestamp := time));
      cycles := hitCycles;
      if !writeBack {
        var c := WriteStorage(next, ptr);
        cycles := cycles + c;
      }
    }

    /** A dirty valid line must be written back before it is replaced, under write-back. */
    predicate WritesBack(l: Line) {
      writeBack && l.valid && l.dirty
    }

    /**
     * The miss path shared by `read` and by `write` with write-allocate:
     * write the victim back if it is dirty and the cache is write-back,
     * read the line from the next level, and refill the victim with the
     * tag of `ptr` and the current time.
     */
    method Refill(ptr: nat, si: nat, k: nat, dirty: bool) returns (cycles: nat)
      requires Valid() && si == SetIndex(ptr) && k < E
      requires forall j :: 0 <= j < E ==> !Holds(lines[si, j], Tag(ptr))
      modifies Repr
      ensures Valid()
      ensures time == old(time) && hitNum == old(hitNum) && missNum == old(missNum)
      ensures LinesAfter(si, k, Line(true, dirty, time, Tag(ptr)))
      ensures cycles >= hitCycles
      ensures next.MainMemory? ==>
        cycles == hitCycles + next.cycles + (if WritesBack(old(lines[si, k])) then next.cycles else 0)
      decreases depth, 0
    {
      var line := lines[si, k];
      cycles := hitCycles;
      if writeBack && line.valid && line.dirty {
        var c := WriteStorage(next, VictimAddress(line.tag, si));
        cycles := cycles + c;
      }
      var c := ReadStorage(next, ptr);
      cycles := cycles + c;
      SetLine(si, k, Line(true, dirty, time, Tag(ptr)));
    }

    /**
     * Overwrites one line. The set keeps at most one valid line per tag as
     * long as no other valid line of the set holds the new line's tag.
     */
    method SetLine(si: nat, k: nat, l: Line)
      requires Valid() && si < S && k < E
      requires l.valid ==> forall j :: 0 <= j < E && j != k ==> !Holds(lines[si, j], l.tag)
      modifies lines
      ensures Valid()
      ensures LinesAfter(si, k, l)
    {
      lines[si, k] := l;
    }

    /** `invalidate`: clears both counters and every valid bit, and nothing else. */
    method Invalidate()
      requires Valid()
      modifies this, lines
      ensures Valid()
      ensures hitNum == 0 && missNum == 0 && time == old(time)
      ensures forall i, j :: 0 <= i < S && 0 <= j < E ==> lines[i, j] == old(lines[i, j]).(valid := false)
    {
      hitNum, missNum := 0, 0;
      var i := 0;
      while i < S
        modifies lines
        invariant 0 <= i <= S
        invariant forall i', j :: 0 <= i' < i && 0 <= j < E ==> lines[i', j] == old(lines[i', j]).(valid := false)
        invariant forall i', j :: i <= i' < S && 0 <= j < E ==> lines[i', j] == old(lines[i', j])
      {
        var j := 0;
        while j < E
          modifies lines
          invariant 0 <= j <= E
          invariant forall i', j' :: 0 <= i' < i && 0 <= j' < E ==> lines[i', j'] == old(lines[i', j']).(valid := false)
          invariant forall j' :: 0 <= j' < j ==> lines[i, j'] == old(lines[i, j']).(valid := false)
          invariant forall j' :: j <= j' < E ==> lines[i, j'] == old(lines[i, j'])
          invariant forall i', j' :: i < i' < S && 0 <= j' < E ==> lines[i', j'] == old(lines[i', j'])
        {
          lines[i, j] := lines[i, j].(valid := false);
          j := j + 1;
        }
        i := i + 1;
      }
    }
  }

  ghost predicate StorageValid(st: Storage)
    reads if st.Level? then {st.cache} + st.cache.Repr else {}
  {
    st.Level? ==> st.cache.Valid()
  }

  ghost function StorageRepr(st: Storage): set<object> {
    if st.Level? then st.cache.Repr else {}
  }

  ghost function StorageDepth(st: Storage): nat {
    if st.Level? then st.cache.depth else 0
  }

  /** `next->read(ptr)`: a fixed cost from memory, a cache access otherwise. */
  method ReadStorage(st: Storage, ptr: nat) returns (cycles: nat)
    requires StorageValid(st)
    modifies StorageRepr(st)
    ensures StorageValid(st)
    ensures st.MainMemory? ==> cycles == MemoryCost(st, ptr)
    ensures st.Level? ==> cycles >= st.cache.hitCycles
    decreases StorageDepth(st), 2
  {
    match st
    case MainMemory(c) => cycles := c;
    case Level(cache) => cycles := cache.Read(ptr);
  }

  /** `next->write(ptr)`: a fixed cost from memory, a cache access otherwise. */
  method WriteStorage(st: Storage, ptr: nat) returns (cycles: nat)
    requires StorageValid(st)
    modifies StorageRepr(st)
    ensures StorageValid(st)
    ensures st.MainMemory? ==> cycles == MemoryCost(st, ptr)
    decreases StorageDepth(st), 2
  {
    match st
    case MainMemory(c) => cycles := c;
    case Level(cache) => cycles := cache.Write(ptr);
  }

  /** `b` is `a` or a level further down the chain of `a`. */
  ghost predicate Below(a: Storage, b: Storage)
    decreases StorageDepth(a)
  {
    a == b || (a.Level? && StorageDepth(a.cache.next) < a.cache.depth && Below(a.cache.next, b))
  }

  /**
   * How two entry points into one hierarchy may overlap: `b` is below `a`,
   * or they share nothing, or the top level of `b` lies outside `a` and the
   * rest of `b` overlaps `a` in the same way. It mentions constant fields
   * only, so no access can break it.
   */
  ghost predicate Sharing(a: Storage, b: Storage)
    decreases StorageDepth(b)
  {
    || Below(a, b)
    || StorageRepr(a) !! StorageRepr(b)
    || (&& b.Level? && b.cache !in StorageRepr(a) && b.cache.lines !in StorageRepr(a)
        && StorageDepth(b.cache.next) < b.cache.depth && Sharing(a, b.cache.next))
  }

  /** Every level below a valid level is valid. */
  lemma {:induction false} BelowValid(a: Storage, b: Storage)
    requires StorageValid(a) && Below(a, b)
    ensures StorageValid(b)
    decreases StorageDepth(a)
  {
    if a != b {
      BelowValid(a.cache.next, b);
    }
  }

  /**
   * An access through `ab.0` that keeps it valid and changes nothing
   * outside its levels keeps every overlapping `ab.1` valid as well. (The
   * two entry points travel as one pair.)
   */
  twostate lemma {:induction false} StillValid(ab: (Storage, Storage))
    requires old(StorageValid(ab.1)) && StorageValid(ab.0) && Sharing(ab.0, ab.1)
    requires unchanged(StorageRepr(ab.1) - StorageRepr(ab.0))
    ensures StorageValid(ab.1)
    decreases StorageDepth(ab.1)
  {
    var (a, b) := ab;
    if Below(a, b) {
      BelowValid(a, b);
    } else if !(StorageRepr(a) !! StorageRepr(b)) {
      StillValid((a, b.cache.next));
    }
  }
}
