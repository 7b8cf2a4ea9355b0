/** Range maintenance: remote TLB flushes (src/mtrap.c:253-279 and the handler in
    src/mentry.S:182-205), the cache-line loops of include/cache.h:370-408, and
    the split counter of src/l2_pmu.c:134-158. */
module Ranges {
  import opened Bits

  const WORDS: nat := 0x1_0000_0000_0000_0000
  const SIGN: nat := 0x8000_0000_0000_0000
  const PGSIZE: nat := 4096

  // ----- blocks that meet a range

  /** How many blocks of the given length meet [addr, addr + size). */
  function Blocks(addr: nat, size: nat, len: nat): nat
    requires len > 0 && size > 0
  {
    (addr % len + size - 1) / len + 1
  }

  lemma DivBound(x: nat, len: nat, q: nat)
    requires len > 0
    ensures x / len < q <==> x < q * len
  {
    var d := x / len;
    assert d * len <= x < (d + 1) * len by {
      assert (d + 1) * len == d * len + len;
    }
    if d < q {
      MulMono(d + 1, q, len);
    } else {
      MulMono(q, d, len);
    }
  }

  lemma DivAdd(x: nat, k: nat, len: nat)
    requires len > 0
    ensures (x + k * len) / len == x / len + k && (x + k * len) % len == x % len
  {
    var d, r := x / len, x % len;
    assert x + k * len == (d + k) * len + r by {
      assert (d + k) * len == d * len + k * len;
    }
    DivBound(x + k * len, len, d + k);
    DivBound(x + k * len, len, d + k + 1);
    assert (d + k + 1) * len == (d + k) * len + len;
  }

  /** The block of byte d of the range, counted from addr's. */
  function BlockOf(addr: nat, d: nat, len: nat): nat
    requires len > 0
  {
    (addr % len + d) / len
  }

  lemma BlockOfIs(addr: nat, d: nat, len: nat)
    requires len > 0
    ensures (addr + d) / len == addr / len + BlockOf(addr, d, len)
  {
    DivAdd(addr % len + d, addr / len, len);
    assert addr + d == (addr % len + d) + addr / len * len;
  }

  lemma ByteInBlock(addr: nat, size: nat, len: nat, d: nat)
    requires len > 0 && d < size
    ensures BlockOf(addr, d, len) < Blocks(addr, size, len)
  {
    var last := addr % len + size - 1;
    DivBound(last, len, last / len + 1);
    DivBound(addr % len + d, len, last / len + 1);
  }

  lemma BlockHasByte(addr: nat, size: nat, len: nat, i: nat) returns (d: nat)
    requires len > 0 && size > 0 && i < Blocks(addr, size, len)
    ensures d < size && BlockOf(addr, d, len) == i
  {
    var off := addr % len;
    DivBound(off + size - 1, len, i);
    if i == 0 {
      d := 0;
    } else {
      assert i * len >= len by {
        assert i * len == len + (i - 1) * len;
      }
      d := i * len - off;
    }
    Within(off, d, len, i);
  }

  lemma Within(off: nat, d: nat, len: nat, i: nat)
    requires off < len && (if i == 0 then d == 0 else off + d == i * len)
    ensures (off + d) / len == i
  {
    DivBound(off + d, len, i);
    DivBound(off + d, len, i + 1);
    assert (i + 1) * len == i * len + len;
  }

  // ----- remote sfence.vma

  /** The threshold of lines 263 and 275 in src/mtrap.c. */
  function Payload(size: nat): nat {
    if size > 4 * PGSIZE then WORDS - 1 else size
  }

  datatype Fence = All | Pages(at: seq<nat>)

  /** What the handler does with a message. */
  ghost predicate IsFence(addr: nat, size: nat, f: Fence) {
    if size >= SIGN || (addr == 0 && size == 0) then f == All
    else
      f.Pages? && |f.at| == Blocks(addr, if size == 0 then 1 else size, PGSIZE)
      && forall i :: 0 <= i < |f.at| ==> f.at[i] == (addr - addr % PGSIZE + i * PGSIZE) % WORDS
  }

  /** ipi_handler_sfence_vma: a0 and a1 are registers, a1 read as signed. */
  method SfenceHandler(addr: nat, size: nat) returns (f: Fence)
    requires addr < WORDS && size < WORDS
    ensures IsFence(addr, size, f)
  {
    if size >= SIGN || (addr == 0 && size == 0) {
      return All;
    }
    var at := FenceLoop(addr - addr % PGSIZE, size + addr % PGSIZE);
    return Pages(at);
  }

  /** Lines 197-201 of src/mentry.S. */
  method FenceLoop(base: nat, total: nat) returns (at: seq<nat>)
    requires base < WORDS
    ensures |at| == if total == 0 then 1 else (total - 1) / PGSIZE + 1
    ensures forall i :: 0 <= i < |at| ==> at[i] == (base + i * PGSIZE) % WORDS
  {
    var a0: nat, a1: int := (base + PGSIZE) % WORDS, total - PGSIZE;
    at := [base];
    while a1 > 0
      invariant a1 == total - |at| * PGSIZE && a0 == (base + |at| * PGSIZE) % WORDS
      invariant |at| == 1 || (|at| >= 1 && (|at| - 1) * PGSIZE < total)
      invariant forall i :: 0 <= i < |at| ==> at[i] == (base + i * PGSIZE) % WORDS
    {
      at := at + [a0];
      NextLine(base, |at|, PGSIZE);
      a0, a1 := (a0 + PGSIZE) % WORDS, a1 - PGSIZE;
    }
    PageCount(total, |at|);
  }

  lemma PageCount(total: nat, n: nat)
    requires n >= 1 && total <= n * PGSIZE && (n == 1 || (n - 1) * PGSIZE < total)
    ensures n == if total == 0 then 1 else (total - 1) / PGSIZE + 1
  {
  }

  /** The page that holds byte d from addr on; addresses wrap. */
  function PageAt(addr: nat, d: nat): nat {
    var a := (addr + d) % WORDS;
    a - a % PGSIZE
  }

  lemma PageAtIs(addr: nat, d: nat)
    ensures PageAt(addr, d) == (addr - addr % PGSIZE + BlockOf(addr, d, PGSIZE) * PGSIZE) % WORDS
  {
    BlockOfIs(addr, d, PGSIZE);
    var a := addr + d;
    assert a % WORDS % PGSIZE == a % PGSIZE;
    assert a - a % PGSIZE == addr - addr % PGSIZE + BlockOf(addr, d, PGSIZE) * PGSIZE;
  }

  /** A request of no bytes, or of more than four pages, flushes everything or
      the page of its address; any other flushes exactly the pages it names. */
  lemma FenceExactly(addr: nat, size: nat, f: Fence)
    requires addr < WORDS && size < WORDS && IsFence(addr, Payload(size), f)
    ensures f.All? <==> size > 4 * PGSIZE || (addr == 0 && size == 0)
    ensures f.Pages? ==>
      forall p: nat :: p in f.at <==> exists d: nat :: d < (if size == 0 then 1 else size) && PageAt(addr, d) == p
  {
    if f.Pages? {
      var n := if size == 0 then 1 else size;
      forall d: nat | d < n ensures PageAt(addr, d) in f.at {
        ByteInBlock(addr, n, PGSIZE, d);
        PageAtIs(addr, d);
        assert f.at[BlockOf(addr, d, PGSIZE)] == PageAt(addr, d);
      }
      forall p: nat | p in f.at ensures exists d: nat :: d < n && PageAt(addr, d) == p {
        var i :| 0 <= i < |f.at| && f.at[i] == p;
        var d := BlockHasByte(addr, n, PGSIZE, i);
        PageAtIs(addr, d);
      }
    }
  }

  // ----- cache lines

  /** What cache_invalidate and cache_flush give to clinvd or clflush. */
  ghost predicate IsLines(addr: nat, size: nat, line: nat, lines: seq<nat>)
    requires line > 0
  {
    |lines| == LineCount(addr, size, line)
    && forall i :: 0 <= i < |lines| ==> lines[i] == (addr + i * line) % WORDS
  }

  /** cache_invalidate and cache_flush, for lines of 2^k bytes. */
  method CacheLoop(addr: nat, size0: nat, k: nat) returns (lines: seq<nat>)
    requires k < WORD_BITS && addr < WORDS && size0 < WORDS
    ensures IsLines(addr, size0, Pow2(k), lines)
  {
    var line := Pow2(k);
    lines := [];
    if size0 == 0 {
      return;
    }
    var offset := And(addr, line - 1);
    AndLowMask(addr, k);
    lines := LinesFrom(addr, Turns(size0, offset, line), line);
  }

  /** The do-while loop of lines 382-385 and 400-403. */
  method LinesFrom(addr: nat, cnt0: nat, line: nat) returns (lines: seq<nat>)
    requires addr < WORDS && line > 0
    ensures |lines| == cnt0 + 1
    ensures forall i :: 0 <= i < |lines| ==> lines[i] == (addr + i * line) % WORDS
  {
    var a0, cnt: nat := addr, cnt0;
    lines := [a0];
    assert (addr + 0 * line) % WORDS == a0;
    NextLine(addr, 1, line);
    a0 := (a0 + line) % WORDS;
    while cnt != 0
      invariant |lines| + cnt == cnt0 + 1 && a0 == (addr + |lines| * line) % WORDS
      invariant forall i :: 0 <= i < |lines| ==> lines[i] == (addr + i * line) % WORDS
    {
      cnt := cnt - 1;
      lines := lines + [a0];
      NextLine(addr, |lines|, line);
      a0 := (a0 + line) % WORDS;
    }
  }

  lemma NextLine(addr: nat, n: nat, line: nat)
    requires n > 0
    ensures ((addr + (n - 1) * line) % WORDS + line) % WORDS == (addr + n * line) % WORDS
  {
    assert n * line == (n - 1) * line + line;
  }

  /** `size - 1` of the sum of size and offset, both wrapping (lines 379-380). */
  function Last(total: nat): nat {
    (total % WORDS - 1) % WORDS
  }

  /** The value of cnt, line 380. */
  function Turns(size: nat, offset: nat, line: nat): nat
    requires line > 0
  {
    Last(size + offset) / line
  }

  function LineCount(addr: nat, size: nat, line: nat): nat
    requires line > 0
  {
    if size == 0 then 0 else Turns(size, addr % line, line) + 1
  }

  lemma LastIs(total: nat)
    requires 0 < total < 2 * WORDS
    ensures Last(total) == if total <= WORDS then total - 1 else total - WORDS - 1
  {
  }

  lemma WrappedTurns(size: nat, offset: nat, line: nat)
    requires offset < line < WORDS && size < WORDS && size + offset > WORDS
    ensures Turns(size, offset, line) == 0
  {
    LastIs(size + offset);
    DivBound(size + offset - WORDS - 1, line, 1);
  }

  lemma ManyBlocks(size: nat, offset: nat, line: nat)
    requires line > 0 && size + offset > line
    ensures (offset + size - 1) / line >= 1
  {
    DivBound(offset + size - 1, line, 1);
  }

  lemma WrappedCount(addr: nat, size: nat, line: nat)
    requires 0 < line < WORDS && 0 < size < WORDS && addr % line + size > WORDS
    ensures LineCount(addr, size, line) == 1 && Blocks(addr, size, line) > 1
  {
    WrappedTurns(size, addr % line, line);
    ManyBlocks(size, addr % line, line);
  }

  /** The loop runs once for each line that meets the range exactly when the
      range's size and its offset in its first line together fit the address space. */
  lemma CountExactly(addr: nat, size: nat, line: nat)
    requires 0 < line < WORDS && 0 < size < WORDS
    ensures LineCount(addr, size, line) == Blocks(addr, size, line) <==> addr % line + size <= WORDS
  {
    if addr % line + size > WORDS {
      WrappedCount(addr, size, line);
    } else {
      LastIs(size + addr % line);
    }
  }

  /** The line of an address, by its first byte. */
  function LineOf(a: nat, line: nat): nat
    requires line > 0
  {
    a - a % line
  }

  /** The instruction of some turn works on this line. */
  ghost predicate Touched(lines: seq<nat>, line: nat, p: nat)
    requires line > 0
  {
    exists i :: 0 <= i < |lines| && LineOf(lines[i], line) == p
  }

  /** The line of byte d of the range; addresses wrap. */
  function LineAt(addr: nat, d: nat, line: nat): nat
    requires line > 0
  {
    LineOf((addr + d) % WORDS, line)
  }

  /** Some byte of the range is in this line. */
  ghost predicate Met(addr: nat, size: nat, line: nat, p: nat)
    requires line > 0
  {
    exists d: nat :: d < size && LineAt(addr, d, line) == p
  }

  /** Line i counted from addr's. */
  function LineNumber(addr: nat, i: nat, line: nat): nat
    requires line > 0
  {
    (addr / line + i) * line % WORDS
  }

  /** Lines of a power of two fit the address space evenly, and not only once. */
  lemma LinesFit(k: nat) returns (m: nat)
    requires k < WORD_BITS
    ensures WORDS == m * Pow2(k) && m >= 2 && Pow2(k) < WORDS
  {
    m := Pow2(WORD_BITS - k);
    WordPower();
    PowersAdd(WORD_BITS - k, k);
    PowersGrow(k, WORD_BITS);
    PowersGrow(0, WORD_BITS - k);
  }

  lemma Regroup(h: nat, m: nat, line: nat)
    ensures h * (m * line) == h * m * line
  {
  }

  lemma LineOfWrapped(x: nat, line: nat, m: nat)
    requires line > 0 && WORDS == m * line
    ensures LineOf(x % WORDS, line) == x / line * line % WORDS
  {
    var h, l := x / WORDS, x % WORDS;
    Regroup(h, m, line);
    WrappedLine(x, h, l, h * m, line);
  }

  lemma Spread(a: nat, b: nat, line: nat)
    ensures (a + b) * line == a * line + b * line
  {
  }

  lemma WrappedLine(x: nat, h: nat, l: nat, n: nat, line: nat)
    requires line > 0 && n * line == h * WORDS && x == l + n * line && l < WORDS
    ensures l - l % line == x / line * line % WORDS
  {
    DivAdd(l, n, line);
    Spread(l / line, n, line);
    assert l / line * line == l - l % line;
    CutTo(l - l % line, h, x / line * line);
  }

  lemma CutTo(r: nat, h: nat, y: nat)
    requires y == r + h * WORDS && r < WORDS
    ensures y % WORDS == r
  {
  }

  /** Turn i works on line i, and byte d is in the line of its block. */
  lemma LineNumbers(addr: nat, i: nat, line: nat, m: nat)
    requires line > 0 && WORDS == m * line
    ensures LineOf((addr + i * line) % WORDS, line) == LineNumber(addr, i, line)
    ensures LineAt(addr, i, line) == LineNumber(addr, BlockOf(addr, i, line), line)
  {
    DivAdd(addr, i, line);
    LineOfWrapped(addr + i * line, line, m);
    BlockOfIs(addr, i, line);
    LineOfWrapped(addr + i, line, m);
  }

  lemma NextLineDiffers(addr: nat, line: nat)
    requires 0 < line < WORDS
    ensures LineNumber(addr, 1, line) != LineNumber(addr, 0, line)
  {
    var x := addr / line * line;
    assert (addr / line + 1) * line == x + line;
  }

  lemma TouchedAreNumbers(addr: nat, size: nat, line: nat, m: nat, lines: seq<nat>, p: nat)
    requires line > 0 && WORDS == m * line && IsLines(addr, size, line, lines)
    ensures Touched(lines, line, p) <==>
      exists i: nat :: i < LineCount(addr, size, line) && LineNumber(addr, i, line) == p
  {
    forall i: nat | i < |lines| ensures LineOf(lines[i], line) == LineNumber(addr, i, line) {
      LineNumbers(addr, i, line, m);
    }
  }

  lemma MetAreNumbers(addr: nat, size: nat, line: nat, m: nat, p: nat)
    requires line > 0 && WORDS == m * line && size > 0
    ensures Met(addr, size, line, p) <==>
      exists i: nat :: i < Blocks(addr, size, line) && LineNumber(addr, i, line) == p
  {
    if d: nat :| d < size && LineAt(addr, d, line) == p {
      ByteInBlock(addr, size, line, d);
      LineNumbers(addr, d, line, m);
    }
    if i: nat :| i < Blocks(addr, size, line) && LineNumber(addr, i, line) == p {
      var d := BlockHasByte(addr, size, line, i);
      LineNumbers(addr, d, line, m);
      assert LineAt(addr, d, line) == p;
    }
  }

  /** The loop works on exactly the lines that hold a byte of the range, if and
      only if size and offset together fit the address space. */
  lemma LinesExactly(addr: nat, size: nat, k: nat, lines: seq<nat>)
    requires k < WORD_BITS && addr < WORDS && size < WORDS && IsLines(addr, size, Pow2(k), lines)
    ensures (forall p: nat :: Touched(lines, Pow2(k), p) <==> Met(addr, size, Pow2(k), p))
       <==> addr % Pow2(k) + size <= WORDS
  {
    var line := Pow2(k);
    var m := LinesFit(k);
    if size == 0 {
      assert lines == [];
    } else {
      CountExactly(addr, size, line);
      if addr % line + size <= WORDS {
        forall p: nat ensures Touched(lines, line, p) <==> Met(addr, size, line, p) {
          TouchedAreNumbers(addr, size, line, m, lines, p);
          MetAreNumbers(addr, size, line, m, p);
        }
      } else {
        SecondLineMissed(addr, size, line, m, lines);
      }
    }
  }

  /** Otherwise it stops after the first line, and the second is met too. */
  lemma SecondLineMissed(addr: nat, size: nat, line: nat, m: nat, lines: seq<nat>)
    requires 0 < line < WORDS && WORDS == m * line && 0 < size < WORDS && IsLines(addr, size, line, lines)
    requires addr % line + size > WORDS
    ensures exists p: nat :: Met(addr, size, line, p) && !Touched(lines, line, p)
  {
    var p := LineNumber(addr, 1, line);
    WrappedCount(addr, size, line);
    NextLineDiffers(addr, line);
    TouchedAreNumbers(addr, size, line, m, lines, p);
    MetAreNumbers(addr, size, line, m, p);
  }

  // ----- the split counter

  const HALF: nat := 0x1_0000_0000

  /** A 32-bit half of the 64-bit counter after so many ticks. */
  function High(ticks: nat): nat {
    ticks / HALF % HALF
  }

  function Low(ticks: nat): nat {
    ticks % HALF
  }

  /** scr_l2_pmu_read: the ticks counted by its four register reads. */
  function SplitRead(t1: nat, t2: nat, t3: nat, t4: nat): nat {
    High(t3) * HALF + if High(t3) != High(t1) then Low(t4) else Low(t2)
  }

  /** The instant of the call whose value is read. */
  function Instant(t1: nat, t2: nat, t3: nat, t4: nat): nat {
    if t3 / HALF == t1 / HALF then t2 else t3 / HALF * HALF + Low(t4)
  }

  /** The value read is one the counter has during the call, though it wraps and
      however fast it ticks, as long as it does not come round again. */
  lemma SplitReadIsInstant(t1: nat, t2: nat, t3: nat, t4: nat)
    requires t1 <= t2 <= t3 <= t4 < t1 + WORDS - HALF
    ensures t1 <= Instant(t1, t2, t3, t4) <= t4
    ensures SplitRead(t1, t2, t3, t4) == Instant(t1, t2, t3, t4) % WORDS
  {
    WrappedValue(t3 / HALF, Low(t4));
    WrappedValue(t3 / HALF, Low(t2));
    if High(t3) == High(t1) {
      SameHigh(t1 / HALF, t3 / HALF);
    }
  }

  lemma WrappedValue(h: nat, l: nat)
    requires l < HALF
    ensures (h * HALF + l) % WORDS == h % HALF * HALF + l
  {
    assert h == h / HALF * HALF + h % HALF;
    assert h * HALF + l == h / HALF * WORDS + (h % HALF * HALF + l);
  }

  lemma SameHigh(h: nat, k: nat)
    requires h <= k < h + HALF && h % HALF == k % HALF
    ensures h == k
  {
  }

  /** With fewer than 2^32 ticks it is the value at the second or the fourth read. */
  lemma SlowCounter(t1: nat, t2: nat, t3: nat, t4: nat)
    requires t1 <= t2 <= t3 <= t4 < t1 + HALF
    ensures Instant(t1, t2, t3, t4) == t2 || Instant(t1, t2, t3, t4) == t4
  {
  }
}
