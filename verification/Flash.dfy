/** Writing the serial flash, src/xqspi.c:468-601, on a chip that erases a 4K
    sector to ones and programs a 256-byte page by clearing bits. */
module Flash {
  import Bits

  const SECTOR: nat := 4096      // XSP_FLASH_4K_PAGE_SIZE
  const PAGE: nat := 256         // XSP_FLASH_PAGE_SIZE
  const FIFO: nat := 256         // XSP_TX_FIFO_DEPTH
  const ADDRESSES: nat := 0x1_0000_0000  // four address bytes are sent

  newtype byte = x: int | 0 <= x < 256

  /** Bitwise and. */
  function And(x: byte, y: byte): (r: byte)
    ensures r <= x && r <= y
  {
    Bits.And(x as nat, y as nat) as byte
  }

  lemma OnesMask(m: nat, x: nat, width: nat)
    requires x <= m && m == Bits.Pow2(width) - 1
    ensures Bits.And(m, x) == x
  {
    Bits.AndLowMask(x, width);
    Bits.AndCommutes(m, x);
    Bits.ModIs(x, m + 1, 0, x);
  }

  lemma AndOnes(x: byte)
    ensures And(255, x) == x
  {
    var width := 8;
    assert Bits.Pow2(width) == 256;
    OnesMask(255, x as nat, width);
  }

  function Min(a: nat, b: nat): nat {
    if a < b then a else b
  }

  // ----- the chip

  /** Command 0x02 at address a with at most a page of data, seen from cell k:
      each byte clears bits, and past the end of a's page the place wraps to
      the start of that page. */
  function Programmed(v: byte, k: nat, a: nat, data: seq<byte>): byte {
    var j := (k + PAGE - a % PAGE) % PAGE;
    if k / PAGE == a / PAGE && j < |data| then And(v, data[j]) else v
  }

  /** Command 0x20, seen from cell k: the sector that contains a becomes all ones. */
  function Erased(v: byte, k: nat, a: nat): byte {
    if k / SECTOR == a / SECTOR then 255 else v
  }

  /** The address is the command's, as the processor knows it. */
  datatype Command = Erase(at: nat) | Program(at: nat, data: seq<byte>)

  /** What the chip does to cell k; four address bytes reach it. */
  function Obey(v: byte, k: nat, c: Command): byte {
    match c
    case Erase(a) => Erased(v, k, a % ADDRESSES)
    case Program(a, data) => Programmed(v, k, a % ADDRESSES, data)
  }

  /** The same for one cell. */
  function Chip(k: nat): (byte, Command) -> byte {
    (v: byte, c: Command) => Obey(v, k, c)
  }

  /** A cell once a series of commands has been carried out. */
  function After(obey: (byte, Command) -> byte, v: byte, log: seq<Command>): byte
    decreases |log|
  {
    if log == [] then v else obey(After(obey, v, log[..|log| - 1]), log[|log| - 1])
  }

  /** The whole chip once a series of commands has been carried out. */
  function Flashed(f: seq<byte>, log: seq<Command>): (r: seq<byte>)
    ensures |r| == |f|
    ensures forall k :: 0 <= k < |f| ==> r[k] == After(Chip(k), f[k], log)
  {
    seq(|f|, k requires 0 <= k < |f| => After(Chip(k), f[k], log))
  }

  /** The serial link to the chip: the commands sent to it. */
  class Link {
    var log: seq<Command>
    var page: seq<byte>      // data bytes of the program command being sent
    var at: nat              // its address

    constructor ()
      ensures log == []
    {
      log, page, at := [], [], 0;
    }

    /** xqspi_flash_4K_subsector_erase */
    method EraseSector(a: nat)
      modifies this`log
      ensures log == old(log) + [Erase(a)]
    {
      log := log + [Erase(a)];
    }

    /** Lines 545-556: write enable, command and address. */
    method BeginProgram(a: nat)
      modifies this`page, this`at
      ensures page == [] && at == a
    {
      page, at := [], a;
    }

    /** xqspi_tx32 of one data byte. */
    method Transmit(b: byte)
      modifies this`page
      ensures page == old(page) + [b]
    {
      page := page + [b];
    }

    /** Lines 587-597: deselect, then wait until the chip has programmed. */
    method EndProgram()
      requires |page| <= PAGE
      modifies this`log
      ensures log == old(log) + [Program(at, page)]
    {
      log := log + [Program(at, page)];
    }
  }

  // ----- what xqspi_flash_write sends, command by command

  /** How many units of the given length n bytes take. */
  function Units(n: nat, unit: nat): (r: nat)
    requires unit > 0
  {
    if n <= unit then (if n == 0 then 0 else 1) else 1 + Units(n - unit, unit)
  }

  lemma {:induction false} UnitsLeft(n: nat, unit: nat, c: nat)
    requires unit > 0
    ensures c < Units(n, unit) <==> c * unit < n
  {
    if c > 0 && n > unit {
      UnitsLeft(n - unit, unit, c - 1);
    } else if c > 0 {
      assert c * unit >= unit;
    }
  }

  /** Lines 526-529. */
  lemma {:induction false} SectorCount(n: nat)
    ensures Units(n, SECTOR) == n / SECTOR + if n % SECTOR != 0 then 1 else 0
  {
    if n > SECTOR {
      SectorCount(n - SECTOR);
    }
  }

  /** c series of commands, one after the other. */
  function Joined(part: nat -> seq<Command>, c: nat): seq<Command> {
    if c == 0 then [] else Joined(part, c - 1) + part(c - 1)
  }

  /** The program command for page c of the bytes [from, to). */
  function PageAt(addr: nat, buf: seq<byte>, from: nat, to: nat, c: nat): Command
    requires from <= to <= |buf|
  {
    Program(addr + c * PAGE, buf[Min(from + c * PAGE, to)..Min(from + (c + 1) * PAGE, to)])
  }

  /** The loop at 543-598 over the bytes [from, to). */
  function Pages(addr: nat, buf: seq<byte>, from: nat, to: nat): nat -> seq<Command>
    requires from <= to <= |buf|
  {
    (c: nat) => [PageAt(addr, buf, from, to, c)]
  }

  /** Lines 540-598: one sector. */
  function Sector(addr: nat, buf: seq<byte>, from: nat, to: nat): seq<Command>
    requires from <= to <= |buf|
  {
    [Erase(addr)] + Joined(Pages(addr, buf, from, to), Units(to - from, PAGE))
  }

  /** Turn c of the loop at 534-599. */
  function SectorAt(start: nat, buf: seq<byte>, c: nat): seq<Command> {
    Sector(start + c * SECTOR, buf, Min(c * SECTOR, |buf|), Min((c + 1) * SECTOR, |buf|))
  }

  function Sectors(start: nat, buf: seq<byte>): nat -> seq<Command> {
    (c: nat) => SectorAt(start, buf, c)
  }

  /** All that xqspi_flash_write sends. */
  function FlashCommands(start: nat, buf: seq<byte>): seq<Command> {
    Joined(Sectors(start, buf), Units(|buf|, SECTOR))
  }

  /** Lines 566-571: at most a full transmit buffer. */
  method Burst(link: Link, buf: seq<byte>, ptr: nat, i0: nat, wrSize: nat) returns (p: nat, i: nat)
    requires i0 <= wrSize && ptr + (wrSize - i0) <= |buf|
    modifies link`page
    ensures i == Min(i0 + FIFO, wrSize) && p == ptr + (i - i0)
    ensures link.page == old(link.page) + buf[ptr..p]
  {
    var j := 0;
    p, i := ptr, i0;
    while j < FIFO && i < wrSize
      invariant 0 <= j <= FIFO && i == i0 + j && i0 <= i <= wrSize && p == ptr + j
      invariant link.page == old(link.page) + buf[ptr..p]
    {
      link.Transmit(buf[p]);
      p, i, j := p + 1, i + 1, j + 1;
    }
  }

  /** Lines 545-597: one page. */
  method WritePage(link: Link, buf: seq<byte>, ptr: nat, end: nat, addr: nat, size: nat) returns (p: nat)
    requires ptr < end <= |buf| && 0 < size && end <= ptr + size
    requires size <= PAGE ==> end == ptr + size
    requires size > PAGE ==> ptr + PAGE <= end
    modifies link
    ensures p == Min(ptr + PAGE, end)
    ensures link.log == old(link.log) + [Program(addr, buf[ptr..p])]
  {
    link.BeginProgram(addr);
    var wrSize: nat := if size > PAGE then PAGE else size;
    var i: nat := 0;
    p := ptr;
    while i < wrSize
      invariant i <= wrSize && p == ptr + i && link.page == buf[ptr..p] && link.at == addr
      invariant link.log == old(link.log)
    {
      if p >= end {
        break;
      }
      p, i := Burst(link, buf, p, i, wrSize);
    }
    link.EndProgram();
  }

  /** A sector's data ends with a whole page, unless it ends the buffer. */
  lemma PageFits(size: nat, len: nat, c: nat)
    requires len == Min(SECTOR, size) && c * PAGE < len
    ensures (c + 1) * PAGE <= len || len == size
  {
    if len == SECTOR {
      assert c < 16;
    }
  }

  /** The loop at 543-598 before page c of the sector, which starts at byte ptr. */
  ghost predicate PageTurn(log: seq<Command>, now: seq<Command>, addr: nat, buf: seq<byte>, from: nat, to: nat,
                           c: nat, ptr: nat, next: nat)
    requires from <= to <= |buf|
  {
    now == log + [Erase(addr)] + Joined(Pages(addr, buf, from, to), c)
    && ptr == Min(from + c * PAGE, to) && next == addr + c * PAGE
    && c <= Units(to - from, PAGE)
  }

  lemma NextPageTurn(log: seq<Command>, now: seq<Command>, addr: nat, buf: seq<byte>, from: nat, to: nat,
                     c: nat, ptr: nat, next: nat)
    requires from <= to <= |buf| && PageTurn(log, now, addr, buf, from, to, c, ptr, next) && ptr < to
    ensures PageTurn(log, now + [Program(next, buf[ptr..Min(ptr + PAGE, to)])], addr, buf, from, to,
                     c + 1, Min(ptr + PAGE, to), next + PAGE)
  {
    UnitsLeft(to - from, PAGE, c);
    OneMore(log + [Erase(addr)], Pages(addr, buf, from, to), c);
    assert PageAt(addr, buf, from, to, c) == Program(next, buf[ptr..Min(ptr + PAGE, to)]);
  }

  lemma OneMore(log: seq<Command>, part: nat -> seq<Command>, c: nat)
    ensures log + Joined(part, c) + part(c) == log + Joined(part, c + 1)
  {
  }

  lemma LastPageTurn(log: seq<Command>, now: seq<Command>, addr: nat, buf: seq<byte>, from: nat, to: nat,
                     c: nat, ptr: nat, next: nat)
    requires from <= to <= |buf| && PageTurn(log, now, addr, buf, from, to, c, ptr, next) && ptr == to
    ensures now == log + Sector(addr, buf, from, to)
    ensures to - from == SECTOR ==> next == addr + SECTOR
  {
    UnitsLeft(to - from, PAGE, c);
    if c > 0 {
      UnitsLeft(to - from, PAGE, c - 1);
    }
    assert c == Units(to - from, PAGE);
    Regroup(log, [Erase(addr)], Joined(Pages(addr, buf, from, to), c));
  }

  /** Lines 540-598: one sector. */
  method WriteSector(link: Link, buf: seq<byte>, first: nat, end: nat, addr: nat, size: nat)
      returns (next: nat, left: nat)
    requires first < end <= |buf| && size == |buf| - first && end == first + Min(SECTOR, size)
    modifies link
    ensures link.log == old(link.log) + Sector(addr, buf, first, end)
    ensures left == |buf| - end
    ensures end - first == SECTOR ==> next == addr + SECTOR
  {
    var ptr: nat := first;
    ghost var c: nat := 0;
    next, left := addr, size;
    link.EraseSector(addr);
    ghost var log := old(link.log);
    while ptr < end
      invariant first <= ptr <= end && left == |buf| - ptr
      invariant PageTurn(log, link.log, addr, buf, first, end, c, ptr, next)
    {
      NextPageTurn(log, link.log, addr, buf, first, end, c, ptr, next);
      PageFits(|buf| - first, end - first, c);
      var p := WritePage(link, buf, ptr, end, next, left);
      next := next + PAGE;
      left := left - (p - ptr);
      ptr, c := p, c + 1;
    }
    LastPageTurn(log, link.log, addr, buf, first, end, c, ptr, next);
  }

  ghost predicate Sent(log: seq<Command>, now: seq<Command>, start: nat, buf: seq<byte>, c: nat) {
    now == log + Joined(Sectors(start, buf), c)
  }

  /** The loop at 534-599 before turn c. */
  ghost predicate Turn(log: seq<Command>, now: seq<Command>, start: nat, buf: seq<byte>, c: nat,
                       ptr: nat, addr: nat, size: nat) {
    Sent(log, now, start, buf, c) && ptr == Min(c * SECTOR, |buf|) && size == |buf| - ptr
    && (ptr < |buf| ==> addr == start + ptr)
  }

  lemma Regroup(a: seq<Command>, b: seq<Command>, c: seq<Command>)
    ensures a + b + c == a + (b + c)
  {
  }

  lemma NextTurn(log: seq<Command>, now: seq<Command>, start: nat, buf: seq<byte>, c: nat, ptr: nat, addr: nat,
                 size: nat, end: nat, next: nat)
    requires Turn(log, now, start, buf, c, ptr, addr, size) && ptr < |buf|
    requires end == ptr + Min(SECTOR, size) && (end - ptr == SECTOR ==> next == addr + SECTOR)
    ensures Turn(log, now + Sector(addr, buf, ptr, end), start, buf, c + 1, end, next, |buf| - end)
  {
    OneMore(log, Sectors(start, buf), c);
    assert SectorAt(start, buf, c) == Sector(addr, buf, ptr, end);
  }

  lemma FirstTurn(log: seq<Command>, start: nat, buf: seq<byte>)
    ensures Turn(log, log, start, buf, 0, 0, start, |buf|)
  {
  }

  lemma MoreTurns(log: seq<Command>, now: seq<Command>, start: nat, buf: seq<byte>, c: nat, ptr: nat, addr: nat,
                  size: nat)
    requires Turn(log, now, start, buf, c, ptr, addr, size) && c < Units(|buf|, SECTOR)
    ensures ptr < |buf|
  {
    UnitsLeft(|buf|, SECTOR, c);
  }

  /** Lines 526-529. */
  method NumSectors(size: nat) returns (n: nat)
    ensures n == Units(size, SECTOR)
  {
    SectorCount(size);
    n := size / SECTOR;
    if size % SECTOR != 0 {
      n := n + 1;
    }
  }

  /** Lines 540-598: one turn of the loop over sectors. */
  method NextSector(link: Link, buf: seq<byte>, ptr0: nat, addr: nat, size: nat,
                    ghost log: seq<Command>, ghost start: nat, ghost c: nat)
      returns (ptr: nat, next: nat, left: nat)
    requires Turn(log, link.log, start, buf, c, ptr0, addr, size) && ptr0 < |buf|
    modifies link
    ensures Turn(log, link.log, start, buf, c + 1, ptr, next, left)
  {
    ptr := ptr0 + if size > SECTOR then SECTOR else size;
    ghost var now := link.log;
    next, left := WriteSector(link, buf, ptr0, ptr, addr, size);
    NextTurn(log, now, start, buf, c, ptr0, addr, size, ptr, next);
  }

  /** xqspi_flash_write, lines 509-601. */
  method FlashWrite(link: Link, start: nat, buf: seq<byte>)
    modifies link
    ensures link.log == old(link.log) + FlashCommands(start, buf)
  {
    var numSectors := NumSectors(|buf|);
    ghost var log := link.log;
    var ptr: nat, curAddr: nat, size: nat, count: nat := 0, start, |buf|, 0;
    FirstTurn(log, start, buf);
    while count < numSectors
      invariant count <= numSectors
      invariant Turn(log, link.log, start, buf, count, ptr, curAddr, size)
    {
      MoreTurns(log, link.log, start, buf, count, ptr, curAddr, size);
      ptr, curAddr, size := NextSector(link, buf, ptr, curAddr, size, log, start, count);
      count := count + 1;
    }
  }
}
