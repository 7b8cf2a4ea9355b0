/** What a flash write leaves in the chip, and for which start addresses it is
    the buffer. */
module FlashTheorems {
  import opened Flash

  // ----- series of commands

  lemma {:induction false} AfterJoin(obey: (byte, Command) -> byte, v: byte, a: seq<Command>, b: seq<Command>)
    ensures After(obey, v, a + b) == After(obey, After(obey, v, a), b)
    decreases |b|
  {
    if b == [] {
      assert a + b == a;
    } else {
      AfterJoin(obey, v, a, b[..|b| - 1]);
      assert (a + b)[..|a + b| - 1] == a + b[..|b| - 1];
    }
  }

  lemma AfterOne(obey: (byte, Command) -> byte, v: byte, c: Command)
    ensures After(obey, v, [c]) == obey(v, c)
  {
    assert [c][..0] == [];
  }

  /** What a cell is after each part tells what it is after all of them. */
  lemma {:induction false} AfterParts(obey: (byte, Command) -> byte, part: nat -> seq<Command>, c: nat,
                                      cell: nat -> byte)
    requires forall i: nat :: i < c ==> After(obey, cell(i), part(i)) == cell(i + 1)
    ensures After(obey, cell(0), Joined(part, c)) == cell(c)
  {
    if c > 0 {
      AfterParts(obey, part, c - 1, cell);
      AfterJoin(obey, cell(0), Joined(part, c - 1), part(c - 1));
    }
  }

  // ----- one page program

  /** The data ends inside the page where it starts, or starts a page. */
  predicate PageSafe(a: nat, n: nat) {
    a % PAGE == 0 || a % PAGE + n <= PAGE
  }

  /** Cell k, worth v, after the n bytes from buf[from] on have cleared bits at address a. */
  function Cleared(v: byte, k: nat, a: nat, buf: seq<byte>, from: nat, n: nat): byte
    requires from + n <= |buf|
  {
    if a <= k < a + n then And(v, buf[from + (k - a)]) else v
  }

  lemma ProgramMeaning(v: byte, k: nat, a: nat, data: seq<byte>)
    requires a % PAGE + |data| <= PAGE
    ensures Programmed(v, k, a, data) == Cleared(v, k, a, data, 0, |data|)
  {
    assert a == a / PAGE * PAGE + a % PAGE && k == k / PAGE * PAGE + k % PAGE;
    if k / PAGE == a / PAGE {
      assert (k + PAGE - a % PAGE) % PAGE == if k >= a then k - a else k + PAGE - a;
    }
  }

  // ----- the programs of one sector

  /** Nothing is left for page c once the data has run out. */
  lemma PageIsSafe(addr: nat, buf: seq<byte>, from: nat, to: nat, c: nat)
    requires from <= to <= |buf| && PageSafe(addr, to - from)
    ensures var p := PageAt(addr, buf, from, to, c);
            p.data == [] || (c * PAGE < to - from && p.at % PAGE + |p.data| <= PAGE)
  {
    if addr % PAGE == 0 {
      assert (addr + c * PAGE) % PAGE == 0;
    }
  }

  lemma ProgramCleared(v: byte, k: nat, a: nat, data: seq<byte>)
    requires data == [] || (a % PAGE + |data| <= PAGE && a < ADDRESSES)
    ensures Obey(v, k, Program(a, data)) == Cleared(v, k, a, data, 0, |data|)
  {
    if data != [] {
      AddressFits(a);
      ProgramMeaning(v, k, a, data);
    }
  }

  lemma AddressFits(a: nat)
    requires a < ADDRESSES
    ensures a % ADDRESSES == a
  {
  }

  lemma ClearedOn(v: byte, k: nat, addr: nat, buf: seq<byte>, from: nat, to: nat, c: nat)
    requires from <= to <= |buf|
    ensures var p := PageAt(addr, buf, from, to, c);
            Cleared(Cleared(v, k, addr, buf, from, Min(c * PAGE, to - from)), k, p.at, p.data, 0, |p.data|)
            == Cleared(v, k, addr, buf, from, Min((c + 1) * PAGE, to - from))
  {
  }

  /** The cell after one more page. */
  lemma NextPage(v: byte, k: nat, addr: nat, buf: seq<byte>, from: nat, to: nat, c: nat, w: byte)
    requires from <= to <= |buf| && PageSafe(addr, to - from) && addr + (to - from) <= ADDRESSES
    requires w == Cleared(v, k, addr, buf, from, Min(c * PAGE, to - from))
    ensures Obey(w, k, PageAt(addr, buf, from, to, c))
         == Cleared(v, k, addr, buf, from, Min((c + 1) * PAGE, to - from))
  {
    var p := PageAt(addr, buf, from, to, c);
    PageIsSafe(addr, buf, from, to, c);
    ProgramCleared(w, k, p.at, p.data);
    ClearedOn(v, k, addr, buf, from, to, c);
  }

  /** A series of single commands. */
  lemma AfterCommands(obey: (byte, Command) -> byte, part: nat -> seq<Command>, command: nat -> Command, c: nat,
                      cell: nat -> byte)
    requires forall i: nat :: i < c ==> part(i) == [command(i)]
    requires forall i: nat :: i < c ==> obey(cell(i), command(i)) == cell(i + 1)
    ensures After(obey, cell(0), Joined(part, c)) == cell(c)
  {
    forall i: nat | i < c ensures After(obey, cell(i), part(i)) == cell(i + 1) {
      AfterOne(obey, cell(i), command(i));
    }
    AfterParts(obey, part, c, cell);
  }

  lemma PagesMeaning(v: byte, k: nat, addr: nat, buf: seq<byte>, from: nat, to: nat, c: nat)
    requires from <= to <= |buf| && PageSafe(addr, to - from) && addr + (to - from) <= ADDRESSES
    ensures After(Chip(k), v, Joined(Pages(addr, buf, from, to), c))
         == Cleared(v, k, addr, buf, from, Min(c * PAGE, to - from))
  {
    var cell := (i: nat) => Cleared(v, k, addr, buf, from, Min(i * PAGE, to - from));
    var command := (i: nat) => PageAt(addr, buf, from, to, i);
    forall i: nat | i < c ensures Chip(k)(cell(i), command(i)) == cell(i + 1) {
      NextPage(v, k, addr, buf, from, to, i, cell(i));
    }
    AfterCommands(Chip(k), Pages(addr, buf, from, to), command, c, cell);
  }

  // ----- the whole write

  /** How far start lies into its sector. */
  function Offset(start: nat): nat {
    start % SECTOR
  }

  /** Cells erased by the first c turns of the loop. */
  predicate Wiped(start: nat, c: nat, k: nat) {
    start - Offset(start) <= k < start - Offset(start) + c * SECTOR
  }

  /** Byte x of the buffer goes to the sector erased just before it is programmed. */
  predicate Fresh(start: nat, x: nat) {
    Offset(start) + x % SECTOR < SECTOR
  }

  /** Cell k, first worth v, after c turns of the loop. */
  function Cell(v: byte, k: nat, start: nat, buf: seq<byte>, c: nat): byte {
    var programmed := start <= k < start + Min(c * SECTOR, |buf|);
    if programmed && Fresh(start, k - start) then buf[k - start]
    else if Wiped(start, c, k) then 255
    else if programmed then And(v, buf[k - start])
    else v
  }

  /** Turn c erases the cells that become Wiped. */
  lemma ErasedAre(start: nat, c: nat, k: nat)
    ensures k / SECTOR == (start + c * SECTOR) / SECTOR <==> Wiped(start, c + 1, k) && !Wiped(start, c, k)
  {
    var s, t := start / SECTOR, k / SECTOR;
    assert start == s * SECTOR + Offset(start) && k == t * SECTOR + k % SECTOR;
    assert (start + c * SECTOR) / SECTOR == s + c;
  }

  /** Among the bytes of turn c the fresh ones are those in the sector it erases;
      among those of earlier turns the others are the ones before it. */
  lemma FreshAre(start: nat, c: nat, k: nat)
    requires start <= k < start + (c + 1) * SECTOR
    ensures k >= start + c * SECTOR ==> (Fresh(start, k - start) <==> Wiped(start, c + 1, k))
    ensures k < start + c * SECTOR && k >= start - Offset(start) + c * SECTOR ==> !Fresh(start, k - start)
  {
    var x := k - start;
    assert x == x / SECTOR * SECTOR + x % SECTOR;
    if k >= start + c * SECTOR {
      assert x / SECTOR == c;
    } else if k >= start - Offset(start) + c * SECTOR {
      assert x / SECTOR == c - 1;
    }
  }

  /** One sector: erased, then programmed. */
  function SectorCell(v: byte, k: nat, addr: nat, buf: seq<byte>, from: nat, to: nat): byte
    requires from <= to <= |buf|
  {
    Cleared(Erased(v, k, addr), k, addr, buf, from, to - from)
  }

  lemma AfterSector(obey: (byte, Command) -> byte, v: byte, addr: nat, buf: seq<byte>, from: nat, to: nat,
                    w: byte, r: byte)
    requires from <= to <= |buf| && obey(v, Erase(addr)) == w
    requires After(obey, w, Joined(Pages(addr, buf, from, to), Units(to - from, PAGE))) == r
    ensures After(obey, v, Sector(addr, buf, from, to)) == r
  {
    AfterJoin(obey, v, [Erase(addr)], Joined(Pages(addr, buf, from, to), Units(to - from, PAGE)));
    AfterOne(obey, v, Erase(addr));
  }

  lemma EraseMeaning(v: byte, k: nat, addr: nat)
    requires addr < ADDRESSES
    ensures Chip(k)(v, Erase(addr)) == Erased(v, k, addr)
  {
    AddressFits(addr);
  }

  /** The pages that cover all the bytes. */
  lemma AllPages(v: byte, k: nat, addr: nat, buf: seq<byte>, from: nat, to: nat)
    requires from <= to <= |buf| && PageSafe(addr, to - from) && addr + (to - from) <= ADDRESSES
    ensures After(Chip(k), v, Joined(Pages(addr, buf, from, to), Units(to - from, PAGE)))
         == Cleared(v, k, addr, buf, from, to - from)
  {
    var n := Units(to - from, PAGE);
    PagesMeaning(v, k, addr, buf, from, to, n);
    UnitsLeft(to - from, PAGE, n);
  }

  lemma SectorMeaning(v: byte, k: nat, addr: nat, buf: seq<byte>, from: nat, to: nat)
    requires from < to <= |buf| && PageSafe(addr, to - from) && addr + (to - from) <= ADDRESSES
    ensures After(Chip(k), v, Sector(addr, buf, from, to)) == SectorCell(v, k, addr, buf, from, to)
  {
    var w := Erased(v, k, addr);
    EraseMeaning(v, k, addr);
    AllPages(w, k, addr, buf, from, to);
    AfterSector(Chip(k), v, addr, buf, from, to, w, SectorCell(v, k, addr, buf, from, to));
  }

  /** The cell after turn c, from the one before it. */
  lemma SectorTurn(v: byte, k: nat, start: nat, buf: seq<byte>, c: nat)
    requires c * SECTOR < |buf|
    ensures SectorCell(Cell(v, k, start, buf, c), k, start + c * SECTOR, buf, c * SECTOR, Min((c + 1) * SECTOR, |buf|))
         == Cell(v, k, start, buf, c + 1)
  {
    ErasedAre(start, c, k);
    if start <= k < start + (c + 1) * SECTOR {
      FreshAre(start, c, k);
    }
    AndOnes(if 0 <= k - start < |buf| then buf[k - start] else 0);
  }

  lemma SectorSafe(start: nat, n: nat, c: nat)
    requires PageSafe(start, n) && c * SECTOR < n
    ensures PageSafe(start + c * SECTOR, Min((c + 1) * SECTOR, n) - c * SECTOR)
  {
    if start % PAGE == 0 {
      assert start + c * SECTOR == (start / PAGE + 16 * c) * PAGE;
    }
  }

  /** The cell after one more sector. */
  lemma NextSector(v: byte, k: nat, start: nat, buf: seq<byte>, c: nat, w: byte)
    requires PageSafe(start, |buf|) && start + |buf| <= ADDRESSES
    requires c < Units(|buf|, SECTOR) && w == Cell(v, k, start, buf, c)
    ensures After(Chip(k), w, SectorAt(start, buf, c)) == Cell(v, k, start, buf, c + 1)
  {
    UnitsLeft(|buf|, SECTOR, c);
    SectorSafe(start, |buf|, c);
    SectorMeaning(w, k, start + c * SECTOR, buf, c * SECTOR, Min((c + 1) * SECTOR, |buf|));
    SectorTurn(v, k, start, buf, c);
  }

  lemma {:induction false} SectorsMeaning(v: byte, k: nat, start: nat, buf: seq<byte>, c: nat)
    requires PageSafe(start, |buf|) && start + |buf| <= ADDRESSES
    requires c <= Units(|buf|, SECTOR)
    ensures After(Chip(k), v, Joined(Sectors(start, buf), c)) == Cell(v, k, start, buf, c)
  {
    var cell := (i: nat) => Cell(v, k, start, buf, i);
    forall i: nat | i < c ensures After(Chip(k), cell(i), Sectors(start, buf)(i)) == cell(i + 1) {
      NextSector(v, k, start, buf, i, cell(i));
    }
    AfterParts(Chip(k), Sectors(start, buf), c, cell);
  }

  /** The chip after xqspi_flash_write. */
  function Written(f: seq<byte>, start: nat, buf: seq<byte>): (r: seq<byte>)
    ensures |r| == |f|
  {
    Flashed(f, FlashCommands(start, buf))
  }

  /** Every cell of the chip after a write whose pages do not wrap. */
  lemma WrittenCell(f: seq<byte>, start: nat, buf: seq<byte>, k: nat)
    requires PageSafe(start, |buf|) && start + |buf| <= ADDRESSES && k < |f|
    ensures Written(f, start, buf)[k] == Cell(f[k], k, start, buf, Units(|buf|, SECTOR))
  {
    SectorsMeaning(f[k], k, start, buf, Units(|buf|, SECTOR));
  }

  /** A write from the start of a sector: the buffer, ones to the end of its
      last sector, and nothing else. */
  lemma AlignedWrite(f: seq<byte>, start: nat, buf: seq<byte>, k: nat)
    requires start % SECTOR == 0 && start + |buf| <= |f| <= ADDRESSES && k < |f|
    ensures Written(f, start, buf)[k]
         == if k < start then f[k]
            else if k < start + |buf| then buf[k - start]
            else if k < start + Units(|buf|, SECTOR) * SECTOR then 255
            else f[k]
  {
    assert start == start / SECTOR * 16 * PAGE;
    UnitsLeft(|buf|, SECTOR, Units(|buf|, SECTOR));
    WrittenCell(f, start, buf, k);
  }

  // ----- each program stays in one page

  ghost predicate StaysInPage(c: Command) {
    c.Program? ==> c.at % PAGE + |c.data| <= PAGE
  }

  ghost predicate AllStay(log: seq<Command>) {
    forall i :: 0 <= i < |log| ==> StaysInPage(log[i])
  }

  lemma {:induction false} JoinedStay(part: nat -> seq<Command>, c: nat)
    requires forall i: nat :: i < c ==> AllStay(part(i))
    ensures AllStay(Joined(part, c))
  {
    if c > 0 {
      JoinedStay(part, c - 1);
    }
  }

  lemma SectorStays(addr: nat, buf: seq<byte>, from: nat, to: nat)
    requires from <= to <= |buf| && PageSafe(addr, to - from)
    ensures AllStay(Sector(addr, buf, from, to))
  {
    var part, n := Pages(addr, buf, from, to), Units(to - from, PAGE);
    forall i: nat | i < n ensures AllStay(part(i)) {
      UnitsLeft(to - from, PAGE, i);
      PageIsSafe(addr, buf, from, to, i);
    }
    JoinedStay(part, n);
  }

  /** The bytes of turn s. */
  ghost predicate IsTurn(buf: seq<byte>, s: nat, from: nat, to: nat) {
    from == s * SECTOR && from < to == Min(from + SECTOR, |buf|)
  }

  lemma TurnIs(start: nat, buf: seq<byte>, s: nat) returns (from: nat, to: nat)
    requires s < Units(|buf|, SECTOR)
    ensures IsTurn(buf, s, from, to) && SectorAt(start, buf, s) == Sector(start + from, buf, from, to)
  {
    UnitsLeft(|buf|, SECTOR, s);
    from, to := s * SECTOR, Min((s + 1) * SECTOR, |buf|);
  }

  lemma TurnSafe(start: nat, buf: seq<byte>, s: nat, from: nat, to: nat)
    requires PageSafe(start, |buf|) && IsTurn(buf, s, from, to)
    ensures PageSafe(start + from, to - from)
  {
    SectorSafe(start, |buf|, s);
  }

  lemma TurnStays(start: nat, buf: seq<byte>, s: nat)
    requires PageSafe(start, |buf|) && s < Units(|buf|, SECTOR)
    ensures AllStay(SectorAt(start, buf, s))
  {
    var from, to := TurnIs(start, buf, s);
    TurnSafe(start, buf, s, from, to);
    SectorStays(start + from, buf, from, to);
  }

  /** Every program command stays in the page where it starts. */
  lemma ProgramsStayInPage(start: nat, buf: seq<byte>)
    requires PageSafe(start, |buf|)
    ensures AllStay(FlashCommands(start, buf))
  {
    var part, n := Sectors(start, buf), Units(|buf|, SECTOR);
    forall i: nat | i < n ensures AllStay(part(i)) {
      TurnStays(start, buf, i);
    }
    JoinedStay(part, n);
  }

  // ----- for which start addresses the buffer reads back

  ghost predicate ReadsBack(n: nat, start: nat, size: nat)
    requires start + size <= n
  {
    forall f: seq<byte>, buf: seq<byte> :: |f| == n && |buf| == size ==>
      Written(f, start, buf)[start..start + size] == buf
  }

  /** What a caller can check: the data ends in the page where it starts, or
      starts a page and ends in the sector where it starts, or starts a sector. */
  predicate Placed(start: nat, size: nat) {
    start % PAGE + size <= PAGE
    || (start % PAGE == 0 && start % SECTOR + size <= SECTOR)
    || start % SECTOR == 0
  }

  lemma PlacedByte(f: seq<byte>, start: nat, buf: seq<byte>, x: nat)
    requires start + |buf| <= |f| <= ADDRESSES && Placed(start, |buf|) && x < |buf|
    ensures Written(f, start, buf)[start + x] == buf[x]
  {
    SafeAndFresh(start, |buf|, x);
    UnitsLeft(|buf|, SECTOR, Units(|buf|, SECTOR));
    WrittenCell(f, start, buf, start + x);
  }

  lemma PlacedIsEnough(f: seq<byte>, start: nat, buf: seq<byte>)
    requires start + |buf| <= |f| <= ADDRESSES && Placed(start, |buf|)
    ensures Written(f, start, buf)[start..start + |buf|] == buf
  {
    forall x | 0 <= x < |buf| ensures Written(f, start, buf)[start + x] == buf[x] {
      PlacedByte(f, start, buf, x);
    }
  }

  lemma SafeAndFresh(start: nat, size: nat, x: nat)
    requires Placed(start, size) && x < size
    ensures PageSafe(start, size) && Fresh(start, x)
  {
    assert start == start / SECTOR * SECTOR + start % SECTOR;
    assert start % SECTOR == start % SECTOR / PAGE * PAGE + start % SECTOR % PAGE;
    assert start == (start / SECTOR * 16 + start % SECTOR / PAGE) * PAGE + start % SECTOR % PAGE;
    assert start % PAGE == start % SECTOR % PAGE;
  }

  function At(buf: seq<byte>, x: nat): byte {
    if x < |buf| then buf[x] else 0
  }

  /** All bytes are ones but byte x. */
  ghost predicate OnesBut(buf: seq<byte>, x: nat) {
    At(buf, x) == 0 && forall y: nat :: y < |buf| && y != x ==> At(buf, y) == 255
  }

  /** The byte that should open the next page is wrapped to the start of this one. */
  /** The cell that opens the page after start's, seen from a program p pages on. */
  lemma PlaceInProgram(start: nat, p: nat, k: nat, a: nat)
    requires start % PAGE > 0 && k == start + PAGE - start % PAGE && a == start + p * PAGE
    ensures (k + PAGE - a % PAGE) % PAGE == PAGE - start % PAGE && (k / PAGE == a / PAGE <==> p == 1)
  {
    var s, o := start / PAGE, start % PAGE;
    assert k == (s + 1) * PAGE && a == (s + p) * PAGE + o;
    assert a % PAGE == o && a / PAGE == s + p && k / PAGE == s + 1;
  }

  lemma NeverCleared(a: nat, p: nat, data: seq<byte>, start: nat, buf: seq<byte>)
    requires start % PAGE > 0 && OnesBut(buf, PAGE - start % PAGE)
    requires a == start + p * PAGE && p * PAGE + |data| <= |buf| && |data| <= PAGE
    requires data == buf[p * PAGE..p * PAGE + |data|]
    ensures Programmed(255, start + PAGE - start % PAGE, a, data) == 255
  {
    var x := PAGE - start % PAGE;
    PlaceInProgram(start, p, start + PAGE - start % PAGE, a);
    if p == 1 && x < |data| {
      assert data[x] == At(buf, PAGE + x);
      AndOnes(255);
    }
  }

  /** The cell that opens the second page, and a buffer with zero only there. */
  ghost predicate Wrapping(start: nat, buf: seq<byte>, cell: nat) {
    start % PAGE > 0 && cell == start + PAGE - start % PAGE
    && OnesBut(buf, PAGE - start % PAGE) && start + |buf| <= ADDRESSES
  }

  /** Page c of sector s. */
  lemma PageKeepsOnes(start: nat, buf: seq<byte>, cell: nat, s: nat, from: nat, to: nat, c: nat, w: byte)
    requires Wrapping(start, buf, cell) && IsTurn(buf, s, from, to) && w == 255
    ensures Obey(w, cell, PageAt(start + from, buf, from, to, c)) == w
  {
    var p := PageAt(start + from, buf, from, to, c);
    if p.data != [] {
      ProgramKeepsOnes(start, buf, cell, s * 16 + c, p.at, p.data);
    }
  }

  lemma ProgramKeepsOnes(start: nat, buf: seq<byte>, cell: nat, p: nat, a: nat, chunk: seq<byte>)
    requires Wrapping(start, buf, cell) && a == start + p * PAGE
    requires 0 < |chunk| <= PAGE && p * PAGE + |chunk| <= |buf| && chunk == buf[p * PAGE..p * PAGE + |chunk|]
    ensures Obey(255, cell, Program(a, chunk)) == 255
  {
    AddressFits(a);
    NeverCleared(a, p, chunk, start, buf);
  }

  /** A sector whose commands each leave a cell alone leaves it alone. */
  lemma SectorKeeps(obey: (byte, Command) -> byte, w: byte, addr: nat, buf: seq<byte>, from: nat, to: nat)
    requires from <= to <= |buf| && obey(w, Erase(addr)) == w
    requires forall i: nat :: obey(w, PageAt(addr, buf, from, to, i)) == w
    ensures After(obey, w, Sector(addr, buf, from, to)) == w
  {
    var n := Units(to - from, PAGE);
    AfterCommands(obey, Pages(addr, buf, from, to), (i: nat) => PageAt(addr, buf, from, to, i), n, (i: nat) => w);
    AfterSector(obey, w, addr, buf, from, to, w, w);
  }

  lemma SectorKeepsOnes(start: nat, buf: seq<byte>, cell: nat, s: nat, from: nat, to: nat, w: byte)
    requires Wrapping(start, buf, cell) && IsTurn(buf, s, from, to) && w == 255
    ensures After(Chip(cell), w, Sector(start + from, buf, from, to)) == w
  {
    var addr := start + from;
    EraseMeaning(w, cell, addr);
    forall i: nat ensures Chip(cell)(w, PageAt(addr, buf, from, to, i)) == w {
      PageKeepsOnes(start, buf, cell, s, from, to, i, w);
    }
    SectorKeeps(Chip(cell), w, addr, buf, from, to);
  }

  lemma TurnKeepsOnes(start: nat, buf: seq<byte>, cell: nat, i: nat, w: byte)
    requires Wrapping(start, buf, cell) && w == 255 && i < Units(|buf|, SECTOR)
    ensures After(Chip(cell), w, SectorAt(start, buf, i)) == w
  {
    var from, to := TurnIs(start, buf, i);
    SectorKeepsOnes(start, buf, cell, i, from, to, w);
  }

  lemma SectorsKeepOnes(start: nat, buf: seq<byte>, cell: nat, w: byte)
    requires Wrapping(start, buf, cell) && w == 255
    ensures After(Chip(cell), w, FlashCommands(start, buf)) == w
  {
    var n := Units(|buf|, SECTOR);
    forall i: nat | i < n ensures After(Chip(cell), w, Sectors(start, buf)(i)) == w {
      TurnKeepsOnes(start, buf, cell, i, w);
    }
    AfterParts(Chip(cell), Sectors(start, buf), n, (i: nat) => w);
  }

  lemma WrittenStaysOnes(f: seq<byte>, start: nat, buf: seq<byte>, cell: nat)
    requires Wrapping(start, buf, cell) && cell < |f| && f[cell] == 255
    ensures Written(f, start, buf)[cell] == 255
  {
    SectorsKeepOnes(start, buf, cell, f[cell]);
  }

  lemma ReadsElse(w: seq<byte>, buf: seq<byte>, start: nat, x: nat)
    requires start + |buf| <= |w| && x < |buf| && w[start + x] != buf[x]
    ensures w[start..start + |buf|] != buf
  {
    assert w[start..start + |buf|][x] == w[start + x];
  }

  lemma WrappedByte(f: seq<byte>, start: nat, buf: seq<byte>, cell: nat, w: seq<byte>)
    requires Wrapping(start, buf, cell) && cell < |f| && f[cell] == 255 && w == Written(f, start, buf)
    ensures w[cell] == 255
  {
    WrittenStaysOnes(f, start, buf, cell);
  }

  /** Pages that wrap lose the byte that should open the second page. */
  lemma WrappedIsLost(n: nat, start: nat, size: nat) returns (f: seq<byte>, buf: seq<byte>)
    requires start + size <= n <= ADDRESSES && !PageSafe(start, size)
    ensures |f| == n && |buf| == size && Written(f, start, buf)[start..start + size] != buf
  {
    var x := PAGE - start % PAGE;
    f := seq(n, _ => 255);
    buf := seq(size, y => if y == x then 0 else 255);
    var w := Written(f, start, buf);
    WrappedByte(f, start, buf, start + x, w);
    ReadsElse(w, buf, start, x);
  }

  /** The byte that should open the next sector. */
  lemma SpilledCell(v: byte, start: nat, buf: seq<byte>, x: nat)
    requires x == SECTOR - Offset(start) < |buf| && Offset(start) > 0
    ensures Cell(v, start + x, start, buf, Units(|buf|, SECTOR))
         == if |buf| > SECTOR then 255 else And(v, buf[x])
  {
    UnitsLeft(|buf|, SECTOR, Units(|buf|, SECTOR));
    UnitsLeft(|buf|, SECTOR, 1);
  }

  lemma SpilledByte(f: seq<byte>, start: nat, buf: seq<byte>, x: nat)
    requires start + |buf| <= |f| <= ADDRESSES && PageSafe(start, |buf|)
    requires x == SECTOR - Offset(start) < |buf| && Offset(start) > 0 && f[start + x] == 0
    ensures Written(f, start, buf)[start + x] == if |buf| > SECTOR then 255 else 0
  {
    SpilledCell(f[start + x], start, buf, x);
    WrittenCell(f, start, buf, start + x);
  }

  /** Off the start of a sector, the byte that should open the next sector is
      programmed before that sector is erased, or never after an erase. */
  lemma SpilledIsLost(n: nat, start: nat, size: nat) returns (f: seq<byte>, buf: seq<byte>)
    requires start + size <= n <= ADDRESSES && PageSafe(start, size) && !Placed(start, size)
    ensures |f| == n && |buf| == size && Written(f, start, buf)[start..start + size] != buf
  {
    var x := SECTOR - Offset(start);
    f := seq(n, _ => 0);
    buf := seq(size, _ => if size > SECTOR then 0 else 255);
    SpilledByte(f, start, buf, x);
    assert Written(f, start, buf)[start..start + size][x] == Written(f, start, buf)[start + x];
  }

  /** The exact condition under which every buffer reads back from every chip. */
  lemma ReadsBackExactly(n: nat, start: nat, size: nat)
    requires start + size <= n <= ADDRESSES
    ensures ReadsBack(n, start, size) <==> Placed(start, size)
  {
    if Placed(start, size) {
      forall f: seq<byte>, buf: seq<byte> | |f| == n && |buf| == size
        ensures Written(f, start, buf)[start..start + size] == buf
      {
        PlacedIsEnough(f, start, buf);
      }
    } else if PageSafe(start, size) {
      var f, buf := SpilledIsLost(n, start, size);
    } else {
      var f, buf := WrappedIsLost(n, start, size);
    }
  }
}
