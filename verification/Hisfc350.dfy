/**
  The HISFC350 driver (agent/spi_flash_hisfc350.c:86-89, 149-199, 268-412): a chip of up to 32 MiB behind a
  16 MiB window, against a plain array of cells.
 */
module Hisfc350 {
  import opened Bytes
  import opened Flash
  import Crc32

  /** What a 24-bit address reaches. */
  const Window: nat := 0x1000000
  const PageSize: nat := 256
  const CmdBufMax: nat := 64
  const Nor: Geometry := Geometry(0x10000, 256)
  const BpMask: byte := 0x7C

  // ---------------------------------------------------------------- the chip

  /** A page program that reaches the end of its page goes on at the beginning of it. */
  function ProgramWrapped(f: seq<byte>, at: nat, d: seq<byte>): (r: seq<byte>)
    requires |d| <= PageSize
    ensures |r| == |f|
  {
    seq(|f|, j requires 0 <= j < |f| =>
      if j / PageSize == at / PageSize && (j - at) % PageSize < |d| then f[j] & d[(j - at) % PageSize] else f[j])
  }

  lemma PagePlace(at: nat, j: nat, n: nat)
    requires at % PageSize + n <= PageSize
    ensures (j / PageSize == at / PageSize && (j - at) % PageSize < n) <==> at <= j < at + n
    ensures at <= j < at + n ==> (j - at) % PageSize == j - at
  {
  }

  /** Inside one page that is plain programming. */
  lemma NoWrap(f: seq<byte>, at: nat, d: seq<byte>)
    requires at % PageSize + |d| <= PageSize && at + |d| <= |f|
    ensures ProgramWrapped(f, at, d) == Program(f, at, d)
  {
    forall j | 0 <= j < |f|
      ensures ProgramWrapped(f, at, d)[j] == Program(f, at, d)[j]
    {
      PagePlace(at, j, |d|);
    }
  }

  /** A serial NOR chip with an extended address register for the 25th address bit. */
  class Chip {
    const cells: array<byte>
    /** Extended address register. */
    var ear: byte
    /** Status register; its block-protect bits lock every cell. */
    var sr: byte
    /** Write-enable latch. */
    var wel: bool

    ghost predicate Valid()
      reads this
    {
      && Nor.sector <= cells.Length && cells.Length % Nor.sector == 0
      && (cells.Length <= Window || cells.Length == 2 * Window)
    }

    /** Where a 24-bit address leads. */
    function Physical(a24: nat): nat
      reads this
    {
      a24 + if cells.Length > Window && ear & 0x01 != 0 then Window else 0
    }

    predicate Writable()
      reads this
    {
      wel && sr & BpMask == 0
    }

    /** The AHB read window. */
    method Read(a24: nat, n: nat) returns (d: seq<byte>)
      requires Valid() && a24 + n <= Window && Physical(a24) + n <= cells.Length
      ensures d == cells[Physical(a24)..Physical(a24) + n]
    {
      d := cells[Physical(a24)..Physical(a24) + n];
    }

    method WriteEnable()
      modifies this
      ensures wel && ear == old(ear) && sr == old(sr)
    {
      wel := true;
    }

    method WriteEar(v: byte)
      modifies this
      ensures !wel && sr == old(sr) && ear == if old(wel) then v else old(ear)
    {
      if wel {
        ear := v;
      }
      wel := false;
    }

    method WriteStatus(v: byte)
      modifies this
      ensures !wel && ear == old(ear) && sr == if old(wel) then v else old(sr)
    {
      if wel {
        sr := v;
      }
      wel := false;
    }

    method SectorErase(a24: nat)
      requires Valid() && SectorBase(Nor, Physical(a24)) + Nor.sector <= cells.Length
      modifies this, cells
      ensures !wel && ear == old(ear) && sr == old(sr)
      ensures cells[..] == if old(Writable()) then EraseSector(Nor, old(cells[..]), old(Physical(a24))) else old(cells[..])
    {
      if Writable() {
        var base := SectorBase(Nor, Physical(a24));
        forall i | 0 <= i < Nor.sector {
          cells[base + i] := 0xFF;
        }
      }
      wel := false;
    }

    method PageProgram(a24: nat, d: seq<byte>)
      requires Valid() && |d| <= PageSize
      modifies this, cells
      ensures !wel && ear == old(ear) && sr == old(sr)
      ensures cells[..] == if old(Writable()) then ProgramWrapped(old(cells[..]), old(Physical(a24)), d) else old(cells[..])
    {
      if Writable() {
        var after := ProgramWrapped(cells[..], Physical(a24), d);
        forall j | 0 <= j < cells.Length {
          cells[j] := after[j];
        }
      }
      wel := false;
    }
  }

  // ---------------------------------------------------------------- the driver

  lemma Unlocked(sr: byte)
    ensures (sr & !BpMask) & BpMask == 0
  {
  }

  lemma BankBit()
    ensures (0 as byte) & 0x01 == 0 && (1 as byte) & 0x01 != 0
  {
  }

  /** `addr` inside its bank. */
  lemma InBank(addr: nat)
    requires addr < 2 * Window
    ensures addr % Window + (if addr >= Window then Window else 0) == addr
  {
  }

  predicate AllFf(s: seq<byte>) {
    forall i | 0 <= i < |s| :: s[i] == 0xFF
  }

  /** What the check after an erase looks at. */
  predicate SamplesErased(s: seq<byte>) {
    AllFf(s[..Min(|s|, 16)]) && (|s| > 32 ==> AllFf(s[|s| - 16..]))
  }

  /** On the cells: the first 16 bytes, and the last 16 of more than 32. */
  lemma SamplesAre(cells: seq<byte>, at: nat, len: nat)
    requires at + len <= |cells|
    ensures SamplesErased(cells[at..at + len])
            <==> (forall i | at <= i < at + Min(len, 16) :: cells[i] == 0xFF)
                 && (len > 32 ==> forall i | at + len - 16 <= i < at + len :: cells[i] == 0xFF)
  {
    var s := cells[at..at + len];
    EndAre(cells, at, at + Min(len, 16));
    assert s[..Min(len, 16)] == cells[at..at + Min(len, 16)];
    if len > 32 {
      EndAre(cells, at + len - 16, at + len);
      assert s[len - 16..] == cells[at + len - 16..at + len];
    }
  }

  lemma EndAre(cells: seq<byte>, from: nat, to: nat)
    requires from <= to <= |cells|
    ensures AllFf(cells[from..to]) <==> forall i | from <= i < to :: cells[i] == 0xFF
  {
    assert forall i | from <= i < to :: cells[i] == cells[from..to][i - from];
  }

  class Driver {
    const chip: Chip
    var needsBankSwitch: bool
    /** 0xFF stands for "unknown". */
    var currentBank: byte

    /** Once initialised, the cached bank is the chip's bank register. */
    ghost predicate Valid()
      reads this, chip
    {
      && chip.Valid()
      && needsBankSwitch == (chip.cells.Length > Window)
      && (needsBankSwitch ==> currentBank == chip.ear && (currentBank == 0 || currentBank == 1))
    }

    /** Everything but the cells may change under an operation. */
    ghost predicate Reaches(addr: nat)
      reads this, chip
    {
      Valid() && (needsBankSwitch ==> currentBank == if addr >= Window then 1 else 0)
    }

    /** The part of `flash_init` behind the probe: whatever the bank register held, it is known from here on. */
    constructor (chip: Chip)
      requires chip.Valid()
      modifies chip
      ensures Valid() && this.chip == chip && chip.sr == old(chip.sr)
    {
      this.chip := chip;
      needsBankSwitch, currentBank := false, 0xFF;
      new;
      if chip.cells.Length > Window {
        needsBankSwitch := true;
        SelectBank(0);
      }
    }

    /** `flash_select_bank` */
    method SelectBank(bank: byte)
      requires bank == 0 || bank == 1
      requires currentBank != 0xFF ==> Valid()
      requires chip.Valid() && needsBankSwitch == (chip.cells.Length > Window)
      modifies this, chip
      ensures Valid() && needsBankSwitch == old(needsBankSwitch) && chip.sr == old(chip.sr)
      ensures needsBankSwitch ==> currentBank == bank
    {
      if !needsBankSwitch || bank == currentBank {
        return;
      }
      chip.WriteEnable();
      chip.WriteEar(if bank != 0 then 0x01 else 0x00);
      currentBank := bank;
    }

    lemma PhysicalIs(addr: nat)
      requires Reaches(addr) && addr < chip.cells.Length
      ensures chip.Physical(addr % Window) == addr
    {
      InBank(addr);
      BankBit();
    }

    /** One turn of `flash_walk_banked`: the bytes of the range that lie in the bank of its first. */
    method WalkChunk(addr: nat, len: nat) returns (p: seq<byte>)
      requires Valid() && needsBankSwitch && 0 < len && addr + len <= chip.cells.Length
      modifies this, chip
      ensures Valid() && chip.sr == old(chip.sr) && needsBankSwitch
      ensures 0 < |p| <= len && p == chip.cells[addr..addr + |p|]
    {
      SelectBank(if addr >= Window then 1 else 0);
      PhysicalIs(addr);
      InBank(addr);
      var off := addr % Window;
      var avail := Window - off;
      p := chip.Read(off, if len < avail then len else avail);
    }

    /** `flash_read` */
    method Read(addr: nat, len: nat) returns (buf: seq<byte>)
      requires Valid() && addr + len <= chip.cells.Length
      modifies this, chip
      ensures Valid() && chip.sr == old(chip.sr)
      ensures buf == chip.cells[addr..addr + len]
    {
      if !needsBankSwitch {
        buf := chip.Read(addr, len);
        return;
      }
      buf := [];
      var at, left := addr, len;
      while left > 0
        invariant Valid() && needsBankSwitch && chip.sr == old(chip.sr)
        invariant addr <= at && 0 <= left && at + left == addr + len && buf == chip.cells[addr..at]
      {
        var p := WalkChunk(at, left);
        buf := buf + p;
        at, left := at + |p|, left - |p|;
      }
    }

    /** `crc_step` on one chunk of the walk. */
    method CrcChunk(addr: nat, at: nat, left: nat, crc: bv32) returns (crc': bv32, n: nat)
      requires Valid() && needsBankSwitch && 0 < left && addr <= at && at + left <= chip.cells.Length
      requires crc == Crc32.Crc(0, chip.cells[addr..at])
      modifies this, chip
      ensures Valid() && needsBankSwitch && chip.sr == old(chip.sr)
      ensures 0 < n <= left && crc' == Crc32.Crc(0, chip.cells[addr..at + n])
    {
      var p := WalkChunk(at, left);
      n := |p|;
      crc' := Crc32.CrcNext(crc, chip.cells[addr..at], p);
      assert chip.cells[addr..at] + p == chip.cells[addr..at + n];
    }

    /** `flash_crc32` */
    method Crc(addr: nat, len: nat) returns (crc: bv32)
      requires Valid() && addr + len <= chip.cells.Length
      modifies this, chip
      ensures Valid() && chip.sr == old(chip.sr)
      ensures crc == Crc32.Crc(0, chip.cells[addr..addr + len])
    {
      if !needsBankSwitch {
        var all := chip.Read(addr, len);
        crc := Crc32.CrcC(0, all);
        return;
      }
      crc := BankedCrc(addr, len);
    }

    /** The walk of `flash_crc32` over the banks. */
    method BankedCrc(addr: nat, len: nat) returns (crc: bv32)
      requires Valid() && needsBankSwitch && addr + len <= chip.cells.Length
      modifies this, chip
      ensures Valid() && chip.sr == old(chip.sr)
      ensures crc == Crc32.Crc(0, chip.cells[addr..addr + len])
    {
      crc := 0;
      Crc32.CrcOfNothing(0);
      var at, left := addr, len;
      assert chip.cells[addr..addr] == [];
      while left > 0
        invariant Valid() && needsBankSwitch && chip.sr == old(chip.sr)
        invariant addr <= at && 0 <= left && at + left == addr + len && crc == Crc32.Crc(0, chip.cells[addr..at])
      {
        var n;
        crc, n := CrcChunk(addr, at, left, crc);
        at, left := at + n, left - n;
      }
    }

    /** `flash_unlock`: whatever block-protect bits the chip woke up with, none are left. */
    method Unlock()
      requires Valid()
      modifies chip
      ensures Valid() && chip.sr & BpMask == 0
    {
      var before := chip.sr;
      if before & BpMask == 0 {
        return;
      }
      chip.WriteEnable();
      chip.WriteStatus(before & !BpMask);
      Unlocked(before);
    }

    /** `flash_verify_erased`: 16 bytes at either end, and only they, decide. */
    method VerifyErased(addr: nat, len: nat) returns (rc: int)
      requires Valid() && addr + len <= chip.cells.Length
      modifies this, chip
      ensures Valid() && (rc == 0 || rc == -1)
      ensures rc == 0 <==> SamplesErased(chip.cells[addr..addr + len])
    {
      var head := Min(len, 16);
      var buf := Read(addr, head);
      ghost var all := chip.cells[addr..addr + len];
      assert buf == all[..head];
      if exists i :: 0 <= i < |buf| && buf[i] != 0xFF {
        return -1;
      }
      if len > 32 {
        buf := Read(addr + len - 16, 16);
        assert buf == all[len - 16..];
        if exists i :: 0 <= i < |buf| && buf[i] != 0xFF {
          return -1;
        }
      }
      rc := 0;
    }

    /** `flash_erase_sector` */
    method Erase(addr: nat) returns (rc: int)
      requires Valid() && addr + Nor.sector <= chip.cells.Length
      modifies this, chip, chip.cells
      ensures Valid()
      ensures chip.cells[..] == EraseSector(Nor, old(chip.cells[..]), addr)
      ensures addr % Nor.sector == 0 ==> rc == 0
    {
      if needsBankSwitch {
        SelectBank(if addr >= Window then 1 else 0);
      }
      Unlock();
      chip.WriteEnable();
      PhysicalIs(addr);
      chip.SectorErase(addr % Window);
      ghost var sector := chip.cells[addr..addr + Nor.sector];
      if addr % Nor.sector == 0 {
        ErasedReads(old(chip.cells[..]), addr);
        assert sector == chip.cells[..][addr..addr + Nor.sector];
        assert SamplesErased(sector);
      }
      rc := VerifyErased(addr, Nor.sector);
      assert rc == 0 <==> SamplesErased(sector);
    }

    /** One WREN and PP, inside one page. */
    method ProgramCycle(addr: nat, d: seq<byte>)
      requires Reaches(addr) && chip.sr & BpMask == 0
      requires 0 < |d| <= CmdBufMax && addr % PageSize + |d| <= PageSize && addr + |d| <= chip.cells.Length
      modifies chip, chip.cells
      ensures Reaches(addr) && chip.sr & BpMask == 0
      ensures chip.cells[..] == Program(old(chip.cells[..]), addr, d)
    {
      ghost var was := chip.cells[..];
      chip.WriteEnable();
      assert chip.cells[..] == was && chip.Writable();
      PhysicalIs(addr);
      NoWrap(was, addr, d);
      chip.PageProgram(addr % Window, d);
      assert chip.cells[..] == ProgramWrapped(was, addr, d);
    }

    /** One turn of the loop, up to 64 bytes on. */
    method NextCycle(addr: nat, data: seq<byte>, offset: nat, ghost was: seq<byte>) returns (next: nat)
      requires Reaches(addr) && chip.sr & BpMask == 0 && offset < |data| && |was| == chip.cells.Length
      requires addr % PageSize + |data| <= PageSize && addr + |data| <= |was|
      requires chip.cells[..] == Program(was, addr, data[..offset])
      modifies chip, chip.cells
      ensures Reaches(addr) && chip.sr & BpMask == 0 && offset < next <= |data|
      ensures chip.cells[..] == Program(was, addr, data[..next])
    {
      next := offset + Min(|data| - offset, CmdBufMax);
      SamePage(addr, offset);
      ghost var now := chip.cells[..];
      ProgramCycle(addr + offset, data[offset..next]);
      assert data[..offset] + data[offset..next] == data[..next];
      WroteMore(was, addr, data[..offset], data[offset..next], now, chip.cells[..]);
    }

    /** Up to four page-program cycles of 64 bytes. */
    method ProgramCycles(addr: nat, data: seq<byte>)
      requires Reaches(addr) && chip.sr & BpMask == 0
      requires addr % PageSize + |data| <= PageSize && addr + |data| <= chip.cells.Length
      modifies chip, chip.cells
      ensures Reaches(addr) && chip.cells[..] == Program(old(chip.cells[..]), addr, data)
    {
      ghost var was := chip.cells[..];
      ProgramNothing(was, addr);
      var offset := 0;
      while offset < |data|
        invariant Reaches(addr) && chip.sr & BpMask == 0 && 0 <= offset <= |data|
        invariant chip.cells[..] == Program(was, addr, data[..offset])
      {
        offset := NextCycle(addr, data, offset, was);
      }
      assert data[..offset] == data;
    }

    /** `flash_write_page` */
    method WritePage(addr: nat, data: seq<byte>) returns (rc: int)
      requires Valid() && addr + Min(|data|, PageSize) <= chip.cells.Length
      requires addr % PageSize + Min(|data|, PageSize) <= PageSize
      modifies this, chip, chip.cells
      ensures Valid() && rc == 0
      ensures chip.cells[..] == Program(old(chip.cells[..]), addr, data[..Min(|data|, PageSize)])
    {
      if needsBankSwitch {
        SelectBank(if addr >= Window then 1 else 0);
      }
      Unlock();
      ProgramCycles(addr, data[..Min(|data|, PageSize)]);
      rc := 0;
    }
  }

  lemma ErasedReads(f: seq<byte>, addr: nat)
    requires addr + Nor.sector <= |f| && addr % Nor.sector == 0
    ensures EraseSector(Nor, f, addr)[addr..addr + Nor.sector] == Fill(Nor.sector, 0xFF)
  {
  }

  lemma ProgramNothing(f: seq<byte>, addr: nat)
    requires addr <= |f|
    ensures Program(f, addr, []) == f
  {
  }

  /** No page straddles two banks. */
  lemma SamePage(addr: nat, offset: nat)
    requires addr % PageSize + offset < PageSize
    ensures (addr + offset) / PageSize == addr / PageSize && (addr + offset) % PageSize == addr % PageSize + offset
    ensures addr >= Window <==> addr + offset >= Window
  {
  }

  lemma WroteMore(was: seq<byte>, addr: nat, a: seq<byte>, b: seq<byte>, now: seq<byte>, after: seq<byte>)
    requires addr + |a| + |b| <= |was| && now == Program(was, addr, a) && after == Program(now, addr + |a|, b)
    ensures after == Program(was, addr, a + b)
  {
    ProgramAdjacent(was, addr, a, b);
  }

  lemma ProgramAdjacent(f: seq<byte>, addr: nat, a: seq<byte>, b: seq<byte>)
    requires addr + |a| + |b| <= |f|
    ensures Program(Program(f, addr, a), addr + |a|, b) == Program(f, addr, a + b)
  {
    var l, r := Program(Program(f, addr, a), addr + |a|, b), Program(f, addr, a + b);
    forall i | 0 <= i < |f|
      ensures l[i] == r[i]
    {
    }
  }

  // ---------------------------------------------------------------- any sequence of operations

  datatype Op = ReadOp(addr: nat, len: nat) | CrcOp(addr: nat, len: nat) | EraseOp(addr: nat) | WriteOp(addr: nat, data: seq<byte>)

  datatype Answer = Data(bytes: seq<byte>) | Sum(crc: bv32) | Code(rc: int)

  /** Inside the chip; erases start a sector, writes stay inside a page. */
  predicate Legal(size: nat, op: Op) {
    match op
    case ReadOp(addr, len) => addr + len <= size
    case CrcOp(addr, len) => addr + len <= size
    case EraseOp(addr) => addr + Nor.sector <= size && addr % Nor.sector == 0
    case WriteOp(addr, data) => addr + |data| <= size && addr % PageSize + |data| <= PageSize
  }

  /** One operation on a flat array of NOR cells. */
  function Flat(f: seq<byte>, op: Op): (r: (seq<byte>, Answer))
    requires Legal(|f|, op)
    ensures |r.0| == |f|
  {
    match op
    case ReadOp(addr, len) => (f, Data(f[addr..addr + len]))
    case CrcOp(addr, len) => (f, Sum(Crc32.Crc(0, f[addr..addr + len])))
    case EraseOp(addr) => (EraseSector(Nor, f, addr), Code(0))
    case WriteOp(addr, data) => (Program(f, addr, data), Code(0))
  }

  ghost predicate AllLegal(size: nat, ops: seq<Op>) {
    forall op | op in ops :: Legal(size, op)
  }

  function FlatRun(f: seq<byte>, ops: seq<Op>): (r: (seq<byte>, seq<Answer>))
    requires forall op | op in ops :: Legal(|f|, op)
    decreases |ops|
  {
    if ops == [] then (f, [])
    else
      var (f', a) := Flat(f, ops[0]);
      var (f'', as') := FlatRun(f', ops[1..]);
      (f'', [a] + as')
  }

  method RunOne(d: Driver, op: Op) returns (a: Answer)
    requires d.Valid() && Legal(d.chip.cells.Length, op)
    modifies d, d.chip, d.chip.cells
    ensures d.Valid() && (d.chip.cells[..], a) == Flat(old(d.chip.cells[..]), op)
  {
    ghost var f := d.chip.cells[..];
    match op {
      case ReadOp(addr, len) =>
        var bytes := d.Read(addr, len);
        assert f[addr..addr + len] == d.chip.cells[addr..addr + len];
        a := Data(bytes);
      case CrcOp(addr, len) =>
        var crc := d.Crc(addr, len);
        assert f[addr..addr + len] == d.chip.cells[addr..addr + len];
        a := Sum(crc);
      case EraseOp(addr) =>
        var rc := d.Erase(addr);
        a := Code(rc);
      case WriteOp(addr, data) =>
        var rc := d.WritePage(addr, data);
        assert data[..|data|] == data;
        a := Code(rc);
    }
  }

  /** Whatever is asked of the driver, in whatever order, the answers and the cells are those of a flat array. */
  method RunAll(d: Driver, ops: seq<Op>) returns (answers: seq<Answer>)
    requires d.Valid() && AllLegal(d.chip.cells.Length, ops)
    modifies d, d.chip, d.chip.cells
    ensures d.Valid() && (d.chip.cells[..], answers) == FlatRun(old(d.chip.cells[..]), ops)
  {
    answers := [];
    ghost var want := FlatRun(d.chip.cells[..], ops);
    assert ops[0..] == ops;
    FlatRest(d.chip.cells[..], ops, answers, want);
    var i := 0;
    while i < |ops|
      invariant 0 <= i <= |ops| && d.Valid()
      invariant Remaining(d.chip.cells[..], ops[i..], answers, want)
    {
      ghost var f, before := d.chip.cells[..], answers;
      var a := RunOne(d, ops[i]);
      FlatStep(f, ops[i..], before, want);
      assert ops[i..][1..] == ops[i + 1..];
      answers := answers + [a];
      i := i + 1;
    }
    assert ops[i..] == [];
    FlatEnd(d.chip.cells[..], answers, want);
  }

  lemma FlatEnd(f: seq<byte>, answers: seq<Answer>, want: (seq<byte>, seq<Answer>))
    requires Remaining(f, [], answers, want)
    ensures (f, answers) == want
  {
    assert answers + [] == answers;
  }

  /** `want` is what comes of running `ops` on `f` after the answers so far. */
  ghost predicate Remaining(f: seq<byte>, ops: seq<Op>, answers: seq<Answer>, want: (seq<byte>, seq<Answer>)) {
    AllLegal(|f|, ops) && FlatRun(f, ops).0 == want.0 && answers + FlatRun(f, ops).1 == want.1
  }

  lemma FlatRest(f: seq<byte>, ops: seq<Op>, answers: seq<Answer>, want: (seq<byte>, seq<Answer>))
    requires AllLegal(|f|, ops) && answers == [] && want == FlatRun(f, ops)
    ensures Remaining(f, ops, answers, want)
  {
    assert [] + FlatRun(f, ops).1 == FlatRun(f, ops).1;
  }

  lemma FlatStep(f: seq<byte>, ops: seq<Op>, answers: seq<Answer>, want: (seq<byte>, seq<Answer>))
    requires ops != [] && Remaining(f, ops, answers, want)
    ensures var (f', a) := Flat(f, ops[0]);
            Remaining(f', ops[1..], answers + [a], want)
  {
    var (f', a) := Flat(f, ops[0]);
    var rest := FlatRun(f', ops[1..]).1;
    assert answers + ([a] + rest) == answers + [a] + rest;
  }
}
