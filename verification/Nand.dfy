/**
  The SPI-NAND half of agent/spi_flash.c:506-629, 742-820: pages of 2048 bytes and 64 spare ones, reached through
  the chip's page cache and a 256-byte I/O buffer, against a flat data area beside a list of spare areas.
 */
module Nand {
  import opened Bytes
  import opened Flash

  const PageSize: nat := 2048
  const SpareSize: nat := 64
  const RawPage: nat := 2112
  const PagesPerBlock: nat := 64
  const IoSize: nat := 256
  /** The geometry `flash_init` reports. */
  const Block: Geometry := Geometry(0x20000, 2048)

  // ---------------------------------------------------------------- what the pages mean

  ghost predicate Whole(pages: seq<seq<byte>>) {
    |pages| % PagesPerBlock == 0 && forall p | 0 <= p < |pages| :: |pages[p]| == RawPage
  }

  /** The data area as one array. */
  function Data(pages: seq<seq<byte>>): (r: seq<byte>)
    requires Whole(pages)
    ensures |r| == |pages| * PageSize
  {
    seq(|pages| * PageSize, a requires 0 <= a < |pages| * PageSize => pages[a / PageSize][a % PageSize])
  }

  function Spare(page: seq<byte>): seq<byte>
    requires |page| == RawPage
  {
    page[PageSize..]
  }

  function Spares(pages: seq<seq<byte>>): (r: seq<seq<byte>>)
    requires Whole(pages)
    ensures |r| == |pages|
  {
    seq(|pages|, p requires 0 <= p < |pages| => Spare(pages[p]))
  }

  /** Cells after programming the whole cache: bits only go from 1 to 0. */
  function And(page: seq<byte>, cache: seq<byte>): (r: seq<byte>)
    requires |page| == |cache|
    ensures |r| == |page|
  {
    seq(|page|, i requires 0 <= i < |page| => page[i] & cache[i])
  }

  /** `pages` with the block that contains `row` replaced. */
  function Replaced(pages: seq<seq<byte>>, row: nat, block: seq<seq<byte>>): (r: seq<seq<byte>>)
    requires row < |pages| && |block| == PagesPerBlock
    ensures |r| == |pages|
  {
    seq(|pages|, p requires 0 <= p < |pages| =>
      if p / PagesPerBlock == row / PagesPerBlock then block[p % PagesPerBlock] else pages[p])
  }

  /** An erased block. */
  function Blank(): (r: seq<seq<byte>>)
    ensures |r| == PagesPerBlock && Whole(r)
  {
    seq(PagesPerBlock, p => Fill(RawPage, 0xFF))
  }

  /** What a failing erase or program may leave behind: any block, any page. */
  ghost predicate BlockFault(fault: Option<seq<seq<byte>>>) {
    fault.Some? ==> |fault.value| == PagesPerBlock && Whole(fault.value)
  }

  predicate PageFault(fault: Option<seq<byte>>) {
    fault.Some? ==> |fault.value| == RawPage
  }

  // ---------------------------------------------------------------- the chip and its controller

  class Chip {
    var pages: seq<seq<byte>>
    /** The page cache, which survives every command but the ones that load it. */
    var cache: seq<byte>
    var wel: bool
    /** The controller's I/O buffer. */
    const iobuf: array<byte>

    ghost predicate Valid()
      reads this
    {
      Whole(pages) && |cache| == RawPage && iobuf.Length == IoSize
    }

    method WriteEnable()
      requires Valid()
      modifies this`wel
      ensures Valid() && wel
    {
      wel := true;
    }

    /** PAGE_READ */
    method PageRead(row: nat)
      requires Valid() && row < |pages|
      modifies this`cache
      ensures Valid() && cache == pages[row]
    {
      cache := pages[row];
    }

    /** READ_FROM_CACHE of `n` bytes: the dummy byte comes first. */
    method ReadCache(column: nat, n: nat)
      requires Valid() && 0 < n <= IoSize && column + n - 1 <= RawPage
      modifies iobuf
      ensures iobuf[0] == 0x00 && iobuf[1..n] == cache[column..column + n - 1]
    {
      iobuf[0] := 0x00;
      forall i | 1 <= i < n {
        iobuf[i] := cache[column + i - 1];
      }
    }

    /** PROGRAM_LOAD resets the cache, PROGRAM_RAND keeps it; both then take `n` bytes of the I/O buffer. */
    method Load(reset: bool, column: nat, n: nat)
      requires Valid() && n <= IoSize && column + n <= RawPage
      modifies this`cache
      ensures Valid()
      ensures cache == Splice(if reset then Fill(RawPage, 0xFF) else old(cache), column, iobuf[..n])
    {
      cache := Splice(if reset then Fill(RawPage, 0xFF) else cache, column, iobuf[..n]);
    }

    /** PROGRAM_EXECUTE; a failing one may leave anything in the page. */
    method Execute(row: nat, fault: Option<seq<byte>>) returns (pFail: bool)
      requires Valid() && row < |pages| && PageFault(fault)
      modifies this`pages, this`wel
      ensures Valid() && !wel && pFail == fault.Some?
      ensures old(wel) && fault.None? ==> pages == old(pages)[row := And(old(pages)[row], cache)]
      ensures old(wel) && fault.Some? ==> pages == old(pages)[row := fault.value]
      ensures !old(wel) ==> pages == old(pages)
    {
      if wel {
        pages := pages[row := if fault.Some? then fault.value else And(pages[row], cache)];
      }
      wel := false;
      pFail := fault.Some?;
    }

    /** BLOCK_ERASE of the block that contains `row`; a failing one may leave anything in the block. */
    method EraseBlock(row: nat, fault: Option<seq<seq<byte>>>) returns (eFail: bool)
      requires Valid() && row < |pages| && BlockFault(fault)
      modifies this`pages, this`wel
      ensures Valid() && !wel && eFail == fault.Some?
      ensures pages == if old(wel) then Replaced(old(pages), row, if fault.Some? then fault.value else Blank())
                       else old(pages)
    {
      if wel {
        pages := Replaced(pages, row, if fault.Some? then fault.value else Blank());
      }
      wel := false;
      eFail := fault.Some?;
    }
  }

  // ---------------------------------------------------------------- programming

  lemma AndSplice(page: seq<byte>, column: nat, d: seq<byte>)
    requires |page| == RawPage && column + |d| <= RawPage
    ensures And(page, Splice(Fill(RawPage, 0xFF), column, d)) == Program(page, column, d)
  {
    var cache := Splice(Fill(RawPage, 0xFF), column, d);
    var l, r := And(page, cache), Program(page, column, d);
    forall i | 0 <= i < RawPage
      ensures l[i] == r[i]
    {
      AndFf(page[i]);
      SpliceAt(Fill(RawPage, 0xFF), column, d, i);
      ProgramAt(page, column, d, i);
    }
  }

  lemma AndFf(b: byte)
    ensures b & 0xFF == b
  {
  }

  lemma RowOf(a: nat, row: nat, column: nat)
    requires column < PageSize && a == row * PageSize + column
    ensures a / PageSize == row && a % PageSize == column
  {
    DivModUnique(a, PageSize, row, column);
  }

  /** Programming part of a page is programming that part of the flat data area. */
  lemma ProgramData(pages: seq<seq<byte>>, row: nat, column: nat, d: seq<byte>)
    requires Whole(pages) && row < |pages| && column + |d| <= PageSize
    ensures var after := pages[row := Program(pages[row], column, d)];
            && Whole(after) && row * PageSize + column + |d| <= |Data(pages)|
            && Data(after) == Program(Data(pages), row * PageSize + column, d)
            && Spares(after) == Spares(pages)
  {
    var after := pages[row := Program(pages[row], column, d)];
    var at := row * PageSize + column;
    assert Whole(after);
    forall a | 0 <= a < |pages| * PageSize
      ensures Data(after)[a] == Program(Data(pages), at, d)[a]
    {
      ProgramByte(pages, row, column, d, a);
    }
    SpareUntouched(pages[row], column, d);
  }

  lemma SpareUntouched(page: seq<byte>, column: nat, d: seq<byte>)
    requires |page| == RawPage && column + |d| <= PageSize
    ensures Spare(Program(page, column, d)) == Spare(page)
  {
    var l, r := Spare(Program(page, column, d)), Spare(page);
    forall i | 0 <= i < SpareSize
      ensures l[i] == r[i]
    {
      ProgramAt(page, column, d, PageSize + i);
    }
  }

  lemma ProgramAt(f: seq<byte>, at: nat, d: seq<byte>, i: nat)
    requires at + |d| <= |f| && i < |f|
    ensures Program(f, at, d)[i] == if at <= i < at + |d| then f[i] & d[i - at] else f[i]
  {
  }

  lemma ProgramByte(pages: seq<seq<byte>>, row: nat, column: nat, d: seq<byte>, a: nat)
    requires Whole(pages) && row < |pages| && column + |d| <= PageSize && a < |pages| * PageSize
    requires Whole(pages[row := Program(pages[row], column, d)])
    ensures Data(pages[row := Program(pages[row], column, d)])[a] == Program(Data(pages), row * PageSize + column, d)[a]
  {
    ProgramAt(Data(pages), row * PageSize + column, d, a);
    ProgramAt(pages[row], column, d, a % PageSize);
  }

  /** Programming the spare area leaves the data area alone. */
  lemma ProgramSpare(pages: seq<seq<byte>>, row: nat, d: seq<byte>)
    requires Whole(pages) && row < |pages| && |d| <= SpareSize
    ensures var after := pages[row := Program(pages[row], PageSize, d)];
            && Whole(after) && Data(after) == Data(pages)
            && Spares(after) == Spares(pages)[row := Program(Spares(pages)[row], 0, d)]
  {
    var page := Program(pages[row], PageSize, d);
    var after := pages[row := page];
    forall a | 0 <= a < |pages| * PageSize
      ensures Data(after)[a] == Data(pages)[a]
    {
      ProgramAt(pages[row], PageSize, d, a % PageSize);
    }
    SpareProgrammed(pages[row], d);
  }

  lemma SpareProgrammed(page: seq<byte>, d: seq<byte>)
    requires |page| == RawPage && |d| <= SpareSize
    ensures Spare(Program(page, PageSize, d)) == Program(Spare(page), 0, d)
  {
    var l, r := Spare(Program(page, PageSize, d)), Program(Spare(page), 0, d);
    forall i | 0 <= i < SpareSize
      ensures l[i] == r[i]
    {
      ProgramAt(page, PageSize, d, PageSize + i);
      ProgramAt(Spare(page), 0, d, i);
    }
  }

  lemma ReplaceWhole(pages: seq<seq<byte>>, row: nat, block: seq<seq<byte>>)
    requires Whole(pages) && row < |pages| && |block| == PagesPerBlock && Whole(block)
    ensures Whole(Replaced(pages, row, block))
  {
  }

  lemma SpliceAt(f: seq<byte>, at: nat, d: seq<byte>, i: nat)
    requires at + |d| <= |f| && i < |f|
    ensures Splice(f, at, d)[i] == if at <= i < at + |d| then d[i - at] else f[i]
  {
  }

  lemma ReplacedByte(pages: seq<seq<byte>>, row: nat, block: seq<seq<byte>>, addr: nat, base: nat, a: nat)
    requires Whole(pages) && row < |pages| && addr / PageSize == row && |block| == PagesPerBlock && Whole(block)
    requires base == SectorBase(Block, addr) && base + Block.sector <= |pages| * PageSize && a < |pages| * PageSize
    requires Whole(Replaced(pages, row, block))
    ensures Data(Replaced(pages, row, block))[a]
            == if base <= a < base + Block.sector then Data(block)[a - base] else Data(pages)[a]
  {
    SameBlock(a, addr);
    if base <= a < base + Block.sector {
      InBlock(a, base);
      InsideByte(pages, row, block, a, a - base);
    } else {
      assert Replaced(pages, row, block)[a / PageSize] == pages[a / PageSize];
    }
  }

  lemma InsideByte(pages: seq<seq<byte>>, row: nat, block: seq<seq<byte>>, a: nat, b: nat)
    requires Whole(pages) && row < |pages| && |block| == PagesPerBlock && Whole(block) && a < |pages| * PageSize
    requires Whole(Replaced(pages, row, block)) && b < Block.sector && a / PageSize / PagesPerBlock == row / PagesPerBlock
    requires a / PageSize % PagesPerBlock == b / PageSize && a % PageSize == b % PageSize
    ensures Data(Replaced(pages, row, block))[a] == Data(block)[b]
  {
    assert Replaced(pages, row, block)[a / PageSize] == block[b / PageSize];
  }

  /** Replacing a block is splicing it into the data area and the spares. */
  lemma ReplaceData(pages: seq<seq<byte>>, row: nat, block: seq<seq<byte>>, addr: nat, base: nat)
    requires Whole(pages) && row < |pages| && addr / PageSize == row && |block| == PagesPerBlock && Whole(block)
    requires base == SectorBase(Block, addr)
    ensures base + Block.sector <= |Data(pages)| && Whole(Replaced(pages, row, block)) && |Data(block)| == Block.sector
    ensures Data(Replaced(pages, row, block)) == Splice(Data(pages), base, Data(block))
  {
    ReplaceWhole(pages, row, block);
    BlockBytes(addr, row, |pages|);
    var l, r := Data(Replaced(pages, row, block)), Splice(Data(pages), base, Data(block));
    forall a | 0 <= a < |pages| * PageSize
      ensures l[a] == r[a]
    {
      ReplacedByte(pages, row, block, addr, base, a);
      SpliceAt(Data(pages), base, Data(block), a);
    }
  }

  lemma InBlock(a: nat, base: nat)
    requires base % Block.sector == 0 && base <= a < base + Block.sector
    ensures a / PageSize % PagesPerBlock == (a - base) / PageSize && a % PageSize == (a - base) % PageSize
  {
    var b := base / Block.sector;
    DivModUnique(a, PageSize, b * PagesPerBlock + (a - base) / PageSize, (a - base) % PageSize);
    DivModUnique(a / PageSize, PagesPerBlock, b, (a - base) / PageSize);
  }

  lemma ReplaceSpares(pages: seq<seq<byte>>, row: nat, block: seq<seq<byte>>, first: nat)
    requires Whole(pages) && row < |pages| && |block| == PagesPerBlock && Whole(block)
    requires first == row / PagesPerBlock * PagesPerBlock
    ensures first + PagesPerBlock <= |pages| && Whole(Replaced(pages, row, block))
    ensures Spares(Replaced(pages, row, block)) == Splice(Spares(pages), first, Spares(block))
  {
    ReplaceWhole(pages, row, block);
    var l, r := Spares(Replaced(pages, row, block)), Splice(Spares(pages), first, Spares(block));
    forall p | 0 <= p < |pages|
      ensures l[p] == r[p]
    {
    }
  }

  lemma FirstRow(addr: nat, row: nat)
    requires row == addr / PageSize
    ensures SectorBase(Block, addr) / PageSize == row / PagesPerBlock * PagesPerBlock
  {
    Nested(addr);
    DivModUnique(SectorBase(Block, addr), PageSize, row / PagesPerBlock * PagesPerBlock, 0);
  }

  lemma BlankIsErased()
    ensures Data(Blank()) == Fill(Block.sector, 0xFF)
    ensures Spares(Blank()) == seq(PagesPerBlock, p => Fill(SpareSize, 0xFF))
  {
    var l, r := Spares(Blank()), seq(PagesPerBlock, p => Fill(SpareSize, 0xFF));
    forall p | 0 <= p < PagesPerBlock
      ensures l[p] == r[p]
    {
      assert Spare(Blank()[p]) == Fill(SpareSize, 0xFF);
    }
  }

  /** A page replaced as a whole. */
  lemma PageReplaced(pages: seq<seq<byte>>, row: nat, page: seq<byte>)
    requires Whole(pages) && row < |pages| && |page| == RawPage
    ensures var after := pages[row := page];
            && Whole(after) && row * PageSize + PageSize <= |Data(pages)|
            && Data(after) == Splice(Data(pages), row * PageSize, page[..PageSize])
            && Spares(after) == Spares(pages)[row := page[PageSize..]]
  {
    var after := pages[row := page];
    assert Whole(after);
    var l, r := Data(after), Splice(Data(pages), row * PageSize, page[..PageSize]);
    forall a | 0 <= a < |pages| * PageSize
      ensures l[a] == r[a]
    {
      if row * PageSize <= a < row * PageSize + PageSize {
        RowOf(a, row, a - row * PageSize);
      }
    }
  }

  lemma BlockBytes(addr: nat, row: nat, n: nat)
    requires addr / PageSize == row && row < n && n % PagesPerBlock == 0
    ensures SectorBase(Block, addr) + Block.sector <= n * PageSize
  {
  }

  lemma Nested(a: nat)
    ensures a / PageSize / PagesPerBlock == a / 0x20000
  {
    var q, r := a / PageSize, a % PageSize;
    DivModUnique(a, 0x20000, q / PagesPerBlock, q % PagesPerBlock * PageSize + r);
  }

  lemma SameSector(a: nat, b: nat)
    ensures a / 0x20000 == b / 0x20000 <==> b - b % 0x20000 <= a < b - b % 0x20000 + 0x20000
  {
  }

  lemma SameBlock(a: nat, addr: nat)
    ensures a / PageSize / PagesPerBlock == addr / PageSize / PagesPerBlock
            <==> SectorBase(Block, addr) <= a < SectorBase(Block, addr) + Block.sector
  {
    Nested(a);
    Nested(addr);
    SameSector(a, addr);
  }

  // ---------------------------------------------------------------- the driver

  /** The bytes `addr..addr + len` of the data area lie in one page. */
  lemma DataSlice(pages: seq<seq<byte>>, row: nat, column: nat, n: nat)
    requires Whole(pages) && row < |pages| && column + n <= PageSize
    ensures row * PageSize + column + n <= |Data(pages)|
    ensures pages[row][column..column + n] == Data(pages)[row * PageSize + column..row * PageSize + column + n]
  {
    var at := row * PageSize + column;
    var l, r := pages[row][column..column + n], Data(pages)[at..at + n];
    forall i | 0 <= i < n
      ensures l[i] == r[i]
    {
      RowOf(at + i, row, column + i);
    }
  }

  /** The cache after one more chunk. */
  lemma CacheGrows(before: seq<byte>, after: seq<byte>, column: nat, a: seq<byte>, b: seq<byte>)
    requires |before| == RawPage && column + |a| + |b| <= RawPage
    requires a != [] ==> before == Splice(Fill(RawPage, 0xFF), column, a)
    requires after == Splice(if a == [] then Fill(RawPage, 0xFF) else before, column + |a|, b)
    ensures after == Splice(Fill(RawPage, 0xFF), column, a + b)
  {
    if a == [] {
      assert a + b == b;
    } else {
      SpliceAdjacent(Fill(RawPage, 0xFF), column, a, b);
    }
  }

  // ---------------------------------------------------------------- the flat view

  /** The data area as one array, and the spare areas beside it. */
  datatype Flat = Flat(data: seq<byte>, spares: seq<seq<byte>>) {
    predicate Shaped() {
      |data| == |spares| * PageSize && |spares| % PagesPerBlock == 0
      && forall p | 0 <= p < |spares| :: |spares[p]| == SpareSize
    }
  }

  function View(pages: seq<seq<byte>>): (r: Flat)
    requires Whole(pages)
    ensures r.Shaped()
  {
    Flat(Data(pages), Spares(pages))
  }

  predicate CanErase(f: Flat, addr: nat) {
    SectorBase(Block, addr) + Block.sector <= |f.data|
    && SectorBase(Block, addr) / PageSize + PagesPerBlock <= |f.spares|
  }

  /** Erasing clears the block and its spare areas; a fault leaves the given block there. */
  function FlatErase(f: Flat, addr: nat, fault: Option<seq<seq<byte>>>): Flat
    requires CanErase(f, addr) && BlockFault(fault)
  {
    var base := SectorBase(Block, addr);
    if fault.None? then
      Flat(EraseSector(Block, f.data, addr), Splice(f.spares, base / PageSize, seq(PagesPerBlock, p => Fill(SpareSize, 0xFF))))
    else Flat(Splice(f.data, base, Data(fault.value)), Splice(f.spares, base / PageSize, Spares(fault.value)))
  }

  /** A failed program leaves the given page. */
  function FlatFault(f: Flat, row: nat, page: seq<byte>): Flat
    requires row < |f.spares| && row * PageSize + PageSize <= |f.data| && |page| == RawPage
  {
    Flat(Splice(f.data, row * PageSize, page[..PageSize]), f.spares[row := page[PageSize..]])
  }

  predicate CanWrite(f: Flat, addr: nat, d: seq<byte>) {
    addr + |d| <= |f.data| && addr / PageSize < |f.spares| && addr / PageSize * PageSize + PageSize <= |f.data|
  }

  function FlatWrite(f: Flat, addr: nat, d: seq<byte>, fault: Option<seq<byte>>): Flat
    requires CanWrite(f, addr, d) && PageFault(fault)
  {
    if fault.Some? then FlatFault(f, addr / PageSize, fault.value) else Flat(Program(f.data, addr, d), f.spares)
  }

  function FlatOob(f: Flat, block: nat, d: seq<byte>, fault: Option<seq<byte>>): Flat
    requires f.Shaped() && block * PagesPerBlock < |f.spares| && |d| <= SpareSize && PageFault(fault)
  {
    var p := block * PagesPerBlock;
    if fault.Some? then FlatFault(f, p, fault.value) else Flat(f.data, f.spares[p := Program(f.spares[p], 0, d)])
  }

  lemma ErasedView(pages: seq<seq<byte>>, addr: nat, fault: Option<seq<seq<byte>>>)
    requires Whole(pages) && addr < |Data(pages)| && BlockFault(fault)
    ensures var after := Replaced(pages, addr / PageSize, if fault.Some? then fault.value else Blank());
            Whole(after) && CanErase(View(pages), addr) && View(after) == FlatErase(View(pages), addr, fault)
  {
    var row, block := addr / PageSize, if fault.Some? then fault.value else Blank();
    ReplaceData(pages, row, block, addr, SectorBase(Block, addr));
    FirstRow(addr, row);
    ReplaceSpares(pages, row, block, SectorBase(Block, addr) / PageSize);
    BlankIsErased();
  }

  lemma FaultView(was: seq<seq<byte>>, row: nat, page: seq<byte>)
    requires Whole(was) && row < |was| && |page| == RawPage
    ensures row * PageSize + PageSize <= |Data(was)| && Whole(was[row := page])
    ensures View(was[row := page]) == FlatFault(View(was), row, page)
  {
    PageReplaced(was, row, page);
  }

  lemma ProgramView(was: seq<seq<byte>>, row: nat, column: nat, d: seq<byte>, addr: nat)
    requires Whole(was) && row < |was| && column + |d| <= PageSize && addr == row * PageSize + column
    ensures addr + |d| <= |Data(was)| && Whole(was[row := Program(was[row], column, d)])
    ensures View(was[row := Program(was[row], column, d)]) == Flat(Program(Data(was), addr, d), Spares(was))
  {
    ProgramData(was, row, column, d);
  }

  lemma WrittenView(was: seq<seq<byte>>, now: seq<seq<byte>>, addr: nat, d: seq<byte>, fault: Option<seq<byte>>)
    requires Whole(was) && addr < |Data(was)| && addr % PageSize + |d| <= PageSize && PageFault(fault)
    requires now == was[addr / PageSize :=
                        if fault.Some? then fault.value else Program(was[addr / PageSize], addr % PageSize, d)]
    ensures Whole(now) && CanWrite(View(was), addr, d) && View(now) == FlatWrite(View(was), addr, d, fault)
  {
    var row, column := addr / PageSize, addr % PageSize;
    InsideRow(addr, |was|, |d|);
    if fault.Some? {
      FaultView(was, row, fault.value);
    } else {
      ProgramView(was, row, column, d, addr);
    }
  }

  lemma InsideRow(addr: nat, pages: nat, n: nat)
    requires addr < pages * PageSize && addr % PageSize + n <= PageSize
    ensures addr / PageSize < pages && addr / PageSize * PageSize + addr % PageSize == addr
    ensures addr + n <= addr / PageSize * PageSize + PageSize <= pages * PageSize
  {
  }

  lemma OobView(was: seq<seq<byte>>, now: seq<seq<byte>>, block: nat, d: seq<byte>, fault: Option<seq<byte>>)
    requires Whole(was) && block * PagesPerBlock < |was| && |d| <= SpareSize && PageFault(fault)
    requires var p := block * PagesPerBlock;
             now == was[p := if fault.Some? then fault.value else Program(was[p], PageSize, d)]
    ensures Whole(now) && View(now) == FlatOob(View(was), block, d, fault)
  {
    if fault.Some? {
      FaultView(was, block * PagesPerBlock, fault.value);
    } else {
      ProgramSpare(was, block * PagesPerBlock, d);
    }
  }

  class Driver {
    const chip: Chip

    ghost predicate Valid()
      reads this, chip
    {
      chip.Valid()
    }

    constructor (chip: Chip)
      requires chip.Valid()
      ensures Valid() && this.chip == chip
    {
      this.chip := chip;
    }

    /** `nand_erase_block` */
    method EraseBlock(row: nat, fault: Option<seq<seq<byte>>>) returns (rc: int)
      requires Valid() && row < |chip.pages| && BlockFault(fault)
      modifies chip
      ensures Valid() && rc == if fault.Some? then -1 else 0
      ensures chip.pages == Replaced(old(chip.pages), row, if fault.Some? then fault.value else Blank())
    {
      chip.WriteEnable();
      var eFail := chip.EraseBlock(row, fault);
      rc := if eFail then -1 else 0;
    }

    method FillIo(d: seq<byte>)
      requires Valid() && |d| <= IoSize
      modifies chip.iobuf
      ensures chip.iobuf[..|d|] == d
    {
      forall i | 0 <= i < |d| {
        chip.iobuf[i] := d[i];
      }
    }

    /** One PROGRAM_LOAD or PROGRAM_RAND of at most 256 bytes. */
    method LoadChunk(column: nat, data: seq<byte>, off: nat, firstChunk: bool) returns (next: nat)
      requires Valid() && off < |data| && column + |data| <= RawPage && firstChunk == (off == 0)
      requires off > 0 ==> chip.cache == Splice(Fill(RawPage, 0xFF), column, data[..off])
      modifies chip`cache, chip.iobuf
      ensures Valid() && off < next <= |data|
      ensures chip.cache == Splice(Fill(RawPage, 0xFF), column, data[..next])
    {
      var chunk := if |data| - off > 256 then 256 else |data| - off;
      next := off + chunk;
      ghost var before := chip.cache;
      FillIo(data[off..next]);
      chip.Load(firstChunk, column + off, chunk);
      CacheGrows(before, chip.cache, column, data[..off], data[off..next]);
      assert data[..off] + data[off..next] == data[..next];
    }

    /** The chunks of one page program: the cache ends up holding the data, and 0xFF everywhere else. */
    method LoadChunks(column: nat, data: seq<byte>)
      requires Valid() && data != [] && column + |data| <= RawPage
      modifies chip`cache, chip.iobuf
      ensures Valid() && chip.cache == Splice(Fill(RawPage, 0xFF), column, data)
    {
      var off, firstChunk := 0, true;
      while off < |data|
        invariant Valid() && 0 <= off <= |data| && firstChunk == (off == 0)
        invariant off > 0 ==> chip.cache == Splice(Fill(RawPage, 0xFF), column, data[..off])
      {
        off := LoadChunk(column, data, off, firstChunk);
        firstChunk := false;
      }
      assert data[..off] == data;
    }

    /** `nand_program_page`. With nothing to load, whatever the cache still holds is committed. */
    method ProgramPage(row: nat, column: nat, data: seq<byte>, fault: Option<seq<byte>>) returns (rc: int)
      requires Valid() && row < |chip.pages| && column + |data| <= RawPage
      requires PageFault(fault)
      modifies chip, chip.iobuf
      ensures Valid() && rc == if fault.Some? then -1 else 0
      ensures chip.pages == old(chip.pages)[row :=
                if fault.Some? then fault.value
                else if data == [] then And(old(chip.pages)[row], old(chip.cache))
                else Program(old(chip.pages)[row], column, data)]
    {
      chip.WriteEnable();
      if data != [] {
        LoadChunks(column, data);
        AndSplice(chip.pages[row], column, data);
      }
      var pFail := chip.Execute(row, fault);
      rc := if pFail then -1 else 0;
    }

    /** `nand_read`: 255 useful bytes per fetch, behind the dummy. */
    method ReadPage(row: nat, column: nat, len: nat) returns (buf: seq<byte>)
      requires Valid() && row < |chip.pages| && column + len <= RawPage
      modifies chip`cache, chip.iobuf
      ensures Valid() && chip.cache == chip.pages[row]
      ensures buf == chip.pages[row][column..column + len]
    {
      chip.PageRead(row);
      buf := [];
      var off := 0;
      while off < len
        invariant Valid() && 0 <= off <= len && chip.cache == chip.pages[row]
        invariant buf == chip.pages[row][column..column + off]
      {
        var chunk := if len - off > 255 then 255 else len - off;
        chip.ReadCache(column + off, chunk + 1);
        buf := buf + chip.iobuf[1..chunk + 1];
        off := off + chunk;
      }
    }

    /** The part of a range that lies in one page. */
    method ReadRow(at: nat, row: nat, col: nat, chunk: nat) returns (part: seq<byte>)
      requires Valid() && at == row * PageSize + col && col + chunk <= PageSize && at < |Data(chip.pages)|
      modifies chip`cache, chip.iobuf
      ensures Valid() && at + chunk <= |Data(chip.pages)| && part == Data(chip.pages)[at..at + chunk]
    {
      DataSlice(chip.pages, row, col, chunk);
      part := ReadPage(row, col, chunk);
    }

    /** `flash_read` on NAND, page by page. */
    method Read(addr: nat, len: nat) returns (buf: seq<byte>)
      requires Valid() && addr + len <= |Data(chip.pages)|
      modifies chip`cache, chip.iobuf
      ensures Valid() && buf == Data(chip.pages)[addr..addr + len]
    {
      buf := [];
      var at, left := addr, len;
      while left > 0
        invariant Valid() && addr <= at && 0 <= left && at + left == addr + len
        invariant buf == Data(chip.pages)[addr..at]
      {
        var row, col := at / PageSize, at % PageSize;
        var chunk := if left < PageSize - col then left else PageSize - col;
        var part := ReadRow(at, row, col, chunk);
        assert Data(chip.pages)[addr..at] + part == Data(chip.pages)[addr..at + chunk];
        buf := buf + part;
        at, left := at + chunk, left - chunk;
      }
    }

    /** `flash_erase_sector` on NAND. */
    method Erase(addr: nat, fault: Option<seq<seq<byte>>>) returns (rc: int)
      requires Valid() && addr < |Data(chip.pages)| && BlockFault(fault)
      modifies chip
      ensures Valid() && rc == if fault.Some? then -1 else 0
      ensures CanErase(View(old(chip.pages)), addr) && View(chip.pages) == FlatErase(View(old(chip.pages)), addr, fault)
    {
      ErasedView(chip.pages, addr, fault);
      rc := EraseBlock(addr / PageSize, fault);
    }

    /** `flash_write_page` on NAND: what does not fit the page is cut off, and an empty write is not a no-op. */
    method WritePage(addr: nat, data: seq<byte>, fault: Option<seq<byte>>) returns (rc: int)
      requires Valid() && addr < |Data(chip.pages)| && PageFault(fault)
      modifies chip, chip.iobuf
      ensures Valid() && rc == if fault.Some? then -1 else 0
      ensures var d := data[..Min(|data|, PageSize - addr % PageSize)];
              data != [] ==> CanWrite(View(old(chip.pages)), addr, d)
                             && View(chip.pages) == FlatWrite(View(old(chip.pages)), addr, d, fault)
      ensures var row := addr / PageSize;
              data == [] && fault.None? ==>
                chip.pages == old(chip.pages)[row := And(old(chip.pages)[row], old(chip.cache))]
    {
      var row, column := addr / PageSize, addr % PageSize;
      var d := data[..Min(|data|, PageSize - column)];
      ghost var was := chip.pages;
      rc := ProgramPage(row, column, d, fault);
      if data != [] {
        WrittenView(was, chip.pages, addr, d, fault);
      }
    }

    /** `flash_program_oob`: the spare area of the first page of a block. Marking a block bad is the call with [0x00]. */
    method ProgramOob(block: nat, buf: seq<byte>, fault: Option<seq<byte>>) returns (rc: int)
      requires Valid() && block * PagesPerBlock < |chip.pages| && PageFault(fault)
      modifies chip, chip.iobuf
      ensures Valid() && rc == if fault.Some? then -1 else 0
      ensures buf != [] ==> View(chip.pages) == FlatOob(View(old(chip.pages)), block, buf[..Min(|buf|, SpareSize)], fault)
    {
      var d := buf[..Min(|buf|, SpareSize)];
      ghost var was := chip.pages;
      rc := ProgramPage(block * PagesPerBlock, PageSize, d, fault);
      if buf != [] {
        OobView(was, chip.pages, block, d, fault);
      }
    }

    /** `flash_read_oob` */
    method ReadOob(block: nat, len: nat) returns (buf: seq<byte>)
      requires Valid() && block * PagesPerBlock < |chip.pages|
      modifies chip`cache, chip.iobuf
      ensures Valid() && buf == Spares(chip.pages)[block * PagesPerBlock][..Min(len, SpareSize)]
    {
      var n := Min(len, SpareSize);
      chip.PageRead(block * PagesPerBlock);
      chip.ReadCache(PageSize, n + 1);
      buf := chip.iobuf[1..n + 1];
      assert Spares(chip.pages)[block * PagesPerBlock][..n] == chip.cache[PageSize..PageSize + n];
    }
  }

  // ---------------------------------------------------------------- what follows

  /** Programming only clears bits, and only in the bytes it names. */
  lemma ProgramClears(f: seq<byte>, addr: nat, d: seq<byte>, i: nat)
    requires addr + |d| <= |f| && i < |f|
    ensures Program(f, addr, d)[i] & f[i] == Program(f, addr, d)[i]
    ensures !(addr <= i < addr + |d|) ==> Program(f, addr, d)[i] == f[i]
  {
    ProgramAt(f, addr, d, i);
    if addr <= i < addr + |d| {
      AndTwice(f[i], d[i - addr]);
    } else {
      AndSame(f[i]);
    }
  }

  lemma AndTwice(x: byte, y: byte)
    ensures (x & y) & x == x & y
  {
  }

  lemma AndSame(x: byte)
    ensures x & x == x
  {
  }

  /** Erase, then program: the data reads back, and the rest of the block reads 0xFF. */
  lemma EraseThenProgram(f: seq<byte>, addr: nat, d: seq<byte>)
    requires SectorBase(Block, addr) + Block.sector <= |f| && addr + |d| <= SectorBase(Block, addr) + Block.sector
    ensures Program(EraseSector(Block, f, addr), addr, d) == Splice(EraseSector(Block, f, addr), addr, d)
  {
    var e := EraseSector(Block, f, addr);
    assert e[addr..addr + |d|] == Fill(|d|, 0xFF);
    ProgramErased(e, addr, d);
  }

  /** A program with nothing to load is harmless exactly when the cache has no zero bit where the page has a one. */
  lemma EmptyProgram(page: seq<byte>, cache: seq<byte>)
    requires |page| == |cache| == RawPage
    ensures And(page, cache) == page <==> forall i | 0 <= i < RawPage :: page[i] & !cache[i] == 0
  {
    forall i | 0 <= i < RawPage
      ensures And(page, cache)[i] == page[i] <==> page[i] & !cache[i] == 0
    {
      AndKeeps(page[i], cache[i]);
    }
    if And(page, cache) == page {
      assert forall i | 0 <= i < RawPage :: And(page, cache)[i] == page[i];
    }
  }

  lemma AndKeeps(p: byte, c: byte)
    ensures p & c == p <==> p & !c == 0
  {
  }

  // ---------------------------------------------------------------- any sequence of operations

  datatype Op =
    | ReadOp(addr: nat, len: nat)
    | EraseOp(addr: nat, blockFault: Option<seq<seq<byte>>>)
    | WriteOp(addr: nat, bytes: seq<byte>, pageFault: Option<seq<byte>>)
    | OobOp(block: nat, bytes: seq<byte>, pageFault: Option<seq<byte>>)
    | ReadOobOp(block: nat, len: nat)

  datatype Answer = Bytes(bytes: seq<byte>) | Code(rc: int)

  /** Inside the chip, and nothing programmed is empty. */
  ghost predicate Legal(pageCount: nat, op: Op) {
    match op
    case ReadOp(addr, len) => addr + len <= pageCount * PageSize
    case EraseOp(addr, fault) => addr < pageCount * PageSize && BlockFault(fault)
    case WriteOp(addr, bytes, fault) => addr < pageCount * PageSize && bytes != [] && PageFault(fault)
    case OobOp(block, bytes, fault) => block * PagesPerBlock < pageCount && bytes != [] && PageFault(fault)
    case ReadOobOp(block, _) => block * PagesPerBlock < pageCount
  }

  function RcOf(failed: bool): Answer {
    Code(if failed then -1 else 0)
  }

  /** One operation on the flat data area and the spares. */
  ghost function FlatStep(f: Flat, op: Op): (r: (Flat, Answer))
    requires f.Shaped() && Legal(|f.spares|, op)
    ensures r.0.Shaped() && |r.0.spares| == |f.spares|
  {
    match op
    case ReadOp(addr, len) => (f, Bytes(f.data[addr..addr + len]))
    case EraseOp(addr, fault) =>
      ShapedErase(f, addr, fault);
      (FlatErase(f, addr, fault), RcOf(fault.Some?))
    case WriteOp(addr, bytes, fault) =>
      var d := bytes[..Min(|bytes|, PageSize - addr % PageSize)];
      ShapedWrite(f, addr, d, fault);
      (FlatWrite(f, addr, d, fault), RcOf(fault.Some?))
    case OobOp(block, bytes, fault) =>
      var d := bytes[..Min(|bytes|, SpareSize)];
      ShapedOob(f, block, d, fault);
      (FlatOob(f, block, d, fault), RcOf(fault.Some?))
    case ReadOobOp(block, len) => (f, Bytes(f.spares[block * PagesPerBlock][..Min(len, SpareSize)]))
  }

  lemma ShapedErase(f: Flat, addr: nat, fault: Option<seq<seq<byte>>>)
    requires f.Shaped() && addr < |f.data| && BlockFault(fault)
    ensures CanErase(f, addr)
    ensures FlatErase(f, addr, fault).Shaped() && |FlatErase(f, addr, fault).spares| == |f.spares|
  {
    BlockBytes(addr, addr / PageSize, |f.spares|);
    FirstRow(addr, addr / PageSize);
  }

  lemma ShapedWrite(f: Flat, addr: nat, d: seq<byte>, fault: Option<seq<byte>>)
    requires f.Shaped() && addr < |f.data| && addr % PageSize + |d| <= PageSize && PageFault(fault)
    ensures CanWrite(f, addr, d)
    ensures FlatWrite(f, addr, d, fault).Shaped() && |FlatWrite(f, addr, d, fault).spares| == |f.spares|
  {
  }

  lemma ShapedOob(f: Flat, block: nat, d: seq<byte>, fault: Option<seq<byte>>)
    requires f.Shaped() && block * PagesPerBlock < |f.spares| && |d| <= SpareSize && PageFault(fault)
    ensures FlatOob(f, block, d, fault).Shaped() && |FlatOob(f, block, d, fault).spares| == |f.spares|
  {
  }

  ghost predicate AllLegal(pageCount: nat, ops: seq<Op>) {
    forall op | op in ops :: Legal(pageCount, op)
  }

  ghost function FlatRun(f: Flat, ops: seq<Op>): (r: (Flat, seq<Answer>))
    requires f.Shaped() && AllLegal(|f.spares|, ops)
    decreases |ops|
  {
    if ops == [] then (f, [])
    else
      var (f', a) := FlatStep(f, ops[0]);
      var (f'', as') := FlatRun(f', ops[1..]);
      (f'', [a] + as')
  }

  method RunOne(d: Driver, op: Op) returns (a: Answer)
    requires d.Valid() && Legal(|d.chip.pages|, op)
    modifies d.chip, d.chip.iobuf
    ensures d.Valid() && (View(d.chip.pages), a) == FlatStep(View(old(d.chip.pages)), op)
  {
    match op {
      case ReadOp(addr, len) =>
        var bytes := d.Read(addr, len);
        a := Bytes(bytes);
      case EraseOp(addr, fault) =>
        var rc := d.Erase(addr, fault);
        a := Code(rc);
      case WriteOp(addr, bytes, fault) =>
        var rc := d.WritePage(addr, bytes, fault);
        a := Code(rc);
      case OobOp(block, bytes, fault) =>
        var rc := d.ProgramOob(block, bytes, fault);
        a := Code(rc);
      case ReadOobOp(block, len) =>
        var bytes := d.ReadOob(block, len);
        a := Bytes(bytes);
    }
  }

  /** `want` is what comes of running `ops` on `f` after the answers so far. */
  ghost predicate Remaining(f: Flat, ops: seq<Op>, answers: seq<Answer>, want: (Flat, seq<Answer>)) {
    && f.Shaped() && AllLegal(|f.spares|, ops)
    && FlatRun(f, ops).0 == want.0 && answers + FlatRun(f, ops).1 == want.1
  }

  lemma RemainingStart(f: Flat, ops: seq<Op>, want: (Flat, seq<Answer>))
    requires f.Shaped() && AllLegal(|f.spares|, ops) && want == FlatRun(f, ops)
    ensures Remaining(f, ops, [], want)
  {
    assert [] + FlatRun(f, ops).1 == FlatRun(f, ops).1;
  }

  lemma RemainingStep(f: Flat, ops: seq<Op>, answers: seq<Answer>, want: (Flat, seq<Answer>))
    requires ops != [] && Remaining(f, ops, answers, want)
    ensures var (f', a) := FlatStep(f, ops[0]);
            Remaining(f', ops[1..], answers + [a], want)
  {
    var (f', a) := FlatStep(f, ops[0]);
    var rest := FlatRun(f', ops[1..]).1;
    assert answers + ([a] + rest) == answers + [a] + rest;
  }

  lemma RemainingEnd(f: Flat, answers: seq<Answer>, want: (Flat, seq<Answer>))
    requires Remaining(f, [], answers, want)
    ensures (f, answers) == want
  {
    assert answers + [] == answers;
  }

  /** Whatever is asked of the driver, in whatever order, and whichever erase or program the chip fails: answers, data
      area and spares are those of the flat view. */
  method RunAll(d: Driver, ops: seq<Op>) returns (answers: seq<Answer>)
    requires d.Valid() && AllLegal(|d.chip.pages|, ops)
    modifies d.chip, d.chip.iobuf
    ensures d.Valid() && (View(d.chip.pages), answers) == FlatRun(View(old(d.chip.pages)), ops)
  {
    answers := [];
    ghost var want := FlatRun(View(d.chip.pages), ops);
    assert ops[0..] == ops;
    RemainingStart(View(d.chip.pages), ops, want);
    var i := 0;
    while i < |ops|
      invariant 0 <= i <= |ops| && d.Valid() && Remaining(View(d.chip.pages), ops[i..], answers, want)
    {
      RemainingStep(View(d.chip.pages), ops[i..], answers, want);
      assert ops[i..][1..] == ops[i + 1..] && ops[i..][0] == ops[i];
      var a := RunOne(d, ops[i]);
      answers := answers + [a];
      i := i + 1;
    }
    assert ops[i..] == [];
    RemainingEnd(View(d.chip.pages), answers, want);
  }
}
