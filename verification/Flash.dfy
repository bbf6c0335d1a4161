/**
  The flash chip as the stream handler sees it: erasing a sector sets it to 0xFF,
  programming a page can only clear bits, and pages whose whole words read 0xFF
  are never programmed (agent/main.c:810-833).
 */
module Flash {
  import opened Bytes

  /** Sector and page size of the identified chip. */
  datatype Geometry = Geometry(sector: nat, page: nat) {
    ghost predicate Valid() {
      && 0 < page && page % 4 == 0
      && page <= sector && sector % page == 0
      && sector <= 0x20000
    }
  }

  /** What the chip did with one erase command. A failed erase, which the driver's
      read-back verify reports, may leave anything in the sector. */
  datatype EraseResult = Clean | Failed(content: seq<byte>)

  function SectorBase(g: Geometry, addr: nat): nat
    requires 0 < g.sector
  {
    addr - addr % g.sector
  }

  /** Erasing any address clears the sector that contains it. */
  function EraseSector(g: Geometry, f: seq<byte>, addr: nat): (r: seq<byte>)
    requires 0 < g.sector && SectorBase(g, addr) + g.sector <= |f|
  {
    Splice(f, SectorBase(g, addr), Fill(g.sector, 0xFF))
  }

  /** Programming ANDs the data into the cells. */
  function Program(f: seq<byte>, addr: nat, d: seq<byte>): (r: seq<byte>)
    requires addr + |d| <= |f|
  {
    Splice(f, addr, seq(|d|, i requires 0 <= i < |d| => f[addr + i] & d[i]))
  }

  /** The skip test compares whole 32-bit words only; `len % 4` tail bytes are not looked at. */
  predicate WordsAreFf(d: seq<byte>) {
    forall i | 0 <= i < |d| / 4 * 4 :: d[i] == 0xFF
  }

  /** One turn of the program loop: a page the skip test calls empty is left alone. */
  function ProgramPage(f: seq<byte>, addr: nat, page: seq<byte>): (r: seq<byte>)
    requires addr + |page| <= |f|
    ensures |r| == |f|
  {
    if WordsAreFf(page) then f else Program(f, addr, page)
  }

  /** The program loop of `erase_and_program`, page by page. */
  function ProgramPages(g: Geometry, f: seq<byte>, addr: nat, d: seq<byte>): (r: seq<byte>)
    requires 0 < g.page && addr + |d| <= |f|
    ensures |r| == |f|
    decreases |d|
  {
    if d == [] then f else
    var chunk := Min(|d|, g.page);
    ProgramPages(g, ProgramPage(f, addr, d[..chunk]), addr + chunk, d[chunk..])
  }

  function EraseProgram(g: Geometry, f: seq<byte>, addr: nat, d: seq<byte>): (r: seq<byte>)
    requires 0 < g.page && 0 < g.sector && SectorBase(g, addr) + g.sector <= |f| && addr + |d| <= |f|
    ensures |r| == |f|
  {
    ProgramPages(g, EraseSector(g, f, addr), addr, d)
  }

  // ---------------------------------------------------------------- what lands

  /** What one page leaves in erased cells. */
  function LandedPage(page: seq<byte>): (r: seq<byte>)
    ensures |r| == |page|
  {
    if WordsAreFf(page) then Fill(|page|, 0xFF) else page
  }

  /** What `d` leaves in erased cells. */
  function Landed(g: Geometry, d: seq<byte>): (r: seq<byte>)
    requires 0 < g.page
    ensures |r| == |d|
  {
    if |d| <= g.page then LandedPage(d) else LandedPage(d[..g.page]) + Landed(g, d[g.page..])
  }

  function LastPage(g: Geometry, d: seq<byte>): (r: seq<byte>)
    requires 0 < g.page
  {
    if |d| <= g.page then d else LastPage(g, d[g.page..])
  }

  /** A caller can check this before writing: the image does not end in a page whose
      whole words are all 0xFF while the bytes after those words are not. */
  predicate TailVisible(g: Geometry, d: seq<byte>)
    requires 0 < g.page
  {
    var p := LastPage(g, d);
    WordsAreFf(p) ==> forall i | |p| / 4 * 4 <= i < |p| :: p[i] == 0xFF
  }

  lemma ProgramErased(f: seq<byte>, addr: nat, d: seq<byte>)
    requires addr + |d| <= |f|
    requires f[addr..addr + |d|] == Fill(|d|, 0xFF)
    ensures Program(f, addr, d) == Splice(f, addr, d)
  {
    forall i | 0 <= i < |d|
      ensures f[addr + i] & d[i] == d[i]
    {
      assert f[addr..addr + |d|][i] == 0xFF;
      assert 0xFF & d[i] == d[i];
    }
    assert seq(|d|, i requires 0 <= i < |d| => f[addr + i] & d[i]) == d;
  }

  lemma ProgramPageErased(f: seq<byte>, addr: nat, page: seq<byte>)
    requires addr + |page| <= |f|
    requires f[addr..addr + |page|] == Fill(|page|, 0xFF)
    ensures ProgramPage(f, addr, page) == Splice(f, addr, LandedPage(page))
  {
    if WordsAreFf(page) {
      assert Splice(f, addr, f[addr..addr + |page|]) == f;
    } else {
      ProgramErased(f, addr, page);
    }
  }

  lemma FillSplit(f: seq<byte>, addr: nat, n: nat, k: nat)
    requires k <= n && addr + n <= |f| && f[addr..addr + n] == Fill(n, 0xFF)
    ensures f[addr..addr + k] == Fill(k, 0xFF)
    ensures f[addr + k..addr + n] == Fill(n - k, 0xFF)
  {
    assert f[addr..addr + k] == f[addr..addr + n][..k];
    assert f[addr + k..addr + n] == f[addr..addr + n][k..];
  }

  ghost predicate Erased(f: seq<byte>, addr: nat, n: nat) {
    addr + n <= |f| && f[addr..addr + n] == Fill(n, 0xFF)
  }

  /** The cells behind what was programmed are still erased. */
  lemma ErasedBehind(f: seq<byte>, addr: nat, n: nat, l: seq<byte>)
    requires |l| <= n && Erased(f, addr, n)
    ensures Erased(Splice(f, addr, l), addr + |l|, n - |l|)
  {
    FillSplit(f, addr, n, |l|);
    assert Splice(f, addr, l)[addr + |l|..addr + n] == f[addr + |l|..addr + n];
  }

  /** Programming `d` leaves `l`. */
  ghost predicate Leaves(g: Geometry, f: seq<byte>, addr: nat, d: seq<byte>, l: seq<byte>)
    requires 0 < g.page
  {
    && |l| == |d| && addr + |l| <= |f|
    && (forall y {:trigger Is(y, d)} | Is(y, d) && addr + |y| <= |f| ::
          ProgramPages(g, f, addr, y) == Splice(f, addr, l))
  }

  /** `l` is what lands of `d`. */
  ghost predicate Lands(g: Geometry, d: seq<byte>, l: seq<byte>)
    requires 0 < g.page
  {
    forall y {:trigger Is(y, d)} | Is(y, d) :: Landed(g, y) == l
  }

  ghost predicate PageLands(d: seq<byte>, chunk: nat, l: seq<byte>) {
    forall n: nat {:trigger IsNat(n, chunk)} | IsNat(n, chunk) && n <= |d| :: LandedPage(d[..n]) == l
  }

  lemma PageLanded(d: seq<byte>, chunk: nat) returns (l: seq<byte>)
    requires chunk <= |d|
    ensures |l| == chunk && PageLands(d, chunk, l)
  {
    l := LandedPage(d[..chunk]);
  }

  lemma LandsRest(g: Geometry, d: seq<byte>, chunk: nat, page: seq<byte>, l: seq<byte>)
    requires 0 < g.page && d != [] && chunk == Min(|d|, g.page)
    requires PageLands(d, chunk, page) && Lands(g, d[chunk..], l)
    ensures Lands(g, d, page + l)
  {
    assert IsNat(chunk, chunk) && Is(d[chunk..], d[chunk..]);
    LandedStep(g, d);
  }

  lemma FirstPage(g: Geometry, f: seq<byte>, addr: nat, d: seq<byte>, chunk: nat, page: seq<byte>)
    requires 0 < g.page && d != [] && Erased(f, addr, |d|) && chunk == Min(|d|, g.page) == |page|
    requires PageLands(d, chunk, page)
    ensures ProgramPages(g, f, addr, d) == ProgramPages(g, Splice(f, addr, page), addr + chunk, d[chunk..])
  {
    assert IsNat(chunk, chunk);
    FillSplit(f, addr, |d|, chunk);
    ProgramPageErased(f, addr, d[..chunk]);
  }

  lemma LeavesRest(g: Geometry, f: seq<byte>, addr: nat, d: seq<byte>, chunk: nat, page: seq<byte>, l: seq<byte>)
    requires 0 < g.page && d != [] && Erased(f, addr, |d|) && chunk == Min(|d|, g.page) == |page|
    requires PageLands(d, chunk, page) && Leaves(g, Splice(f, addr, page), addr + chunk, d[chunk..], l)
    ensures Leaves(g, f, addr, d, page + l)
  {
    FirstPage(g, f, addr, d, chunk, page);
    assert Is(d[chunk..], d[chunk..]);
    SpliceAdjacent(f, addr, page, l);
  }

  lemma LeavesNone(g: Geometry, f: seq<byte>, addr: nat)
    requires 0 < g.page && addr <= |f|
    ensures Leaves(g, f, addr, [], []) && Lands(g, [], [])
  {
    assert Splice(f, addr, []) == f;
  }

  lemma {:induction false} LeavesLanded(g: Geometry, f: seq<byte>, addr: nat, d: seq<byte>) returns (l: seq<byte>)
    requires 0 < g.page && Erased(f, addr, |d|)
    ensures Leaves(g, f, addr, d, l) && Lands(g, d, l)
    decreases |d|
  {
    if d == [] {
      LeavesNone(g, f, addr);
      l := [];
    } else {
      var chunk := Min(|d|, g.page);
      var page := PageLanded(d, chunk);
      ErasedBehind(f, addr, |d|, page);
      l := LeavesLanded(g, Splice(f, addr, page), addr + chunk, d[chunk..]);
      LeavesRest(g, f, addr, d, chunk, page, l);
      LandsRest(g, d, chunk, page, l);
      l := page + l;
    }
  }

  /** Programming erased cells leaves exactly the landed bytes, and nothing else moves. */
  lemma ProgramPagesContent(g: Geometry, f: seq<byte>, addr: nat, d: seq<byte>)
    requires 0 < g.page && addr + |d| <= |f|
    requires f[addr..addr + |d|] == Fill(|d|, 0xFF)
    ensures ProgramPages(g, f, addr, d) == Splice(f, addr, Landed(g, d))
  {
    var l := LeavesLanded(g, f, addr, d);
    assert Is(d, d);
  }

  lemma LandedStep(g: Geometry, d: seq<byte>)
    requires 0 < g.page
    ensures var chunk := Min(|d|, g.page);
            Landed(g, d) == LandedPage(d[..chunk]) + Landed(g, d[chunk..])
  {
    if |d| <= g.page {
      assert d[..|d|] == d && d[|d|..] == [];
      assert Landed(g, []) == [];
    }
  }

  /** One call of `erase_and_program` on an aligned sector: all of the sector is new,
      no byte outside it changes. */
  lemma EraseProgramContent(g: Geometry, f: seq<byte>, addr: nat, d: seq<byte>)
    requires 0 < g.page && 0 < g.sector && |d| <= g.sector
    requires SectorBase(g, addr) == addr && addr + g.sector <= |f|
    ensures EraseProgram(g, f, addr, d) == Splice(f, addr, Landed(g, d) + Fill(g.sector - |d|, 0xFF))
  {
    var e := EraseSector(g, f, addr);
    assert e[addr..addr + |d|] == Fill(|d|, 0xFF);
    ProgramPagesContent(g, e, addr, d);
    SpliceOverFill(f, addr, g.sector, Landed(g, d));
  }

  lemma SpliceOverFill(f: seq<byte>, addr: nat, n: nat, d: seq<byte>)
    requires |d| <= n && addr + n <= |f|
    ensures Splice(Splice(f, addr, Fill(n, 0xFF)), addr, d) == Splice(f, addr, d + Fill(n - |d|, 0xFF))
  {
    var l, r := Splice(Splice(f, addr, Fill(n, 0xFF)), addr, d), Splice(f, addr, d + Fill(n - |d|, 0xFF));
    assert forall i | 0 <= i < |f| :: l[i] == r[i];
  }

  /** A whole number of pages ahead of the rest lands on its own. */
  lemma {:induction false} LandedAppend(g: Geometry, a: seq<byte>, b: seq<byte>)
    requires 0 < g.page && |a| % g.page == 0
    ensures Landed(g, a + b) == Landed(g, a) + Landed(g, b)
    decreases |a|
  {
    if a == [] {
      assert a + b == b;
    } else {
      PageDown(g.page, |a|);
      assert (a + b)[..g.page] == a[..g.page];
      assert (a + b)[g.page..] == a[g.page..] + b;
      LandedAppend(g, a[g.page..], b);
      if |a| == g.page {
        assert a[..g.page] == a;
        if b == [] { assert a + b == a; }
      }
    }
  }

  lemma PageDown(page: int, n: int)
    requires 0 < page && 0 < n && n % page == 0
    ensures page <= n && (n - page) % page == 0
  {
    var k := n / page;
    assert n == k * page;
    if n < page {
      SmallMultiple(k, page);
    }
    DivModUnique(n - page, page, k - 1, 0);
  }

  lemma LandedFf(g: Geometry, n: nat)
    requires 0 < g.page
    ensures Landed(g, Fill(n, 0xFF)) == Fill(n, 0xFF)
    decreases n
  {
    if n > g.page {
      assert Fill(n, 0xFF)[..g.page] == Fill(g.page, 0xFF);
      assert Fill(n, 0xFF)[g.page..] == Fill(n - g.page, 0xFF);
      LandedFf(g, n - g.page);
    }
  }

  /** A page lands unchanged unless the skip test overlooks its tail. */
  lemma LandedPageIsPage(p: seq<byte>)
    ensures LandedPage(p) == p
            <==> (WordsAreFf(p) ==> forall i | |p| / 4 * 4 <= i < |p| :: p[i] == 0xFF)
  {
    if WordsAreFf(p) && LandedPage(p) == p {
      assert forall i | 0 <= i < |p| :: p[i] == Fill(|p|, 0xFF)[i];
    }
  }

  /** The image lands byte for byte exactly when its tail is visible to the skip test. */
  lemma {:induction false} LandedIsImage(g: Geometry, d: seq<byte>)
    requires 0 < g.page && g.page % 4 == 0
    ensures Landed(g, d) == d <==> TailVisible(g, d)
    decreases |d|
  {
    if |d| <= g.page {
      LandedPageIsPage(d);
    } else {
      var p, rest := d[..g.page], d[g.page..];
      LandedPageIsPage(p);
      LandedIsImage(g, rest);
      assert |p| / 4 * 4 == |p|;
      assert d == p + rest;
      if Landed(g, d) == d {
        assert Landed(g, rest) == Landed(g, d)[g.page..];
      }
    }
  }

  /** An input on which the agent acknowledges a write that dropped a byte: five bytes, the last
      one not 0xFF, behind a word of 0xFF. */
  lemma HiddenTailLost()
    ensures var g := Geometry(0x10000, 256);
            var d := [0xFF, 0xFF, 0xFF, 0xFF, 0x00];
            g.Valid() && !TailVisible(g, d) && Landed(g, d)[4] != d[4]
  {
    var g := Geometry(0x10000, 256);
    var d: seq<byte> := [0xFF, 0xFF, 0xFF, 0xFF, 0x00];
    assert LastPage(g, d) == d && d[4] == 0x00;
  }

  // ---------------------------------------------------------------- the C code

  /** `page_is_ff`: word reads from a byte buffer. */
  method PageIsFf(data: array<byte>, off: nat, len: nat) returns (ff: bool)
    requires off + len <= data.Length
    ensures ff == WordsAreFf(data[off..off + len])
  {
    ghost var page := data[off..off + len];
    var i := 0;
    while i < len / 4
      invariant 0 <= i <= len / 4
      invariant forall k | 0 <= k < i * 4 :: page[k] == 0xFF
    {
      var w := off + i * 4;
      if data[w] != 0xFF || data[w + 1] != 0xFF || data[w + 2] != 0xFF || data[w + 3] != 0xFF {
        ghost var bad := if data[w] != 0xFF then 0 else if data[w + 1] != 0xFF then 1
                         else if data[w + 2] != 0xFF then 2 else 3;
        assert page[i * 4 + bad] == data[w + bad];
        return false;
      }
      assert page[i * 4] == data[w] && page[i * 4 + 1] == data[w + 1];
      assert page[i * 4 + 2] == data[w + 2] && page[i * 4 + 3] == data[w + 3];
      i := i + 1;
    }
    ff := true;
  }

  /** `flash_erase_sector` on the chip's cells: -1 when the post-erase verify fails. */
  method EraseCells(chip: array<byte>, g: Geometry, addr: nat, result: EraseResult) returns (rc: int)
    requires 0 < g.sector && SectorBase(g, addr) + g.sector <= chip.Length
    requires result.Failed? ==> |result.content| == g.sector
    modifies chip
    ensures rc == if result.Clean? then 0 else -1
    ensures chip[..] == if result.Clean? then EraseSector(g, old(chip[..]), addr)
                        else Splice(old(chip[..]), SectorBase(g, addr), result.content)
  {
    var base := SectorBase(g, addr);
    forall i | 0 <= i < g.sector {
      chip[base + i] := if result.Clean? then 0xFF else result.content[i];
    }
    rc := if result.Clean? then 0 else -1;
  }

  /** `flash_write_page`. */
  method WriteCells(chip: array<byte>, addr: nat, buf: array<byte>, off: nat, len: nat)
    requires chip != buf && addr + len <= chip.Length && off + len <= buf.Length
    modifies chip
    ensures chip[..] == Program(old(chip[..]), addr, buf[off..off + len])
  {
    ghost var d := buf[off..off + len];
    forall i | 0 <= i < len {
      chip[addr + i] := chip[addr + i] & buf[off + i];
    }
    forall i | 0 <= i < len
      ensures chip[addr + i] == old(chip[..])[addr + i] & d[i]
    {
      assert old(chip[..])[addr + i] == old(chip[addr + i]) && d[i] == old(buf[off + i]);
    }
  }

  method WritePageUnlessFf(chip: array<byte>, addr: nat, buf: array<byte>, off: nat, len: nat)
    requires chip != buf && addr + len <= chip.Length && off + len <= buf.Length
    modifies chip
    ensures chip[..] == ProgramPage(old(chip[..]), addr, buf[off..off + len])
  {
    var ff := PageIsFf(buf, off, len);
    if !ff {
      WriteCells(chip, addr, buf, off, len);
    }
  }

  /** Programming `rest` from `at` on is all that separates `cells` from `want`. */
  ghost predicate Leads(g: Geometry, cells: seq<byte>, at: nat, rest: seq<byte>, want: seq<byte>)
    requires 0 < g.page
  {
    at + |rest| <= |cells| && forall r {:trigger Is(r, rest)} | Is(r, rest) :: ProgramPages(g, cells, at, r) == want
  }

  lemma LeadsOn(g: Geometry, cells: seq<byte>, at: nat, rest: seq<byte>, want: seq<byte>)
    requires 0 < g.page && rest != [] && Leads(g, cells, at, rest, want)
    ensures var chunk := Min(|rest|, g.page);
            Leads(g, ProgramPage(cells, at, rest[..chunk]), at + chunk, rest[chunk..], want)
  {
    assert Is(rest, rest);
  }

  lemma LeadsEnd(g: Geometry, cells: seq<byte>, at: nat, want: seq<byte>)
    requires 0 < g.page && Leads(g, cells, at, [], want)
    ensures cells == want
  {
    assert Is<seq<byte>>([], []);
  }

  /** One turn of the program loop. */
  method ProgramNext(chip: array<byte>, g: Geometry, at: nat, buf: array<byte>, off: nat, bytes: nat,
                     ghost want: seq<byte>) returns (chunk: nat)
    requires chip != buf && 0 < g.page && off < bytes <= buf.Length
    requires Leads(g, chip[..], at, buf[off..bytes], want)
    modifies chip
    ensures 0 < chunk <= bytes - off && Leads(g, chip[..], at + chunk, buf[off + chunk..bytes], want)
  {
    chunk := Min(bytes - off, g.page);
    ghost var rest := buf[off..bytes];
    assert rest[..chunk] == buf[off..off + chunk] && rest[chunk..] == buf[off + chunk..bytes];
    LeadsOn(g, chip[..], at, rest, want);
    WritePageUnlessFf(chip, at, buf, off, chunk);
  }

  /** The program loop, in place on the chip. */
  method ProgramBuffer(chip: array<byte>, g: Geometry, addr: nat, buf: array<byte>, bytes: nat, ghost want: seq<byte>)
    requires chip != buf && 0 < g.page && bytes <= buf.Length && addr + bytes <= chip.Length
    requires Leads(g, chip[..], addr, buf[0..bytes], want)
    modifies chip
    ensures chip[..] == want
  {
    var offset := 0;
    while offset < bytes
      invariant 0 <= offset <= bytes
      invariant Leads(g, chip[..], addr + offset, buf[offset..bytes], want)
    {
      var chunk := ProgramNext(chip, g, addr + offset, buf, offset, bytes, want);
      offset := offset + chunk;
    }
    assert buf[offset..bytes] == [];
    LeadsEnd(g, chip[..], addr + bytes, want);
  }

  /** `erase_and_program`, in place on the chip. */
  method EraseAndProgram(chip: array<byte>, g: Geometry, addr: nat, buf: array<byte>, bytes: nat,
                         result: EraseResult) returns (rc: int)
    requires chip != buf && 0 < g.page && 0 < g.sector && SectorBase(g, addr) + g.sector <= chip.Length
    requires bytes <= buf.Length && addr + bytes <= chip.Length
    requires result.Failed? ==> |result.content| == g.sector
    modifies chip
    ensures rc == if result.Clean? then 0 else -1
    ensures chip[..] == if result.Clean? then EraseProgram(g, old(chip[..]), addr, buf[..bytes])
                        else Splice(old(chip[..]), SectorBase(g, addr), result.content)
  {
    rc := EraseCells(chip, g, addr, result);
    if rc == 0 {
      assert buf[..bytes] == buf[0..bytes];
      ProgramBuffer(chip, g, addr, buf, bytes, ProgramPages(g, chip[..], addr, buf[0..bytes]));
    }
  }
}
