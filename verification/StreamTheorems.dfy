/**
  The promises of a flash stream, for every run over links that lose packets in both directions.
 */
module StreamTheorems {
  import opened Bytes
  import opened Flash
  import opened StreamTypes
  import opened StreamSystem
  import opened StreamSafety
  import A = StreamAgent
  import H = StreamHost

  // ---------------------------------------------------------------- what the flash holds

  /** What the covered sectors hold at the end: the image as it lands, then erased cells. */
  function Target(c: Config): (t: seq<byte>)
    requires Sized(c)
    ensures |t| == Count(c) * c.q.g.sector
  {
    CoveredBytes(c);
    Landed(c.q.g, c.q.image) + Fill(Count(c) * c.q.g.sector - |c.q.image|, 0xFF)
  }

  lemma CoveredBytes(c: Config)
    requires Sized(c)
    ensures |c.q.image| <= Count(c) * c.q.g.sector < |c.q.image| + c.q.g.sector
  {
    var m := c.q.g.sector;
    var r := (|c.q.image| + m - 1) % m;
    assert |c.q.image| + m - 1 == Count(c) * m + r;
  }

  lemma MultipleOf(k: int, m: int)
    requires 0 < m
    ensures (k * m) % m == 0
  {
    DivModUnique(k * m, m, k, 0);
  }

  /** Aligned sums of sectors start sectors. */
  lemma AlignedSector(g: Geometry, addr: nat, s: nat)
    requires 0 < g.sector && addr % g.sector == 0
    ensures SectorBase(g, addr + s * g.sector) == addr + s * g.sector
  {
    var q := addr / g.sector;
    assert addr + s * g.sector == (q + s) * g.sector;
    MultipleOf(q + s, g.sector);
  }

  /** The covered sectors lie inside the chip. */
  lemma CoveredFits(c: Config)
    requires c.Valid() && Accepted(c)
    ensures c.q.addr + Count(c) * c.q.g.sector <= |c.flash0|
  {
    CoveredBytes(c);
    WholeSectorsFit(c.q.addr, Count(c) * c.q.g.sector, |c.flash0|, |c.q.image|, Count(c), c.q.g.sector);
  }

  /** Sectors that start in a chip of whole sectors end in it. */
  lemma WholeSectorsFit(addr: nat, covered: nat, size: nat, len: nat, n: nat, m: nat)
    requires 0 < m && addr % m == 0 && size % m == 0 && covered == n * m
    requires covered < len + m && addr + len <= size
    ensures addr + covered <= size
  {
    var end, chip := addr / m + n, size / m;
    assert addr + covered == end * m && size == chip * m;
    if end > chip {
      MulMono(chip + 1, end, m);
    }
  }

  lemma PagesInSectors(g: Geometry, s: nat)
    requires g.Valid()
    ensures (s * g.sector) % g.page == 0
  {
    var k := g.sector / g.page;
    assert g.sector == k * g.page;
    assert s * g.sector == (s * k) * g.page by {
      assert s * (k * g.page) == (s * k) * g.page;
    }
    MultipleOf(s * k, g.page);
  }

  /** Page-aligned pieces of an image land independently. */
  lemma LandedTail(g: Geometry, image: seq<byte>, b: nat)
    requires 0 < g.page && b <= |image| && b % g.page == 0
    ensures Landed(g, image)[b..] == Landed(g, image[b..])
  {
    LandedCut(g, image, image[..b], image[b..]);
  }

  lemma LandedHead(g: Geometry, image: seq<byte>, e: nat)
    requires 0 < g.page && e <= |image| && e % g.page == 0
    ensures Landed(g, image)[..e] == Landed(g, image[..e])
  {
    LandedCut(g, image, image[..e], image[e..]);
  }

  lemma LandedCut(g: Geometry, image: seq<byte>, a: seq<byte>, b: seq<byte>)
    requires 0 < g.page && image == a + b && |a| % g.page == 0
    ensures Landed(g, image)[..|a|] == Landed(g, a) && Landed(g, image)[|a|..] == Landed(g, b)
  {
    LandedAppend(g, a, b);
  }

  /** The piece `image[b..b + size]`, or what there is of it. */
  lemma LandedSlice(g: Geometry, image: seq<byte>, b: nat, size: nat, e: nat)
    requires 0 < g.page && b <= |image| && b % g.page == 0 && size % g.page == 0
    requires e == Min(b + size, |image|)
    ensures Landed(g, image)[b..e] == Landed(g, image[b..e])
  {
    var tail, piece := image[b..], image[b..e];
    LandedTail(g, image, b);
    LandedPiece(g, tail, size, piece);
    SliceOfTail(Landed(g, image), b, e);
  }

  lemma LandedPiece(g: Geometry, d: seq<byte>, size: nat, piece: seq<byte>)
    requires 0 < g.page && size % g.page == 0 && |piece| == Min(size, |d|) && piece == d[..|piece|]
    ensures Landed(g, d)[..|piece|] == Landed(g, piece)
  {
    LandedPrefix(g, d, size);
  }

  lemma SliceOfTail(s: seq<byte>, b: nat, e: nat)
    requires b <= e <= |s|
    ensures s[b..][..e - b] == s[b..e]
  {
  }

  lemma LandedPrefix(g: Geometry, d: seq<byte>, size: nat)
    requires 0 < g.page && size % g.page == 0
    ensures Landed(g, d)[..Min(size, |d|)] == Landed(g, d[..Min(size, |d|)])
  {
    if size < |d| {
      LandedHead(g, d, size);
    } else {
      assert d[..|d|] == d;
      assert Landed(g, d)[..|d|] == Landed(g, d);
    }
  }

  lemma PaddedSlice(l: seq<byte>, total: nat, b: nat, size: nat, piece: seq<byte>)
    requires b <= |l| <= total && b + size <= total && piece == l[b..Min(b + size, |l|)]
    ensures |piece| <= size && (l + Fill(total - |l|, 0xFF))[b..b + size] == piece + Fill(size - |piece|, 0xFF)
  {
  }

  /** The `s`-th sector of the target is what writing sector `s` leaves. */
  lemma TargetSector(c: Config, s: nat, b: nat)
    requires Sized(c) && s < Count(c) && b == s * c.q.g.sector
    requires b % c.q.g.page == 0 && c.q.g.sector % c.q.g.page == 0
    ensures b + c.q.g.sector <= |Target(c)| && (s + 1) * c.q.g.sector == b + c.q.g.sector
    ensures var d := SectorData(c.q.g, c.q.image, s);
            && |d| <= c.q.g.sector
            && Target(c)[b..b + c.q.g.sector] == Landed(c.q.g, d) + Fill(c.q.g.sector - |d|, 0xFF)
  {
    var total := Count(c) * c.q.g.sector;
    SectorPlace(c, s, b, total);
    TargetPiece(c.q.g, c.q.image, total, b, SectorData(c.q.g, c.q.image, s));
  }

  lemma SectorPlace(c: Config, s: nat, b: nat, total: nat)
    requires Sized(c) && s < Count(c) && b == s * c.q.g.sector && total == Count(c) * c.q.g.sector
    ensures b <= |c.q.image| <= total && (s + 1) * c.q.g.sector == b + c.q.g.sector <= total
    ensures SectorData(c.q.g, c.q.image, s) == c.q.image[b..Min(b + c.q.g.sector, |c.q.image|)]
  {
    SectorFacts(c.q.g, |c.q.image|, s);
    MulMono(s + 1, Count(c), c.q.g.sector);
    CoveredBytes(c);
  }

  lemma TargetPiece(g: Geometry, image: seq<byte>, total: nat, b: nat, d: seq<byte>)
    requires 0 < g.page && b % g.page == 0 && g.sector % g.page == 0
    requires b <= |image| <= total && b + g.sector <= total && d == image[b..Min(b + g.sector, |image|)]
    ensures |d| <= g.sector
    ensures (Landed(g, image) + Fill(total - |image|, 0xFF))[b..b + g.sector]
            == Landed(g, d) + Fill(g.sector - |d|, 0xFF)
  {
    LandedSlice(g, image, b, g.sector, Min(b + g.sector, |image|));
    PaddedSlice(Landed(g, image), total, b, g.sector, Landed(g, d));
  }

  /** `f` is the chip's old contents with the first `m` covered sectors new, so that each sector is
      wholly old or wholly new and no byte outside the covered range has moved. */
  ghost predicate HasSectors(c: Config, f: seq<byte>, m: nat)
    requires Sized(c)
  {
    HasPrefix(c.flash0, c.q.addr, Target(c), f, m * c.q.g.sector)
  }

  /** Programming a data sector leaves the landed bytes and erased cells. */
  lemma SectorProgrammed(c: Config, s: nat, d: seq<byte>, at: nat)
    requires Sized(c) && BitSet(c.q.bitmap, s) && d == SectorData(c.q.g, c.q.image, s) && |d| <= c.q.g.sector
    requires at == c.q.addr + s * c.q.g.sector && SectorBase(c.q.g, at) == at && at + c.q.g.sector <= |c.flash0|
    ensures After(c, s + 1) == Splice(After(c, s), at, Landed(c.q.g, d) + Fill(c.q.g.sector - |d|, 0xFF))
  {
    AfterData(c, s, at, d);
    EraseProgramContent(c.q.g, After(c, s), at, d);
  }

  /** So does erasing one that is all 0xFF. */
  lemma SectorSkipped(c: Config, s: nat, d: seq<byte>, at: nat)
    requires Sized(c) && !BitSet(c.q.bitmap, s) && d == Fill(|d|, 0xFF) && |d| <= c.q.g.sector
    requires at == c.q.addr + s * c.q.g.sector && SectorBase(c.q.g, at) == at && at + c.q.g.sector <= |c.flash0|
    ensures After(c, s + 1) == Splice(After(c, s), at, Landed(c.q.g, d) + Fill(c.q.g.sector - |d|, 0xFF))
  {
    AfterSkip(c, s, at);
    SkippedContent(c.q.g, After(c, s), at, d);
  }

  lemma SkippedContent(g: Geometry, f: seq<byte>, at: nat, d: seq<byte>)
    requires 0 < g.sector && 0 < g.page && d == Fill(|d|, 0xFF) && |d| <= g.sector
    requires SectorBase(g, at) == at && at + g.sector <= |f|
    ensures A.ChipErase(g, f, at, Clean) == Splice(f, at, Landed(g, d) + Fill(g.sector - |d|, 0xFF))
  {
    LandedFf(g, |d|);
    assert Fill(|d|, 0xFF) + Fill(g.sector - |d|, 0xFF) == Fill(g.sector, 0xFF);
  }

  lemma SectorWritten(c: Config, s: nat, d: seq<byte>, at: nat)
    requires Sized(c) && c.q.Valid() && s < Count(c) && d == SectorData(c.q.g, c.q.image, s) && |d| <= c.q.g.sector
    requires at == c.q.addr + s * c.q.g.sector && SectorBase(c.q.g, at) == at && at + c.q.g.sector <= |c.flash0|
    ensures After(c, s + 1) == Splice(After(c, s), at, Landed(c.q.g, d) + Fill(c.q.g.sector - |d|, 0xFF))
  {
    if BitSet(c.q.bitmap, s) {
      SectorProgrammed(c, s, d, at);
    } else {
      SectorSkipped(c, s, d, at);
    }
  }

  /** One more sector. */
  lemma AfterSector(c: Config, s: nat, b: nat, at: nat)
    requires Sized(c) && c.q.Valid() && s < Count(c) && HasSectors(c, After(c, s), s)
    requires b == s * c.q.g.sector && b % c.q.g.page == 0 && c.q.g.sector % c.q.g.page == 0
    requires at == c.q.addr + s * c.q.g.sector && SectorBase(c.q.g, at) == at
    ensures HasSectors(c, After(c, s + 1), s + 1)
  {
    TargetSector(c, s, b);
    SectorWritten(c, s, SectorData(c.q.g, c.q.image, s), at);
    SectorsGrow(c, After(c, s), After(c, s + 1), s, b);
  }

  lemma SectorsGrow(c: Config, f: seq<byte>, f': seq<byte>, s: nat, b: nat)
    requires Sized(c) && HasSectors(c, f, s) && b == s * c.q.g.sector && (s + 1) * c.q.g.sector == b + c.q.g.sector
    requires b + c.q.g.sector <= |Target(c)| && f' == Splice(f, c.q.addr + b, Target(c)[b..b + c.q.g.sector])
    ensures HasSectors(c, f', s + 1)
  {
    PrefixGrows(c.flash0, c.q.addr, Target(c), f, f', b, b + c.q.g.sector);
  }

  /** `f` is `f0` with the first `e` bytes of `t` at `at`. */
  ghost predicate HasPrefix(f0: seq<byte>, at: nat, t: seq<byte>, f: seq<byte>, e: nat) {
    e <= |t| && at + |t| <= |f0| && f == Splice(f0, at, t[..e])
  }

  lemma PrefixGrows(f0: seq<byte>, at: nat, t: seq<byte>, f: seq<byte>, f': seq<byte>, b: nat, e: nat)
    requires HasPrefix(f0, at, t, f, b) && b <= e <= |t| && f' == Splice(f, at + b, t[b..e])
    ensures HasPrefix(f0, at, t, f', e)
  {
    SplicePrefix(f0, at, t, b, e);
  }

  lemma SplicePrefix(f: seq<byte>, at: nat, t: seq<byte>, b: nat, e: nat)
    requires b <= e <= |t| && at + |t| <= |f|
    ensures Splice(Splice(f, at, t[..b]), at + b, t[b..e]) == Splice(f, at, t[..e])
  {
    SpliceAdjacent(f, at, t[..b], t[b..e]);
    assert t[..b] + t[b..e] == t[..e];
  }

  /** The first `m` sectors are new once they have been written. */
  ghost predicate AfterHas(c: Config, m: nat)
    requires Sized(c)
  {
    forall k: nat | IsNat(k, m) :: HasSectors(c, After(c, k), k)
  }

  lemma AfterNone(c: Config)
    requires c.Valid() && Accepted(c)
    ensures AfterHas(c, 0)
  {
    CoveredFits(c);
    assert Target(c)[..0] == [];
  }

  ghost predicate Aligned(c: Config, s: nat)
    requires Sized(c)
  {
    && (s * c.q.g.sector) % c.q.g.page == 0 && c.q.g.sector % c.q.g.page == 0
    && SectorBase(c.q.g, c.q.addr + s * c.q.g.sector) == c.q.addr + s * c.q.g.sector
  }

  lemma ValidAligned(c: Config, s: nat)
    requires c.Valid()
    ensures Aligned(c, s)
  {
    PagesInSectors(c.q.g, s);
    AlignedSector(c.q.g, c.q.addr, s);
  }

  lemma AfterNext(c: Config, s: nat)
    requires Sized(c) && c.q.Valid() && s < Count(c) && AfterHas(c, s) && Aligned(c, s)
    ensures AfterHas(c, s + 1)
  {
    assert IsNat(s, s);
    var b := s * c.q.g.sector;
    MulMono(0, s, c.q.g.sector);
    AfterSector(c, s, b, c.q.addr + b);
  }

  lemma {:induction false} AfterContent(c: Config, m: nat)
    requires c.Valid() && Accepted(c) && m <= Count(c)
    ensures AfterHas(c, m)
  {
    if m == 0 {
      AfterNone(c);
    } else {
      AfterContent(c, m - 1);
      ValidAligned(c, m - 1);
      AfterNext(c, m - 1);
    }
  }

  lemma HoldsContent(c: Config, f: seq<byte>, m: nat)
    requires c.Valid() && Accepted(c) && m <= Count(c) && Holds(c, f, m)
    ensures HasSectors(c, f, m)
  {
    HoldsAfter(c, f, m);
    AfterContent(c, m);
    assert IsNat(m, m);
  }

  // ---------------------------------------------------------------- main results

  /** A True from `write_flash` means the agent finished and every covered byte landed,
      whatever was lost on the way; the image is there byte for byte exactly when its tail is
      visible to the agent's word-wise skip test. */
  lemma TrueMeansWritten(c: Config, es: seq<Event>)
    requires c.Valid() && Run(c, es).host.pc == H.Returned(true)
    ensures var st := Run(c, es);
            && st.phase == Finished && Accepted(c)
            && HasSectors(c, st.flash, Count(c)) && c.q.addr + |c.q.image| <= |st.flash|
            && st.flash[c.q.addr..c.q.addr + |c.q.image|] == Landed(c.q.g, c.q.image)
            && (st.flash[c.q.addr..c.q.addr + |c.q.image|] == c.q.image <==> TailVisible(c.q.g, c.q.image))
  {
    InvRun(c, es);
    HoldsContent(c, Run(c, es).flash, Count(c));
    FinishedImage(c, Run(c, es).flash);
    LandedIsImage(c.q.g, c.q.image);
  }

  lemma FinishedImage(c: Config, f: seq<byte>)
    requires Sized(c) && HasSectors(c, f, Count(c))
    ensures c.q.addr + |c.q.image| <= |f|
    ensures f[c.q.addr..c.q.addr + |c.q.image|] == Landed(c.q.g, c.q.image)
  {
    CoveredBytes(c);
    var t := Target(c);
    assert t[..Count(c) * c.q.g.sector] == t;
    assert Splice(c.flash0, c.q.addr, t)[c.q.addr..c.q.addr + |t|] == t;
    assert f[c.q.addr..c.q.addr + |c.q.image|] == t[..|c.q.image|];
  }

  /** Images of a whole number of words always land byte for byte. */
  lemma {:induction false} WholeWordsVisible(g: Geometry, d: seq<byte>)
    requires 0 < g.page && g.page % 4 == 0 && |d| % 4 == 0
    ensures TailVisible(g, d)
    decreases |d|
  {
    if |d| > g.page {
      WholeWordsVisible(g, d[g.page..]);
    }
  }

  /** While the agent works, the pending buffer is not the one being filled and holds exactly the
      previous sector; the sectors before it are new, all others are old. So a receive abort,
      which ends the job without touching the flash, leaves every sector wholly old or wholly new. */
  lemma ReachableFlash(c: Config, es: seq<Event>)
    requires c.Valid() && Run(c, es).phase == Running
    ensures var st := Run(c, es);
            && !st.agent.Idle? && Accepted(c) && PipelineOk(c, st.agent.p, st.agent.s)
            && 0 <= FinalSectors(st.agent) <= Count(c)
            && HasSectors(c, st.flash, FinalSectors(st.agent))
    ensures Step(c, Run(c, es), AgentTimeout).flash == Run(c, es).flash
  {
    var st := Run(c, es);
    InvRun(c, es);
    RunningFacts(c, st);
    HoldsContent(c, st.flash, FinalSectors(st.agent));
  }

  lemma RunningFacts(c: Config, st: Sys)
    requires Sized(c) && Inv(c, st) && st.phase == Running
    ensures !st.agent.Idle? && Accepted(c) && PipelineOk(c, st.agent.p, st.agent.s)
    ensures 0 <= FinalSectors(st.agent) <= Count(c) && Holds(c, st.flash, FinalSectors(st.agent))
    ensures Step(c, st, AgentTimeout).flash == st.flash
  {
  }

  /** `f` differs from `f0`, in which every sector is wholly old or wholly new, in covered sector `m` only. */
  ghost predicate WholeBut(c: Config, f: seq<byte>, m: nat, f0: seq<byte>)
    requires Sized(c)
  {
    && m < Count(c) && |f| == |f0| && HasSectors(c, f0, m)
    && forall i | 0 <= i < |f| ::
         f[i] == f0[i]
         || c.q.addr + m * c.q.g.sector <= i < c.q.addr + m * c.q.g.sector + c.q.g.sector
  }

  /** Every sector of `f` is wholly old or wholly new. */
  ghost predicate Whole(c: Config, f: seq<byte>, m: nat)
    requires Sized(c)
  {
    m <= Count(c) && HasSectors(c, f, m)
  }

  /** The chip failed an erase at this event. */
  predicate FailedErase(e: Event) {
    match e
    case AgentReceive(r) => r.Failed?
    case AgentWork(r1, r2) => r1.Failed? || r2.Failed?
    case _ => false
  }

  ghost predicate NoFailedErase(es: seq<Event>) {
    forall i | 0 <= i < |es| :: !FailedErase(es[i])
  }

  /** A job that ends early without a failed erase, by a timeout for one, leaves every sector wholly old or wholly
      new; after a failed erase at most one covered sector, the one being erased, is neither. */
  lemma AbortedContent(c: Config, es: seq<Event>)
    requires c.Valid() && Run(c, es).phase == Aborted && Accepted(c)
    ensures NoFailedErase(es) ==> exists m: nat :: Whole(c, Run(c, es).flash, m)
    ensures (exists m: nat :: Whole(c, Run(c, es).flash, m))
            || (!NoFailedErase(es) && exists m: nat, f0 :: WholeBut(c, Run(c, es).flash, m, f0))
  {
    if NoFailedErase(es) {
      var m := CleanRun(c, es);
      HoldsContent(c, Run(c, es).flash, m);
      assert Whole(c, Run(c, es).flash, m);
    } else {
      InvRun(c, es);
      assert AbortedFlash(c, Run(c, es).flash);
      AbortedWhole(c, Run(c, es).flash);
    }
  }

  lemma AbortedWhole(c: Config, f: seq<byte>)
    requires c.Valid() && Accepted(c) && AbortedFlash(c, f)
    ensures (exists m: nat :: Whole(c, f, m)) || exists m: nat, f0 :: WholeBut(c, f, m, f0)
  {
    var m: nat, f0, content :| AbortedOk(c, f, m, f0, content);
    HoldsContent(c, f0, m);
    if f == f0 {
      assert Whole(c, f, m);
    } else {
      AlignedSector(c.q.g, c.q.addr, m);
      AbortedBytes(c, f, m, f0, content);
      assert WholeBut(c, f, m, f0);
    }
  }

  lemma AbortedBytes(c: Config, f: seq<byte>, m: nat, f0: seq<byte>, content: seq<byte>)
    requires Sized(c) && AbortedOk(c, f, m, f0, content) && HasSectors(c, f0, m) && f != f0
    requires SectorBase(c.q.g, c.q.addr + m * c.q.g.sector) == c.q.addr + m * c.q.g.sector
    ensures WholeBut(c, f, m, f0)
  {
  }

  /** Without failed erases an aborted job leaves the flash as it was between two sectors. */
  lemma {:induction false} CleanRun(c: Config, es: seq<Event>) returns (m: nat)
    requires c.Valid() && NoFailedErase(es)
    ensures Run(c, es).phase.Aborted? ==> m <= Count(c) && Holds(c, Run(c, es).flash, m)
  {
    m := 0;
    if es != [] {
      m := CleanRun(c, es[..|es| - 1]);
      InvRun(c, es[..|es| - 1]);
      m := CleanStep(c, Run(c, es[..|es| - 1]), es[|es| - 1], m);
    }
  }

  lemma CleanStep(c: Config, st: Sys, e: Event, m: nat) returns (m': nat)
    requires c.Valid() && Inv(c, st) && !FailedErase(e)
    requires st.phase.Aborted? ==> m <= Count(c) && Holds(c, st.flash, m)
    ensures Step(c, st, e).phase.Aborted? ==> m' <= Count(c) && Holds(c, Step(c, st, e).flash, m')
  {
    m' := m;
    if st.phase.Running? {
      m' := FinalSectors(st.agent);
      if e.AgentReceive? && st.agent.Receiving? && st.toAgent != [] {
        CleanReceive(c, st, e.r);
      } else if e.AgentWork? && st.agent.AtSector? {
        CleanWork(c, st, e.r1, e.r2);
      }
    } else if st.phase.NotStarted? {
      m' := 0;
      HoldsNone(c);
    }
  }

  lemma CleanReceive(c: Config, st: Sys, r: EraseResult)
    requires c.Valid() && Inv(c, st) && st.phase.Running? && st.agent.Receiving? && st.toAgent != [] && r.Clean?
    ensures Step(c, st, AgentReceive(r)).phase.Running?
  {
    HeadFits(c, st);
  }

  lemma CleanWork(c: Config, st: Sys, r1: EraseResult, r2: EraseResult)
    requires c.Valid() && Inv(c, st) && st.phase.Running? && st.agent.AtSector? && r1.Clean? && r2.Clean?
    ensures !Step(c, st, AgentWork(r1, r2)).phase.Aborted?
  {
    if !(st.agent.s < Count(c) && BitSet(c.q.bitmap, st.agent.s)) {
      TurnOutcome(c, st.agent, st.flash, r1, r2);
    }
  }

  /** Once the job is over, whatever still arrives is answered with an error and never with
      ACK_OK, and no longer touches the flash. */
  lemma LeftoversRefused(c: Config, es: seq<Event>, r: EraseResult)
    requires c.Valid()
    requires Run(c, es).phase == Aborted || Run(c, es).phase == Finished
    requires Run(c, es).toAgent != []
    ensures var st := Run(c, es);
            var st' := Step(c, st, AgentReceive(r));
            && st'.flash == st.flash && st'.phase == st.phase
            && st'.toHost == st.toHost + [Ack(ACK_CRC_ERROR)]
  {
    InvRun(c, es);
  }

  // ---------------------------------------------------------------- packets no host sends

  /** The receive buffer with `d` behind the first `got` bytes; all else as it was. */
  ghost predicate Holding(p: A.Buffers, got: nat, d: seq<byte>, ram: seq<seq<byte>>) {
    && got + |d| <= A.BUFFER_SIZE && |ram| == 2 && |ram[0]| == |ram[1]| == A.BUFFER_SIZE
    && ram[p.rx] == p.ram[p.rx][..got] + d + p.ram[p.rx][got + |d|..] && ram[1 - p.rx] == p.ram[1 - p.rx]
  }

  /** While it receives, the agent takes of whatever data packet arrives only what the sector still needs, drops the
      rest, and ignores everything else; so no packet makes it write behind the sector's bytes, or into the buffer that
      waits for the flash. */
  lemma TakesNoMore(g: Geometry, f: seq<byte>, a: A.Agent, m: ToAgent, r: EraseResult)
    requires 0 < g.sector && 0 < g.page && a.Receiving?
    requires a.got < SectorBytes(g, a.job.size, a.s) <= A.BUFFER_SIZE
    ensures var o := A.OnReceive(g, f, a, Some(m), r);
            var d := if m.Chunk? then m.data[..Min(|m.data|, SectorBytes(g, a.job.size, a.s) - a.got)] else [];
            match o.agent
            case Receiving(job, s, p, got) =>
              && o.flash == f && o.out == [] && job == a.job && s == a.s && p.rx == a.p.rx && p.pending == a.p.pending
              && got == a.got + |d| < SectorBytes(g, a.job.size, a.s) && Holding(a.p, a.got, d, p.ram)
            case AtSector(job, s, p) =>
              && a.got + |d| == SectorBytes(g, a.job.size, a.s) && job == a.job && s == a.s + 1
              && p.pending == a.p.rx && p.rx == 1 - a.p.rx && p.pendingBytes == a.got + |d| && Holding(a.p, a.got, d, p.ram)
            case Idle => A.FlushFails(a.p, r) && a.got + |d| == SectorBytes(g, a.job.size, a.s)
  {
    if m.Chunk? {
      var k := A.Taken(g, a, m.data);
      StoreHolds(a.p, a.got, m.data[..k]);
      if k == 0 {
        assert m.data[..0] == [];
      }
    } else {
      StoreHolds(a.p, a.got, []);
    }
    NothingHeld(a.p, a.got);
  }

  lemma StoreHolds(p: A.Buffers, got: nat, d: seq<byte>)
    requires got + |d| <= A.BUFFER_SIZE
    ensures Holding(p, got, d, A.Store(p, got, d).ram)
  {
  }

  lemma NothingHeld(p: A.Buffers, got: nat)
    requires got <= A.BUFFER_SIZE
    ensures Holding(p, got, [], p.ram)
  {
    assert p.ram[p.rx] == p.ram[p.rx][..got] + [] + p.ram[p.rx][got..];
  }
}
