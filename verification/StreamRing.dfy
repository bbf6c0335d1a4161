/**
  A flash stream in bytes: what is on its way to the agent at any moment, when the agent's ring holds it
  (agent/protocol.c:62-81), and why the byte streams are the packets the runs deliver.
 */
module StreamRing {
  import opened Bytes
  import opened Flash
  import opened StreamTypes
  import opened StreamSystem
  import opened StreamSafety
  import opened StreamLiveness
  import opened StreamTermination
  import opened StreamBound
  import A = StreamAgent
  import H = StreamHost
  import StreamWire
  import Packet
  import AgentRx
  import Receiver

  // ---------------------------------------------------------------- packets as bytes

  function Framed(m: ToAgent): nat {
    |Packet.Build(StreamWire.HostPacks(m))|
  }

  /** Piece `j` of a sector. */
  function Piece(d: seq<byte>, j: nat): seq<byte> {
    if j * ChunkSize > |d| then [] else d[j * ChunkSize..Min(j * ChunkSize + ChunkSize, |d|)]
  }

  /** Packet `j` of sector `s`. */
  function PacketAt(c: Config, s: nat, j: nat): ToAgent {
    Chunk(s * c.q.g.sector / ChunkSize + j, Piece(SectorData(c.q.g, c.q.image, s), j))
  }

  function Sum(f: nat -> nat, n: nat): nat {
    if n == 0 then 0 else Sum(f, n - 1) + f(n - 1)
  }

  function Sizes(c: Config, s: nat): nat -> nat {
    j => Framed(PacketAt(c, s, j))
  }

  /** Bytes of the first `n` packets of sector `s`. */
  function FramedUpTo(c: Config, s: nat, n: nat): nat {
    Sum(Sizes(c, s), n)
  }

  /** Bytes of all packets of sector `s`: a caller can compute it from the image. */
  function FramedSector(c: Config, s: nat): nat {
    FramedUpTo(c, s, Chunks(|SectorData(c.q.g, c.q.image, s)|))
  }

  /** Bytes on their way to the agent. */
  function InFlight(c: Config, es: seq<Event>): nat
    requires Sized(c)
  {
    |StreamWire.WireToAgent(Run(c, es).toAgent)|
  }

  lemma {:induction false} WireAppend(ch: seq<ToAgent>, m: ToAgent)
    ensures |StreamWire.WireToAgent(ch + [m])| == |StreamWire.WireToAgent(ch)| + Framed(m)
  {
    if ch == [] {
      assert [] + [m] == [m] && [m][1..] == [];
    } else {
      assert (ch + [m])[1..] == ch[1..] + [m];
      WireAppend(ch[1..], m);
    }
  }

  lemma {:induction false} WireWithout(ch: seq<ToAgent>, i: nat)
    ensures |StreamWire.WireToAgent(Without(ch, i))| <= |StreamWire.WireToAgent(ch)|
  {
    if 0 < i < |ch| {
      assert Without(ch, i)[1..] == Without(ch[1..], i - 1);
      WireWithout(ch[1..], i - 1);
    } else if i == 0 && ch != [] {
      assert Without(ch, 0) == ch[1..];
    }
  }

  lemma {:induction false} SumGrows(f: nat -> nat, m: nat, n: nat)
    requires m <= n
    ensures Sum(f, m) <= Sum(f, n)
  {
    if m < n {
      SumGrows(f, m, n - 1);
    }
  }

  lemma FramedGrows(c: Config, s: nat, m: nat, n: nat)
    requires m <= n
    ensures FramedUpTo(c, s, m) <= FramedUpTo(c, s, n)
  {
    SumGrows(Sizes(c, s), m, n);
  }

  // ---------------------------------------------------------------- never more than one framed sector

  ghost predicate WireOk(c: Config, st: Sys) {
    !st.phase.NotStarted? ==> |StreamWire.WireToAgent(st.toAgent)| <= FramedUpTo(c, st.host.s, Chunks(st.host.sent))
  }

  lemma PieceIs(d: seq<byte>, from: nat, to: nat, j: nat)
    requires from == j * ChunkSize < |d| && to == Min(from + ChunkSize, |d|)
    ensures Piece(d, j) == d[from..to]
  {
  }

  lemma WholeChunks(sent: nat)
    requires sent % ChunkSize == 0
    ensures Chunks(sent) == sent / ChunkSize && Chunks(sent) * ChunkSize == sent
  {
  }

  /** One step of the send loop, in numbers. */
  lemma Advances(c: Config, h: H.Host)
    requires Fixed(c) && HostOk(c, h) && h.pc.Sending? && H.Advance(c.q, h).1 != []
    ensures var h' := H.Advance(c.q, h).0;
            && h.sent < SectorBytes(c.q.g, |c.q.image|, h.s)
            && h' == H.Host(H.Sending, h.s, h'.sent)
            && h'.sent == Min(h.sent + ChunkSize, SectorBytes(c.q.g, |c.q.image|, h.s))
  {
    SectorFacts(c.q.g, |c.q.image|, h.s);
  }

  /** What the host sends next is the next packet of its sector. */
  lemma SendsPacketAt(c: Config, h: H.Host)
    requires Fixed(c) && HostOk(c, h) && Cut(c, h) && h.pc.Sending? && H.Advance(c.q, h).1 != []
    ensures H.Advance(c.q, h).1 == [PacketAt(c, h.s, Chunks(h.sent))]
    ensures Chunks(H.Advance(c.q, h).0.sent) == Chunks(h.sent) + 1 && H.Advance(c.q, h).0.s == h.s
  {
    var sent, to := h.sent, H.Advance(c.q, h).0.sent;
    Advances(c, h);
    NextChunk(c, h);
    WholeChunks(sent);
    CutSends(sent, to - sent, SectorBytes(c.q.g, |c.q.image|, h.s) - sent);
    PieceIs(SectorData(c.q.g, c.q.image, h.s), sent, to, Chunks(sent));
  }

  lemma FramedNext(c: Config, s: nat, n: nat)
    ensures FramedUpTo(c, s, n + 1) == FramedUpTo(c, s, n) + Framed(PacketAt(c, s, n))
  {
  }

  lemma WireGrows(c: Config, st: Sys, st': Sys, p: ToAgent, n: nat)
    requires WireOk(c, st) && st'.phase == st.phase && st'.host.s == st.host.s && st'.toAgent == st.toAgent + [p]
    requires Chunks(st.host.sent) == n && Chunks(st'.host.sent) == n + 1 && p == PacketAt(c, st.host.s, n)
    ensures WireOk(c, st')
  {
    WireAppend(st.toAgent, p);
    FramedNext(c, st.host.s, n);
  }

  lemma WireSends(c: Config, st: Sys)
    requires Fixed(c) && Inv(c, st) && Cut(c, st.host) && WireOk(c, st)
    requires st.host.pc.Sending? && H.Advance(c.q, st.host).1 != []
    ensures WireOk(c, Step(c, st, HostAdvance))
  {
    SendsPacketAt(c, st.host);
    var n := Chunks(st.host.sent);
    WireGrows(c, st, Step(c, st, HostAdvance), PacketAt(c, st.host.s, n), n);
  }

  lemma WireAdvance(c: Config, st: Sys)
    requires Fixed(c) && Inv(c, st) && Cut(c, st.host) && WireOk(c, st)
    ensures WireOk(c, Step(c, st, HostAdvance))
  {
    if st.host.pc.Start? {
    } else if H.Advance(c.q, st.host).1 != [] {
      WireSends(c, st);
    } else {
      QuietAdvance(c, st.host);
      assert st.toAgent + [] == st.toAgent;
    }
  }

  /** A sector begins with an empty link. */
  /** The host moves on to another sector only when nothing is on its way. */
  lemma NextSectorEmpty(c: Config, st: Sys, st': Sys, m: nat)
    requires Fixed(c) && Bounded(c, st', m) && HostOk(c, st.host) && st' == Step(c, st, HostReceive)
    requires st'.host.s != st.host.s && !st'.phase.NotStarted?
    ensures st'.toAgent == [] && st'.host.sent == 0
  {
  }

  lemma WireReceive(c: Config, st: Sys, m: nat)
    requires Fixed(c) && Inv(c, st) && WireOk(c, st) && Bounded(c, Step(c, st, HostReceive), m)
    ensures WireOk(c, Step(c, st, HostReceive))
  {
    var st' := Step(c, st, HostReceive);
    if !st'.phase.NotStarted? {
      if st'.host.s != st.host.s {
        NextSectorEmpty(c, st, st', m);
      } else if H.Waiting(st.host.pc) && st.toHost != [] {
        SameSent(st);
      }
    }
  }

  lemma SameSent(st: Sys)
    requires H.Waiting(st.host.pc) && st.toHost != []
    ensures var h := H.OnPacket(st.host, st.toHost[0]);
            h.s == st.host.s ==> h.sent == st.host.sent
  {
  }

  lemma AgentTakesHead(c: Config, st: Sys, e: Event)
    requires Sized(c) && Inv(c, st) && (e.AgentReceive? || e.AgentTimeout? || e.AgentWork? || e.AgentReady?)
    ensures var st' := Step(c, st, e);
            && st'.host == st.host && (st'.toAgent == st.toAgent || (st.toAgent != [] && st'.toAgent == st.toAgent[1..]))
            && (st.phase.NotStarted? && !st'.phase.NotStarted? ==> st'.toAgent == [])
  {
  }

  lemma WireHead(ch: seq<ToAgent>)
    requires ch != []
    ensures |StreamWire.WireToAgent(ch[1..])| <= |StreamWire.WireToAgent(ch)|
  {
  }

  lemma WireStep(c: Config, st: Sys, e: Event, m: nat)
    requires Fixed(c) && Inv(c, st) && Cut(c, st.host) && WireOk(c, st) && Bounded(c, Step(c, st, e), m)
    ensures WireOk(c, Step(c, st, e))
  {
    match e
    case HostAdvance => WireAdvance(c, st);
    case HostReceive => WireReceive(c, st, m);
    case HostTimeout =>
    case LoseToAgent(i) => WireWithout(st.toAgent, i);
    case LoseToHost(_) =>
    case _ =>
      AgentTakesHead(c, st, e);
      if st.toAgent != [] {
        WireHead(st.toAgent);
      }
  }

  lemma {:induction false} WireRun(c: Config, es: seq<Event>) returns (m: nat)
    requires c.Valid() && Fixed(c)
    ensures Bounded(c, Run(c, es), m) && WireOk(c, Run(c, es))
  {
    if es == [] {
      m := 0;
    } else {
      m := WireRun(c, es[..|es| - 1]);
      InvRun(c, es[..|es| - 1]);
      m := BoundedStep(c, Run(c, es[..|es| - 1]), es[|es| - 1], m);
      WireStep(c, Run(c, es[..|es| - 1]), es[|es| - 1], m);
    }
  }

  /** The ring is long enough for the request and for every data sector of the image. */
  ghost predicate FitsRing(c: Config)
    requires 0 < c.q.g.sector
  {
    && Framed(Request(c)) < AgentRx.RingSize
    && forall s | 0 <= s < Count(c) && BitSet(c.q.bitmap, s) :: FramedSector(c, s) < AgentRx.RingSize
  }

  lemma FramedPart(c: Config, s: nat, sent: nat)
    requires 0 < c.q.g.sector && s < Count(c) && sent <= SectorBytes(c.q.g, |c.q.image|, s)
    ensures FramedUpTo(c, s, Chunks(sent)) <= FramedSector(c, s)
  {
    SectorDataLength(c.q.g, c.q.image, s);
    FramedGrows(c, s, Chunks(sent), Chunks(|SectorData(c.q.g, c.q.image, s)|));
  }

  /** The request, or a part of one data sector. */
  lemma InFlightIs(c: Config, es: seq<Event>) returns (s: nat, sent: nat)
    requires c.Valid() && Fixed(c)
    ensures InFlight(c, es) <= Framed(Request(c))
            || (s < Count(c) && BitSet(c.q.bitmap, s) && sent <= SectorBytes(c.q.g, |c.q.image|, s)
                && InFlight(c, es) <= FramedUpTo(c, s, Chunks(sent)))
  {
    var st := Run(c, es);
    var m := WireRun(c, es);
    InvRun(c, es);
    s, sent := st.host.s, st.host.sent;
    if st.phase.NotStarted? {
      RequestAlone(c);
    }
  }

  lemma RequestAlone(c: Config)
    ensures |StreamWire.WireToAgent([Request(c)])| == Framed(Request(c))
  {
    WireAppend([], Request(c));
    assert [] + [Request(c)] == [Request(c)];
  }

  lemma NeverFull(c: Config, es: seq<Event>)
    requires c.Valid() && Fixed(c) && FitsRing(c)
    ensures InFlight(c, es) < AgentRx.RingSize
  {
    var s, sent := InFlightIs(c, es);
    if InFlight(c, es) > Framed(Request(c)) {
      FramedPart(c, s, sent);
    }
  }

  // ---------------------------------------------------------------- every data sector can be wholly under way

  /** The host has not passed the top of sector `s`. */
  predicate Before(h: H.Host, s: nat) {
    h.s < s || h.pc.Start? || h.pc.AwaitAccept? || h == H.Host(H.SectorTop, s, 0)
  }

  lemma StaysReceiving(c: Config, st: Sys, s: nat)
    requires Sized(c) && s < Count(c) && Exact(c, st) && Before(st.host, s) && H.Waiting(st.host.pc) && st.toHost != []
    ensures var h := H.OnPacket(st.host, st.toHost[0]);
            Before(h, s) && !h.pc.Returned?
  {
    if !st.toHost[0].Ready? {
      HeadExpected(c, st);
    }
  }

  lemma StaysAdvancing(c: Config, h: H.Host, s: nat)
    requires Sized(c) && HostOk(c, h) && Before(h, s) && h != H.Host(H.SectorTop, s, 0) && !h.pc.Returned?
    ensures Before(H.Advance(c.q, h).0, s) && !H.Advance(c.q, h).0.pc.Returned?
  {
    if !h.pc.Start? && H.Advance(c.q, h).1 == [] {
      QuietAdvance(c, h);
    }
  }

  /** Nor does a loss-free step take it past. */
  lemma StaysBefore(c: Config, st: Sys, e: Event, s: nat)
    requires Sized(c) && s < Count(c) && Exact(c, st) && LossFree(e)
    requires Before(st.host, s) && st.host != H.Host(H.SectorTop, s, 0) && !st.host.pc.Returned?
    ensures Before(Step(c, st, e).host, s) && !Step(c, st, e).host.pc.Returned?
  {
    if e.HostReceive? {
      if H.Waiting(st.host.pc) && st.toHost != [] {
        StaysReceiving(c, st, s);
      }
    } else if e.HostAdvance? {
      StaysAdvancing(c, st.host, s);
    } else {
      HostUntouched(c, st, e);
    }
  }

  lemma HostUntouched(c: Config, st: Sys, e: Event)
    requires Sized(c) && LossFree(e) && !e.HostReceive? && !e.HostAdvance?
    ensures Step(c, st, e).host == st.host
  {
  }

  /** The top of every sector is reached. */
  lemma {:induction false} Reaches(c: Config, es: seq<Event>, s: nat) returns (all: seq<Event>)
    requires Servable(c) && s < Count(c) && AllLossFree(es)
    requires Before(Run(c, es).host, s) && !Run(c, es).host.pc.Returned?
    ensures AllLossFree(all) && Run(c, all).host == H.Host(H.SectorTop, s, 0)
    decreases Measure(c, Run(c, es))
  {
    var st := Run(c, es);
    all := es;
    if st.host != H.Host(H.SectorTop, s, 0) {
      ExactRun(c, es);
      MeasureBound(c, st);
      var e := NoDeadlock(c, st);
      RunSnoc(c, es, e);
      ExactRun(c, es + [e]);
      StaysBefore(c, st, e, s);
      all := Reaches(c, es + [e], s);
    }
  }

  /** The host has sent the first `n` packets of sector `s`, and the agent has taken none. */
  ghost predicate Ahead(c: Config, st: Sys, s: nat, n: nat)
    requires 0 < c.q.g.sector
  {
    && st.host == H.Host(H.Sending, s, Min(n * ChunkSize, |SectorData(c.q.g, c.q.image, s)|))
    && |StreamWire.WireToAgent(st.toAgent)| == FramedUpTo(c, s, n)
  }

  lemma StartsAhead(c: Config, es: seq<Event>, s: nat)
    requires c.Valid() && Fixed(c) && s < Count(c) && BitSet(c.q.bitmap, s)
    requires Run(c, es).host == H.Host(H.SectorTop, s, 0)
    ensures Ahead(c, Run(c, es + [HostAdvance]), s, 0)
  {
    var m := BoundedRun(c, es);
    InvRun(c, es);
    RunSnoc(c, es, HostAdvance);
    SectorFacts(c.q.g, |c.q.image|, s);
    assert Run(c, es).toAgent == [];
  }

  /** Where the `n`-th packet begins. */
  lemma PacketStart(n: nat, size: nat)
    requires n < Chunks(size)
    ensures Min(n * ChunkSize, size) == n * ChunkSize < size && Chunks(n * ChunkSize) == n && n * ChunkSize % ChunkSize == 0
    ensures Min(n * ChunkSize + ChunkSize, size) == Min((n + 1) * ChunkSize, size)
  {
  }

  lemma CanSend(c: Config, h: H.Host)
    requires Servable(c) && h.pc.Sending? && HostOk(c, h) && h.sent < SectorBytes(c.q.g, |c.q.image|, h.s)
    ensures H.Advance(c.q, h).1 != []
  {
    SectorFacts(c.q.g, |c.q.image|, h.s);
    SeqNoFits(c, h);
  }

  lemma SendsAhead(c: Config, st: Sys, s: nat, n: nat)
    requires Servable(c) && Fixed(c) && s < Count(c) && BitSet(c.q.bitmap, s) && Inv(c, st) && Ahead(c, st, s, n)
    requires n < Chunks(SectorBytes(c.q.g, |c.q.image|, s))
    ensures Ahead(c, Step(c, st, HostAdvance), s, n + 1)
  {
    var h, p := st.host, PacketAt(c, s, n);
    SectorDataLength(c.q.g, c.q.image, s);
    PacketStart(n, |SectorData(c.q.g, c.q.image, s)|);
    CanSend(c, h);
    Advances(c, h);
    SendsPacketAt(c, h);
    WireAppend(st.toAgent, p);
    FramedNext(c, s, n);
  }

  /** The run `es` leads to `st`. */
  ghost predicate LeadsTo(c: Config, es: seq<Event>, st: Sys) {
    Sized(c) && forall y {:trigger Is(y, es)} | Is(y, es) :: Run(c, y) == st
  }

  lemma AheadFirst(c: Config, es: seq<Event>, s: nat) returns (all: seq<Event>, st: Sys)
    requires c.Valid() && Fixed(c) && s < Count(c) && BitSet(c.q.bitmap, s)
    requires Run(c, es).host == H.Host(H.SectorTop, s, 0)
    ensures LeadsTo(c, all, st) && Ahead(c, st, s, 0)
  {
    StartsAhead(c, es, s);
    all := es + [HostAdvance];
    st := Run(c, all);
  }

  lemma AheadNext(c: Config, es: seq<Event>, st: Sys, s: nat, n: nat) returns (all: seq<Event>, st': Sys)
    requires Servable(c) && Fixed(c) && s < Count(c) && BitSet(c.q.bitmap, s)
    requires LeadsTo(c, es, st) && Ahead(c, st, s, n) && n < Chunks(SectorBytes(c.q.g, |c.q.image|, s))
    ensures LeadsTo(c, all, st') && Ahead(c, st', s, n + 1)
  {
    assert Is(es, es);
    InvRun(c, es);
    SendsAhead(c, st, s, n);
    RunSnoc(c, es, HostAdvance);
    all, st' := es + [HostAdvance], Step(c, st, HostAdvance);
  }

  lemma RunsAhead(c: Config, first: seq<Event>, st0: Sys, s: nat, total: nat) returns (all: seq<Event>, st: Sys)
    requires Servable(c) && Fixed(c) && s < Count(c) && BitSet(c.q.bitmap, s)
    requires LeadsTo(c, first, st0) && Ahead(c, st0, s, 0) && total == Chunks(SectorBytes(c.q.g, |c.q.image|, s))
    ensures LeadsTo(c, all, st) && Ahead(c, st, s, total)
  {
    all, st := first, st0;
    var n := 0;
    while n != total
      invariant n <= total && LeadsTo(c, all, st) && Ahead(c, st, s, n)
      decreases total - n
    {
      all, st := AheadNext(c, all, st, s, n);
      n := n + 1;
    }
  }

  /** For every data sector there is a run in which all its packets are on their way at once. */
  lemma WholeSectorInFlight(c: Config, s: nat) returns (es: seq<Event>)
    requires Servable(c) && Fixed(c) && s < Count(c) && BitSet(c.q.bitmap, s)
    ensures InFlight(c, es) == FramedSector(c, s)
  {
    SectorFacts(c.q.g, |c.q.image|, s);
    SectorDataLength(c.q.g, c.q.image, s);
    es := Reaches(c, [], s);
    var st: Sys;
    es, st := AheadFirst(c, es, s);
    es, st := RunsAhead(c, es, st, s, Chunks(SectorBytes(c.q.g, |c.q.image|, s)));
    assert Is(es, es);
  }

  lemma FirstPacket(c: Config)
    requires Sized(c)
    ensures Step(c, Initial(c), HostAdvance).toAgent == [Request(c)]
  {
  }

  lemma RequestInFlight(c: Config)
    requires c.Valid()
    ensures InFlight(c, [HostAdvance]) == Framed(Request(c))
  {
    RunSnoc(c, [], HostAdvance);
    assert [] + [HostAdvance] == [HostAdvance];
    FirstPacket(c);
    assert Run(c, [HostAdvance]).toAgent == [Request(c)];
    RequestAlone(c);
  }

  // ---------------------------------------------------------------- main results

  /** The ring never has to drop a byte, whatever the run, exactly when it is long enough for the request and for
      each data sector of the image as framed. */
  lemma RingHoldsIff(c: Config)
    requires Servable(c) && Fixed(c)
    ensures (forall es :: InFlight(c, es) < AgentRx.RingSize) <==> FitsRing(c)
  {
    if FitsRing(c) {
      forall es
        ensures InFlight(c, es) < AgentRx.RingSize
      {
        NeverFull(c, es);
      }
    } else if Framed(Request(c)) >= AgentRx.RingSize {
      RequestInFlight(c);
    } else {
      var s: nat :| s < Count(c) && BitSet(c.q.bitmap, s) && FramedSector(c, s) >= AgentRx.RingSize;
      var es := WholeSectorInFlight(c, s);
    }
  }

  lemma PacketSize(c: Config, s: nat, j: nat)
    ensures Framed(PacketAt(c, s, j)) <= 523
    ensures (j + 1) * ChunkSize <= |SectorData(c.q.g, c.q.image, s)| ==> Framed(PacketAt(c, s, j)) >= 521
  {
    var m := StreamWire.HostPacks(PacketAt(c, s, j));
    Packet.BuildShape(m);
    Packet.BuildGrows(m);
  }

  lemma {:induction false} SumBounds(f: nat -> nat, n: nat, full: nat)
    requires forall j: nat | j < n :: f(j) <= 523
    requires forall j: nat | j < full :: f(j) >= 521
    ensures Sum(f, n) <= 523 * n && (n <= full ==> Sum(f, n) >= 521 * n)
  {
    if n > 0 {
      SumBounds(f, n - 1, full);
    }
  }

  lemma FramedBounds(c: Config, s: nat, n: nat)
    ensures FramedUpTo(c, s, n) <= 523 * n
    ensures n * ChunkSize <= |SectorData(c.q.g, c.q.image, s)| ==> FramedUpTo(c, s, n) >= 521 * n
  {
    var f, full := Sizes(c, s), |SectorData(c.q.g, c.q.image, s)| / ChunkSize;
    forall j: nat
      ensures f(j) <= 523 && (j < full ==> f(j) >= 521)
    {
      PacketSize(c, s, j);
    }
    SumBounds(f, n, full);
  }

  lemma RequestSize(c: Config)
    requires |c.q.bitmap| <= Packet.MaxPayload - 12
    ensures Framed(Request(c)) <= 1035
  {
    Packet.FitsBuffers(StreamWire.HostPacks(Request(c)));
  }

  /** Data sectors of up to 140 chunks fit: at most 73,220 bytes, and at most 66,944 with 64 KiB sectors. */
  lemma RingSuffices(c: Config, es: seq<Event>)
    requires c.Valid() && Fixed(c) && |c.q.bitmap| <= Packet.MaxPayload - 12
    requires forall s | 0 <= s < Count(c) && BitSet(c.q.bitmap, s) ::
               SectorBytes(c.q.g, |c.q.image|, s) <= 140 * ChunkSize
    ensures FitsRing(c) && InFlight(c, es) < AgentRx.RingSize
    ensures c.q.g.sector <= 0x10000 ==> InFlight(c, es) <= 66_944
  {
    RequestSize(c);
    forall s: nat | s < Count(c) && BitSet(c.q.bitmap, s)
      ensures FramedSector(c, s) < AgentRx.RingSize
    {
      FitsIn140(c, s);
    }
    NeverFull(c, es);
    if c.q.g.sector <= 0x10000 {
      SmallSectors(c, es);
    }
  }

  lemma FitsIn140(c: Config, s: nat)
    requires 0 < c.q.g.sector && s < Count(c) && SectorBytes(c.q.g, |c.q.image|, s) <= 140 * ChunkSize
    ensures FramedSector(c, s) < AgentRx.RingSize
  {
    SectorDataLength(c.q.g, c.q.image, s);
    FramedBounds(c, s, Chunks(|SectorData(c.q.g, c.q.image, s)|));
  }

  lemma SmallSectors(c: Config, es: seq<Event>)
    requires c.Valid() && Fixed(c) && c.q.g.sector <= 0x10000 && |c.q.bitmap| <= Packet.MaxPayload - 12
    ensures InFlight(c, es) <= 66_944
  {
    var s, sent := InFlightIs(c, es);
    RequestSize(c);
    if InFlight(c, es) > Framed(Request(c)) {
      FramedBounds(c, s, Chunks(sent));
      ChunksOf64K(sent);
    }
  }

  lemma ChunksOf64K(sent: nat)
    requires sent <= 0x10000
    ensures Chunks(sent) <= 128
  {
  }

  /** A data sector of 142 chunks does not fit, as NAND sectors of 256 chunks show: some run outgrows the ring. */
  lemma RingTooShort(c: Config, s: nat) returns (es: seq<Event>)
    requires Servable(c) && Fixed(c) && s < Count(c) && BitSet(c.q.bitmap, s)
    requires SectorBytes(c.q.g, |c.q.image|, s) >= 142 * ChunkSize
    ensures InFlight(c, es) > AgentRx.RingSize
  {
    SectorDataLength(c.q.g, c.q.image, s);
    FramedBounds(c, s, 142);
    FramedGrows(c, s, 142, Chunks(|SectorData(c.q.g, c.q.image, s)|));
    es := WholeSectorInFlight(c, s);
  }

  /** In every run the bytes on their way meet what `proto_recv` needs, and the packet it makes of them is the packet
      the run delivers next. */
  lemma BytesServeRun(c: Config, es: seq<Event>)
    requires c.Valid() && Fixed(c) && FitsRing(c) && |c.q.bitmap| <= Packet.MaxPayload - 12
    requires Run(c, es).toAgent != []
    ensures var ch := Run(c, es).toAgent;
            var r := AgentRx.NextFrame([], StreamWire.WireToAgent(ch));
            && |StreamWire.WireToAgent(ch)| < AgentRx.RingSize
            && r.Some? && |r.value.0| <= AgentRx.RawSize
            && StreamWire.AgentUnpacks(AgentRx.Verdict(r.value.0)) == Some(ch[0])
            && r.value.1 == StreamWire.WireToAgent(ch[1..])
  {
    OneSectorInFlight(c, es);
    NeverFull(c, es);
    StreamWire.AgentTakesFirst(Run(c, es).toAgent);
  }

  ghost predicate AllReportable(ch: seq<ToHost>) {
    forall i | 0 <= i < |ch| :: StreamWire.Reportable(ch[i])
  }

  lemma AgentReportsFit(c: Config, st: Sys, r1: EraseResult, r2: EraseResult)
    requires Sized(c)
    ensures st.agent.Idle? && st.toAgent != [] ==> AllReportable(A.OnIdle(c.q.g, st.flash, c.ram0, st.toAgent[0]).out)
    ensures st.agent.AtSector? ==> AllReportable(A.OnSector(c.q.g, st.flash, st.agent, r1, r2).out)
    ensures st.agent.Receiving? && st.toAgent != [] ==>
              AllReportable(A.OnReceive(c.q.g, st.flash, st.agent, Some(st.toAgent[0]), r1).out)
    ensures st.agent.Receiving? ==> AllReportable(A.OnReceive(c.q.g, st.flash, st.agent, None, r1).out)
  {
  }

  lemma {:induction false} ReportableRun(c: Config, es: seq<Event>)
    requires Sized(c)
    ensures AllReportable(Run(c, es).toHost)
  {
    if es != [] {
      var st, e := Run(c, es[..|es| - 1]), es[|es| - 1];
      ReportableRun(c, es[..|es| - 1]);
      match e {
        case AgentReceive(r) => AgentReportsFit(c, st, r, r);
        case AgentTimeout => AgentReportsFit(c, st, Clean, Clean);
        case AgentWork(r1, r2) => AgentReportsFit(c, st, r1, r2);
        case _ =>
      }
    }
  }

  /** The same for the way back: the bytes of the agent's packets are, to the host, the packets the run delivers. */
  lemma BytesServeHost(c: Config, es: seq<Event>)
    requires Sized(c) && Run(c, es).toHost != []
    ensures var ch := Run(c, es).toHost;
            var r := Receiver.Receive([], StreamWire.WireToHost(ch));
            && r.Some? && StreamWire.HostUnpacks(r.value.0) == Some(ch[0])
            && r.value.1 == StreamWire.WireToHost(ch[1..])
  {
    ReportableRun(c, es);
    StreamWire.HostTakesFirst(Run(c, es).toHost);
  }

  // ---------------------------------------------------------------- packet numbers

  lemma PlaceOf(s: nat, sector: nat, j: nat)
    requires sector % ChunkSize == 0
    ensures (s * sector / ChunkSize + j) * ChunkSize == s * sector + j * ChunkSize
  {
    var k := sector / ChunkSize;
    assert s * sector == s * k * ChunkSize;
    DivModUnique(s * sector, ChunkSize, s * k, 0);
  }

  lemma PieceOfImage(g: Geometry, image: seq<byte>, s: nat, j: nat)
    requires 0 < g.sector && s < NumSectors(g, |image|) && j * ChunkSize <= SectorBytes(g, |image|, s)
    ensures var d := Piece(SectorData(g, image, s), j);
            var from := s * g.sector + j * ChunkSize;
            from + |d| <= |image| && d == image[from..from + |d|]
  {
    var d := Piece(SectorData(g, image, s), j);
    SectorDataLength(g, image, s);
    SectorSlice(g, image, s, j * ChunkSize, j * ChunkSize + |d|);
  }

  /** Whatever has happened, the number of a data packet says where its bytes belong: packet `n` carries the image from
      byte 512 * n on, when sectors are a whole number of packets. */
  lemma NumberIsPlace(c: Config, es: seq<Event>)
    requires c.Valid() && Fixed(c) && c.q.g.sector % ChunkSize == 0
    requires var h := Run(c, es).host; h.pc.Sending? && H.Advance(c.q, h).1 != []
    ensures var out := H.Advance(c.q, Run(c, es).host).1;
            && |out| == 1 && out[0].Chunk? && out[0].data != []
            && out[0].seqNo * 512 + |out[0].data| <= |c.q.image|
            && out[0].data == c.q.image[out[0].seqNo * 512..out[0].seqNo * 512 + |out[0].data|]
  {
    var h := Run(c, es).host;
    var m := BoundedRun(c, es);
    InvRun(c, es);
    NextChunk(c, h);
    SendsPacketAt(c, h);
    PlaceOf(h.s, c.q.g.sector, Chunks(h.sent));
    WholeChunks(h.sent);
    PieceOfImage(c.q.g, c.q.image, h.s, Chunks(h.sent));
  }
}
