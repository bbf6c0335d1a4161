/**
  How many packets a flash stream can have on their way to the agent at once (src/defib/agent/client.py:690-712).
 */
module StreamBound {
  import opened Bytes
  import opened Flash
  import opened StreamTypes
  import opened StreamSystem
  import opened StreamSafety
  import A = StreamAgent
  import H = StreamHost

  /** `WRITE_CHUNK_SIZE` */
  const ChunkSize: nat := 512

  /** Data packets that carry `n` bytes. */
  function Chunks(n: nat): nat {
    (n + ChunkSize - 1) / ChunkSize
  }

  ghost predicate SmallChunks(ch: seq<ToAgent>) {
    forall i | 0 <= i < |ch| :: ch[i].Chunk? && 0 < |ch[i].data| <= ChunkSize && ch[i].seqNo < 0x10000
  }

  /** The host cuts a sector into whole chunks, the last one excepted. */
  ghost predicate Cut(c: Config, h: H.Host) {
    h.sent % ChunkSize == 0 || h.sent == SectorBytes(c.q.g, |c.q.image|, h.s)
  }

  /** `m` is the sector the agent works on, or worked on when it stopped. Only packets of that sector are unread. */
  ghost predicate OneSector(c: Config, st: Sys, m: nat)
    requires 0 < c.q.g.sector
  {
    && (st.phase.Running? && !st.agent.Idle? ==> m == st.agent.s)
    && st.host.s + Tally(st.toHost, IsProgress()) <= m
    && (forall i | st.host.s <= i < m && BitSet(c.q.bitmap, i) ::
          i == st.host.s && st.host.sent == SectorBytes(c.q.g, |c.q.image|, i))
    && SmallChunks(st.toAgent)
    && |st.toAgent| <= (if st.host.s == m then Chunks(st.host.sent) else 0)
  }

  ghost predicate Bounded(c: Config, st: Sys, m: nat)
    requires 0 < c.q.g.sector
  {
    Cut(c, st.host) && (!st.phase.NotStarted? ==> OneSector(c, st, m))
  }

  ghost predicate Fixed(c: Config) {
    Sized(c) && c.q.chunk == ChunkSize && c.q.g.sector <= A.BUFFER_SIZE
  }

  // ---------------------------------------------------------------- host events

  lemma CutSends(sent: nat, k: nat, left: int)
    requires sent % ChunkSize == 0 && 0 < k <= left && k == Min(ChunkSize, left)
    ensures (sent + k) % ChunkSize == 0 || k == left
    ensures Chunks(sent + k) == Chunks(sent) + 1
  {
  }

  lemma HostSends(c: Config, st: Sys, m: nat)
    requires Fixed(c) && Inv(c, st) && Bounded(c, st, m) && st.host.pc.Sending? && H.Advance(c.q, st.host).1 != []
    ensures Bounded(c, Step(c, st, HostAdvance), m)
  {
    var (h', out) := H.Advance(c.q, st.host);
    NextChunk(c, st.host);
    var sent, k := st.host.sent, h'.sent - st.host.sent;
    var left := SectorBytes(c.q.g, |c.q.image|, st.host.s) - sent;
    SectorFacts(c.q.g, |c.q.image|, st.host.s);
    CutSends(sent, k, left);
    assert |out| == 1 && out[0].Chunk? && |out[0].data| == k && out[0].seqNo < 0x10000;
  }

  lemma HostMovesOn(c: Config, st: Sys, m: nat)
    requires Fixed(c) && Inv(c, st) && Bounded(c, st, m)
    ensures Bounded(c, Step(c, st, HostAdvance), m)
  {
    if st.host.pc.Start? {
    } else if H.Advance(c.q, st.host).1 != [] {
      HostSends(c, st, m);
    } else {
      QuietAdvance(c, st.host);
      assert st.toAgent + [] == st.toAgent;
    }
  }

  lemma HostTakes(c: Config, st: Sys, m: nat)
    requires Fixed(c) && Inv(c, st) && Bounded(c, st, m) && H.Waiting(st.host.pc) && st.toHost != []
    ensures Bounded(c, Step(c, st, HostReceive), m)
  {
    var m0 := st.toHost[0];
    TallyHead(st.toHost);
    if st.phase.NotStarted? {
      assert m0.Ready?;
    } else if m0.Progress? && st.host.pc.AwaitProgress? {
      NextSectorBound(c, st, m, H.OnPacket(st.host, m0));
    } else {
      SamePlaceBound(c, st, m, H.OnPacket(st.host, m0));
    }
  }

  lemma SamePlaceBound(c: Config, st: Sys, m: nat, h: H.Host)
    requires 0 < c.q.g.sector && OneSector(c, st, m) && Cut(c, st.host) && st.toHost != []
    requires h.s == st.host.s && h.sent == st.host.sent
    requires Tally(st.toHost[1..], IsProgress()) <= Tally(st.toHost, IsProgress())
    ensures Bounded(c, st.(host := h, toHost := st.toHost[1..]), m)
  {
  }

  lemma TallyHead(ch: seq<ToHost>)
    requires ch != []
    ensures Tally(ch, IsProgress()) == Tally(ch[1..], IsProgress()) + if ch[0].Progress? then 1 else 0
  {
    assert IsProgress()(ch[0]) == ch[0].Progress?;
  }

  lemma NextSectorBound(c: Config, st: Sys, m: nat, h: H.Host)
    requires 0 < c.q.g.sector && OneSector(c, st, m) && st.toHost != [] && h == H.Host(H.SectorTop, st.host.s + 1, 0)
    requires Tally(st.toHost, IsProgress()) == Tally(st.toHost[1..], IsProgress()) + 1
    ensures OneSector(c, st.(host := h, toHost := st.toHost[1..]), m)
  {
  }

  // ---------------------------------------------------------------- agent events

  lemma SmallRest(ch: seq<ToAgent>, i: nat)
    requires SmallChunks(ch)
    ensures SmallChunks(Without(ch, i)) && |Without(ch, i)| <= |ch|
    ensures ch != [] ==> SmallChunks(ch[1..])
  {
  }

  /** The agent reports something that is not progress, and takes at most the head of the link. */
  lemma AgentSays(c: Config, st: Sys, st': Sys, m: nat, out: seq<ToHost>)
    requires Fixed(c) && Bounded(c, st, m) && !st.phase.NotStarted? && st'.host == st.host
    requires st'.toHost == st.toHost + out && Tally(out, IsProgress()) == 0
    requires st'.toAgent == st.toAgent || (st.toAgent != [] && st'.toAgent == st.toAgent[1..])
    requires st'.phase.Running? && !st'.agent.Idle? ==> m == st'.agent.s
    ensures Bounded(c, st', m)
  {
    TallyOut(st.toHost, out);
  }

  /** The agent reports a sector; nothing is left on the link. */
  lemma AgentReports(c: Config, st: Sys, st': Sys, m: nat, out: seq<ToHost>)
    requires Fixed(c) && Bounded(c, st, m) && !st.phase.NotStarted? && st'.host == st.host
    requires st'.toHost == st.toHost + out && Tally(out, IsProgress()) == 1
    requires st'.toAgent == []
    requires BitSet(c.q.bitmap, m) ==> st.host.s == m && st.host.sent == SectorBytes(c.q.g, |c.q.image|, m)
    requires st'.phase.Running? && !st'.agent.Idle? ==> st'.agent.s == m + 1
    ensures Bounded(c, st', m + 1)
  {
    TallyOut(st.toHost, out);
  }

  lemma QuietOut(m: ToHost)
    requires !m.Progress?
    ensures Tally([m], IsProgress()) == 0 && Tally([], IsProgress()) == 0
  {
    TallyOne(m);
  }

  lemma AgentWakes(c: Config, st: Sys, m: nat) returns (m': nat)
    requires Fixed(c) && Inv(c, st) && Bounded(c, st, m) && st.agent.Idle? && st.toAgent != []
    ensures Bounded(c, Step(c, st, AgentReceive(Clean)), m')
  {
    var o := A.OnIdle(c.q.g, st.flash, c.ram0, st.toAgent[0]);
    var st' := Step(c, st, AgentReceive(Clean));
    TallyOne(o.out[0]);
    if st.phase.NotStarted? {
      m' := 0;
      TallyReady(st.toHost);
      TallyOut(st.toHost, o.out);
      assert st'.toAgent == [];
    } else {
      m' := m;
      AgentSays(c, st, st', m, o.out);
    }
  }

  lemma AgentStops(c: Config, st: Sys, m: nat)
    requires Fixed(c) && Inv(c, st) && Bounded(c, st, m) && st.agent.Receiving?
    ensures Bounded(c, Step(c, st, AgentTimeout), m)
  {
    QuietOut(Ack(ACK_FLASH_ERROR));
    AgentSays(c, st, Step(c, st, AgentTimeout), m, [Ack(ACK_FLASH_ERROR)]);
  }

  lemma AgentTurns(c: Config, st: Sys, m: nat, r1: EraseResult, r2: EraseResult) returns (m': nat)
    requires Fixed(c) && Inv(c, st) && Bounded(c, st, m) && st.agent.AtSector?
    ensures Bounded(c, Step(c, st, AgentWork(r1, r2)), m')
  {
    var a := st.agent;
    var o := A.OnSector(c.q.g, st.flash, a, r1, r2);
    var st' := Step(c, st, AgentWork(r1, r2));
    m' := m;
    if a.s < Count(c) && BitSet(c.q.bitmap, a.s) {
      QuietOut(Ready);
      AgentSays(c, st, st', m, []);
    } else {
      TurnOutcome(c, a, st.flash, r1, r2);
      TallyOne(o.out[0]);
      if o.out[0].Progress? {
        NothingInFlight(c, st);
        m' := m + 1;
        AgentReports(c, st, st', m, o.out);
      } else {
        AgentSays(c, st, st', m, o.out);
      }
    }
  }

  lemma AgentStores(c: Config, st: Sys, m: nat, r: EraseResult) returns (m': nat)
    requires Fixed(c) && Inv(c, st) && Bounded(c, st, m) && st.agent.Receiving? && st.toAgent != []
    ensures Bounded(c, Step(c, st, AgentReceive(r)), m')
  {
    var a, data := st.agent, st.toAgent[0].data;
    HeadFits(c, st);
    var o := A.OnReceive(c.q.g, st.flash, a, Some(st.toAgent[0]), r);
    var st' := Step(c, st, AgentReceive(r));
    if a.got + |data| < SectorBytes(c.q.g, |c.q.image|, a.s) {
      m' := m;
      QuietOut(Ready);
      AgentSays(c, st, st', m, []);
    } else {
      m' := m + 1;
      SectorComplete(c, st, data);
      var p := A.Store(a.p, a.got, data[..|data|]);
      SectorOut(c, st, p, r);
      AgentReports(c, st, st', m, o.out);
    }
  }

  /** A completed sector is reported exactly once, whether or not the flush behind it fails. */
  lemma SectorOut(c: Config, st: Sys, p: A.Buffers, r: EraseResult)
    requires Sized(c) && st.agent.Receiving?
    ensures var o := A.SectorReceived(c.q.g, st.flash, st.agent.job, st.agent.s, p, r);
            && Tally(o.out, IsProgress()) == 1
            && (!o.agent.Idle? ==> o.agent.s == st.agent.s + 1)
  {
    var report := A.ProgressFor(c.q.g, st.agent.job, st.agent.s);
    TallyOne(report);
    TallyOne(Ack(ACK_FLASH_ERROR));
    TallyOut([report], [Ack(ACK_FLASH_ERROR)]);
    assert [report] + [Ack(ACK_FLASH_ERROR)] == [report, Ack(ACK_FLASH_ERROR)];
  }

  lemma LinksLose(c: Config, st: Sys, m: nat, i: nat)
    requires Fixed(c) && Bounded(c, st, m)
    ensures Bounded(c, Step(c, st, LoseToAgent(i)), m) && Bounded(c, Step(c, st, LoseToHost(i)), m)
  {
    TallyWithout(st.toHost, i, IsProgress());
    if !st.phase.NotStarted? {
      SmallRest(st.toAgent, i);
    }
  }

  // ---------------------------------------------------------------- every run

  lemma BoundedStep(c: Config, st: Sys, e: Event, m: nat) returns (m': nat)
    requires Fixed(c) && Inv(c, st) && Bounded(c, st, m)
    ensures Bounded(c, Step(c, st, e), m')
  {
    m' := m;
    match e
    case HostAdvance => HostMovesOn(c, st, m);
    case HostReceive => if H.Waiting(st.host.pc) && st.toHost != [] { HostTakes(c, st, m); }
    case HostTimeout =>
    case AgentReceive(r) =>
      if st.toAgent != [] {
        if st.agent.Idle? {
          m' := AgentWakes(c, st, m);
        } else if st.agent.Receiving? {
          m' := AgentStores(c, st, m, r);
        }
      }
    case AgentTimeout => if st.agent.Receiving? { AgentStops(c, st, m); }
    case AgentReady =>
      QuietOut(Ready);
      TallyOut(st.toHost, [Ready]);
    case AgentWork(r1, r2) => if st.agent.AtSector? { m' := AgentTurns(c, st, m, r1, r2); }
    case LoseToAgent(i) => LinksLose(c, st, m, i);
    case LoseToHost(j) => LinksLose(c, st, m, j);
  }

  lemma {:induction false} BoundedRun(c: Config, es: seq<Event>) returns (m: nat)
    requires c.Valid() && Fixed(c)
    ensures Bounded(c, Run(c, es), m)
  {
    if es == [] {
      m := 0;
    } else {
      m := BoundedRun(c, es[..|es| - 1]);
      InvRun(c, es[..|es| - 1]);
      m := BoundedStep(c, Run(c, es[..|es| - 1]), es[|es| - 1], m);
    }
  }

  /** In every run, whatever is lost, the packets on their way to the agent are a request or chunks of one sector. */
  lemma OneSectorInFlight(c: Config, es: seq<Event>)
    requires c.Valid() && Fixed(c)
    ensures var ch := Run(c, es).toAgent;
            || ch == [Stream(c.q.addr, |c.q.image|, c.q.crc, c.q.bitmap)]
            || (SmallChunks(ch) && |ch| <= Chunks(c.q.g.sector))
  {
    var st := Run(c, es);
    var m := BoundedRun(c, es);
    InvRun(c, es);
    if !st.phase.NotStarted? && st.host.sent > 0 {
      SectorFacts(c.q.g, |c.q.image|, st.host.s);
    }
  }
}
