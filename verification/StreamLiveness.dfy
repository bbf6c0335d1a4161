/**
  The same system on a link that loses nothing and a chip whose erases succeed: the stream always
  comes to an end, and the host returns True after exactly one progress packet per sector.
 */
module StreamLiveness {
  import opened Bytes
  import opened Flash
  import opened StreamTypes
  import opened StreamSystem
  import opened StreamSafety
  import A = StreamAgent
  import H = StreamHost

  predicate LossFree(e: Event) {
    match e
    case HostAdvance => true
    case HostReceive => true
    case HostTimeout => false
    case AgentReceive(r) => r.Clean?
    case AgentTimeout => false
    case AgentReady => true
    case AgentWork(r1, r2) => r1.Clean? && r2.Clean?
    case LoseToAgent(_) => false
    case LoseToHost(_) => false
  }

  /** The request is one the agent accepts and the host can number: seq is packed into 16 bits. */
  ghost predicate Servable(c: Config) {
    c.Valid() && Accepted(c) && |c.q.image| <= 0x10000 * c.q.chunk
  }

  // ---------------------------------------------------------------- the expected conversation

  /** Progress packets for sectors 1..k. */
  function Reports(c: Config, k: nat): (r: seq<ToHost>)
    requires 0 < c.q.g.sector
    ensures |r| == k && forall i | 0 <= i < k :: r[i].Progress?
  {
    seq(k, i => Progress((i + 1) % 0x10000, Count(c) % 0x10000))
  }

  /** Everything the agent has said about the request so far. */
  function Transcript(c: Config, st: Sys): seq<ToHost>
    requires 0 < c.q.g.sector
  {
    match st.phase
    case NotStarted => []
    case Running => [Ack(ACK_OK)] + Reports(c, if st.agent.Idle? then 0 else st.agent.s)
    case Aborted => []
    case Finished => [Ack(ACK_OK)] + Reports(c, Count(c)) + [Ack(ACK_OK)]
  }

  function NonReady(ch: seq<ToHost>): seq<ToHost> {
    if ch == [] then [] else (if ch[0].Ready? then [] else [ch[0]]) + NonReady(ch[1..])
  }

  lemma {:induction false} NonReadyAppend(xs: seq<ToHost>, ys: seq<ToHost>)
    ensures NonReady(xs + ys) == NonReady(xs) + NonReady(ys)
  {
    if xs == [] {
      assert xs + ys == ys;
    } else {
      assert (xs + ys)[1..] == xs[1..] + ys;
      NonReadyAppend(xs[1..], ys);
    }
  }

  /** Packets of the transcript the host has taken. */
  function Consumed(c: Config, h: H.Host): nat
    requires 0 < c.q.g.sector
  {
    match h.pc
    case Start => 0
    case AwaitAccept => 0
    case Returned(_) => Count(c) + 2
    case _ => h.s + 1
  }

  ghost predicate Exact(c: Config, st: Sys)
    requires Sized(c)
  {
    && Inv(c, st)
    && st.log == Transcript(c, st)
    && Consumed(c, st.host) <= |st.log| && NonReady(st.toHost) == st.log[Consumed(c, st.host)..]
    && !st.host.pc.Raised? && st.host.pc != H.Returned(false)
    && match st.phase
       case NotStarted =>
         st.host.pc.Start? || (st.host.pc.AwaitAccept? && st.toAgent == [Stream(c.q.addr, |c.q.image|, c.q.crc, c.q.bitmap)])
       case Running =>
         !st.host.pc.Start? && |Received(st.agent)| + |Flow(st.toAgent)| == SentOf(st.host, st.agent.s)
       case Aborted => false
       case Finished => st.toAgent == [] && AllSent(c, st.host)
  }

  /** No data sector is left to send. */
  ghost predicate AllSent(c: Config, h: H.Host)
    requires 0 < c.q.g.sector
  {
    forall i | h.s <= i < Count(c) && BitSet(c.q.bitmap, i) ::
      i == h.s && h.sent == SectorBytes(c.q.g, |c.q.image|, i)
  }

  // ---------------------------------------------------------------- host steps

  lemma QuotientSum(a: nat, b: nat, k: nat, bound: nat)
    requires 0 < k && a + b < bound * k
    ensures a / k + b / k < bound
  {
    var x, y := a / k, b / k;
    assert x * k <= a && y * k <= b && (x + y) * k == x * k + y * k;
    if x + y >= bound {
      MulMono(bound, x + y, k);
    }
  }

  lemma SeqNoFits(c: Config, h: H.Host)
    requires Sized(c) && h.s < Count(c) && |c.q.image| <= 0x10000 * c.q.chunk
    requires h.sent < SectorBytes(c.q.g, |c.q.image|, h.s)
    ensures H.SeqNo(c.q, h) <= 0xFFFF
  {
    QuotientSum(h.s * c.q.g.sector, h.sent, c.q.chunk, 0x10000);
  }

  lemma ExactHostAdvance(c: Config, st: Sys)
    requires Sized(c) && |c.q.image| <= 0x10000 * c.q.chunk && Exact(c, st)
    ensures Exact(c, Step(c, st, HostAdvance))
  {
    InvHostAdvance(c, st);
    if st.host.pc.Sending? {
      ExactHostSends(c, st);
    } else if !st.host.pc.Start? {
      ExactHostMoves(c, st);
    }
  }

  lemma ExactHostMoves(c: Config, st: Sys)
    requires Sized(c) && Exact(c, st) && !st.host.pc.Start? && !st.host.pc.Sending?
    requires Inv(c, Step(c, st, HostAdvance))
    ensures Exact(c, Step(c, st, HostAdvance))
  {
    assert st.toAgent + H.Advance(c.q, st.host).1 == st.toAgent;
  }

  lemma ExactHostSends(c: Config, st: Sys)
    requires Sized(c) && Exact(c, st) && st.host.pc.Sending? && Inv(c, Step(c, st, HostAdvance))
    requires |c.q.image| <= 0x10000 * c.q.chunk
    ensures Exact(c, Step(c, st, HostAdvance))
  {
    SectorFacts(c.q.g, |c.q.image|, st.host.s);
    var (h', out) := H.Advance(c.q, st.host);
    if st.host.sent < SectorBytes(c.q.g, |c.q.image|, st.host.s) {
      SeqNoFits(c, st.host);
      NextChunk(c, st.host);
      FlowAppend(st.toAgent, out);
      FlowOne(out[0]);
    } else {
      assert st.toAgent + out == st.toAgent;
    }
  }

  lemma NonReadyHead(ch: seq<ToHost>)
    requires ch != []
    ensures ch[0].Ready? ==> NonReady(ch[1..]) == NonReady(ch)
    ensures !ch[0].Ready? ==> NonReady(ch) == [ch[0]] + NonReady(ch[1..])
  {
  }

  /** The packet at the head is always the one the host waits for. */
  lemma HeadExpected(c: Config, st: Sys)
    requires Sized(c) && Exact(c, st) && H.Waiting(st.host.pc) && st.toHost != [] && !st.toHost[0].Ready?
    ensures !st.phase.NotStarted?
    ensures st.host.pc.AwaitAccept? ==> st.toHost[0] == Ack(ACK_OK)
    ensures st.host.pc.AwaitProgress? ==> st.toHost[0].Progress?
    ensures st.host.pc.AwaitFinal? ==> st.toHost[0] == Ack(ACK_OK) && st.phase.Finished?
    ensures Consumed(c, st.host) < |st.log|
    ensures NonReady(st.toHost[1..]) == st.log[Consumed(c, st.host) + 1..]
  {
    NonReadyHead(st.toHost);
    var k := Consumed(c, st.host);
    assert NonReady(st.toHost)[0] == st.toHost[0];
    assert st.log[k] == st.toHost[0];
    assert NonReady(st.toHost[1..]) == NonReady(st.toHost)[1..];
  }

  lemma ExactHostReceive(c: Config, st: Sys)
    requires Sized(c) && Exact(c, st)
    ensures Exact(c, Step(c, st, HostReceive))
  {
    InvHostReceive(c, st);
    if H.Waiting(st.host.pc) && st.toHost != [] {
      NonReadyHead(st.toHost);
      if st.toHost[0].Ready? {
        ExactSkipsReady(c, st, Step(c, st, HostReceive));
      } else {
        HeadExpected(c, st);
        ExactTakes(c, st, Step(c, st, HostReceive));
      }
    }
  }

  lemma ExactSkipsReady(c: Config, st: Sys, st': Sys)
    requires Sized(c) && Exact(c, st) && st.toHost != [] && st.toHost[0].Ready? && Inv(c, st')
    requires st' == st.(toHost := st.toHost[1..]) && NonReady(st.toHost[1..]) == NonReady(st.toHost)
    ensures Exact(c, st')
  {
  }

  /** The expected packet moves the host one packet down the transcript. */
  lemma ExactTakes(c: Config, st: Sys, st': Sys)
    requires Sized(c) && Exact(c, st) && Inv(c, st') && H.Waiting(st.host.pc) && st.toHost != [] && !st.toHost[0].Ready?
    requires st' == st.(host := H.OnPacket(st.host, st.toHost[0]), toHost := st.toHost[1..]) && !st.phase.NotStarted?
    requires st.host.pc.AwaitAccept? ==> st.toHost[0] == Ack(ACK_OK)
    requires st.host.pc.AwaitProgress? ==> st.toHost[0].Progress?
    requires st.host.pc.AwaitFinal? ==> st.toHost[0] == Ack(ACK_OK) && st.phase.Finished?
    requires Consumed(c, st.host) < |st.log| && NonReady(st.toHost[1..]) == st.log[Consumed(c, st.host) + 1..]
    ensures Exact(c, st')
  {
    assert Consumed(c, st'.host) == Consumed(c, st.host) + 1;
  }

  // ---------------------------------------------------------------- agent steps

  lemma ExactAgentReady(c: Config, st: Sys)
    requires Sized(c) && Exact(c, st)
    ensures Exact(c, Step(c, st, AgentReady))
  {
    InvAgentReady(c, st);
    NonReadyAppend(st.toHost, [Ready]);
  }

  /** An agent step that says `m` and leaves the transcript one longer. */
  lemma Says(c: Config, st: Sys, st': Sys, m: ToHost)
    requires Sized(c) && Exact(c, st) && !m.Ready?
    requires st'.host == st.host && st'.toHost == st.toHost + [m] && st'.log == st.log + [m]
    ensures NonReady(st'.toHost) == st'.log[Consumed(c, st'.host)..]
  {
    NonReadyAppend(st.toHost, [m]);
    assert NonReady([m]) == [m];
  }

  /** The agent accepts a servable request. */
  lemma Accepts(c: Config, f: seq<byte>)
    requires Sized(c) && Accepted(c) && c.q.addr + |c.q.image| < A.WORD && |f| == |c.flash0|
    requires |c.q.bitmap| == (Count(c) + 7) / 8
    ensures A.OnIdle(c.q.g, f, c.ram0, Stream(c.q.addr, |c.q.image|, c.q.crc, c.q.bitmap))
            == A.Outcome(A.AtSector(A.Job(c.q.addr, |c.q.image|, c.q.bitmap), 0, A.Pipeline(c.ram0, 0, -1, 0, 0)),
                         f, [Ack(ACK_OK)])
  {
  }

  lemma ExactAccepts(c: Config, st: Sys, st': Sys)
    requires Sized(c) && Exact(c, st) && st.agent.Idle? && st.phase.NotStarted? && !st.host.pc.Start?
    requires Inv(c, st') && st'.phase.Running? && st'.agent.AtSector? && st'.agent.s == 0 && st'.toAgent == []
    requires st'.host == st.host && st'.toHost == st.toHost + [Ack(ACK_OK)] && st'.log == st.log + [Ack(ACK_OK)]
    ensures Exact(c, st')
  {
    Says(c, st, st', Ack(ACK_OK));
    assert Reports(c, 0) == [];
  }

  lemma AppendAssoc<T>(x: seq<T>, y: seq<T>, z: seq<T>)
    ensures x + y + z == x + (y + z)
  {
  }

  lemma ReportsNext(c: Config, k: nat)
    requires Sized(c)
    ensures Reports(c, k + 1) == Reports(c, k) + [Progress((k + 1) % 0x10000, Count(c) % 0x10000)]
  {
  }

  lemma ExactBeginsReceiving(c: Config, st: Sys)
    requires Sized(c) && Exact(c, st) && st.agent.AtSector?
    requires st.agent.s < Count(c) && BitSet(c.q.bitmap, st.agent.s)
    ensures Exact(c, AgentDid(st, st.toAgent, A.Outcome(A.Receiving(st.agent.job, st.agent.s, st.agent.p, 0), st.flash, [])))
  {
    InvBeginsReceiving(c, st);
    assert st.toHost + [] == st.toHost && st.log + [] == st.log;
  }

  /** The agent moves on to the next sector. */
  lemma ExactNextSector(c: Config, st: Sys, st': Sys)
    requires Sized(c) && Exact(c, st) && st.phase.Running?
    requires Inv(c, st') && st'.phase.Running? && st'.agent.AtSector? && st'.agent.s == st.agent.s + 1 && st'.toAgent == []
    requires var m := A.ProgressFor(c.q.g, st.agent.job, st.agent.s);
             st'.host == st.host && st'.toHost == st.toHost + [m] && st'.log == st.log + [m]
    ensures Exact(c, st')
  {
    var m := A.ProgressFor(c.q.g, st.agent.job, st.agent.s);
    Says(c, st, st', m);
    TranscriptNext(c, st, st', m);
  }

  lemma TranscriptNext(c: Config, st: Sys, st': Sys, m: ToHost)
    requires Sized(c) && !st.agent.Idle? && !st'.agent.Idle? && st.phase.Running? && st'.phase.Running?
    requires st'.agent.s == st.agent.s + 1 && m == Progress((st.agent.s + 1) % 0x10000, Count(c) % 0x10000)
    ensures Transcript(c, st') == Transcript(c, st) + [m]
  {
    ReportsNext(c, st.agent.s);
    AppendAssoc([Ack(ACK_OK)], Reports(c, st.agent.s), [m]);
  }

  lemma ExactFinishes(c: Config, st: Sys, st': Sys)
    requires Sized(c) && Exact(c, st) && st.phase.Running? && st.agent.AtSector? && st.agent.s == Count(c)
    requires Inv(c, st') && st'.phase.Finished? && st'.toAgent == st.toAgent
    requires st'.host == st.host && st'.toHost == st.toHost + [Ack(ACK_OK)] && st'.log == st.log + [Ack(ACK_OK)]
    ensures Exact(c, st')
  {
    Says(c, st, st', Ack(ACK_OK));
    NothingInFlight(c, st);
    assert st'.log == Transcript(c, st');
  }

  lemma ExactTurn(c: Config, st: Sys)
    requires Sized(c) && Exact(c, st) && st.agent.AtSector?
    requires !(st.agent.s < Count(c) && BitSet(c.q.bitmap, st.agent.s))
    ensures Exact(c, AgentDid(st, st.toAgent, A.OnSector(c.q.g, st.flash, st.agent, Clean, Clean)))
  {
    InvTurn(c, st, Clean, Clean);
    var st' := AgentDid(st, st.toAgent, A.OnSector(c.q.g, st.flash, st.agent, Clean, Clean));
    TurnOutcome(c, st.agent, st.flash, Clean, Clean);
    if st.agent.s < Count(c) {
      NothingInFlight(c, st);
      ExactNextSector(c, st, st');
    } else {
      ExactFinishes(c, st, st');
    }
  }

  lemma ExactReceivesMore(c: Config, st: Sys, data: seq<byte>)
    requires Sized(c) && c.q.g.sector <= A.BUFFER_SIZE && Exact(c, st) && st.agent.Receiving? && st.toAgent != []
    requires st.toAgent[0].Chunk? && data == st.toAgent[0].data
    requires st.agent.got + |data| < SectorBytes(c.q.g, |c.q.image|, st.agent.s)
    ensures var a := A.Receiving(st.agent.job, st.agent.s, A.Store(st.agent.p, st.agent.got, data), st.agent.got + |data|);
            Exact(c, AgentDid(st, st.toAgent[1..], A.Outcome(a, st.flash, [])))
  {
    InvReceivesMore(c, st, data);
    assert st.toHost + [] == st.toHost && st.log + [] == st.log;
  }

  lemma ExactReceivesLast(c: Config, st: Sys, data: seq<byte>)
    requires Sized(c) && c.q.g.sector <= A.BUFFER_SIZE && Exact(c, st) && st.agent.Receiving? && st.toAgent != []
    requires st.toAgent[0].Chunk? && data == st.toAgent[0].data
    requires SectorBytes(c.q.g, |c.q.image|, st.agent.s) <= st.agent.got + |data| <= A.BUFFER_SIZE
    ensures var p := A.Store(st.agent.p, st.agent.got, data);
            Exact(c, AgentDid(st, st.toAgent[1..], A.SectorReceived(c.q.g, st.flash, st.agent.job, st.agent.s, p, Clean)))
  {
    InvReceivesLast(c, st, data, Clean);
    SectorComplete(c, st, data);
    var o := A.SectorReceived(c.q.g, st.flash, st.agent.job, st.agent.s, A.Store(st.agent.p, st.agent.got, data), Clean);
    ExactNextSector(c, st, AgentDid(st, st.toAgent[1..], o));
  }

  lemma ExactAgentReceives(c: Config, st: Sys, o: A.Outcome)
    requires Sized(c) && c.q.g.sector <= A.BUFFER_SIZE && Exact(c, st) && st.agent.Receiving? && st.toAgent != []
    requires o == A.OnReceive(c.q.g, st.flash, st.agent, Some(st.toAgent[0]), Clean)
    ensures Exact(c, AgentDid(st, st.toAgent[1..], o))
  {
    HeadOutcome(c, st, Clean);
    var data := st.toAgent[0].data;
    if st.agent.got + |data| < SectorBytes(c.q.g, |c.q.image|, st.agent.s) {
      ExactReceivesMore(c, st, data);
    } else {
      ExactReceivesLast(c, st, data);
    }
  }

  // ---------------------------------------------------------------- every loss-free run

  lemma ExactAgentReceive(c: Config, st: Sys)
    requires Servable(c) && Exact(c, st)
    ensures Exact(c, Step(c, st, AgentReceive(Clean)))
  {
    if st.toAgent != [] && !st.agent.AtSector? {
      if st.agent.Idle? {
        InvAgentIdle(c, st);
        Accepts(c, st.flash);
        ExactAccepts(c, st, Step(c, st, AgentReceive(Clean)));
      } else {
        ExactAgentReceives(c, st, A.OnReceive(c.q.g, st.flash, st.agent, Some(st.toAgent[0]), Clean));
      }
    }
  }

  lemma ExactStep(c: Config, st: Sys, e: Event)
    requires Servable(c) && Exact(c, st) && LossFree(e)
    ensures Exact(c, Step(c, st, e))
  {
    match e
    case HostAdvance => ExactHostAdvance(c, st);
    case HostReceive => ExactHostReceive(c, st);
    case AgentReceive(r) => ExactAgentReceive(c, st);
    case AgentReady => ExactAgentReady(c, st);
    case AgentWork(r1, r2) =>
      if st.agent.AtSector? {
        if st.agent.s < Count(c) && BitSet(c.q.bitmap, st.agent.s) {
          ExactBeginsReceiving(c, st);
        } else {
          ExactTurn(c, st);
        }
      }
  }

  lemma {:induction false} ExactRun(c: Config, es: seq<Event>)
    requires Servable(c) && forall i | 0 <= i < |es| :: LossFree(es[i])
    ensures Exact(c, Run(c, es))
  {
    if es == [] {
      InvInitial(c);
    } else {
      ExactRun(c, es[..|es| - 1]);
      ExactStep(c, Run(c, es[..|es| - 1]), es[|es| - 1]);
    }
  }
}
