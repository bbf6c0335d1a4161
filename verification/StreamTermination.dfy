/**
  A measure that every effective loss-free event lowers, and the absence of deadlock: together they
  make every loss-free stream end, whatever the interleaving, with the host returning True.
 */
module StreamTermination {
  import opened Bytes
  import opened Flash
  import opened StreamTypes
  import opened StreamSystem
  import opened StreamSafety
  import opened StreamLiveness
  import opened StreamTheorems
  import A = StreamAgent
  import H = StreamHost

  /** `k * w`, by repeated addition. */
  function Times(k: int, w: nat): (r: int)
    ensures r >= 0
    decreases k
  {
    if k <= 0 then 0 else Times(k - 1, w) + w
  }

  function HostRank(c: Config, h: H.Host): int
    requires Sized(c)
  {
    var w := c.q.g.sector + 4;
    var base := Times(Count(c) - h.s, w);
    match h.pc
    case Start => base + w + 2
    case AwaitAccept => base + w + 1
    case SectorTop => base + w - 1
    case Sending => base + w - 2 - h.sent
    case AwaitProgress => base + 1
    case AwaitFinal => 1
    case Returned(_) => 0
    case Raised => 0
  }

  function AgentRank(c: Config, st: Sys): int
    requires Sized(c)
  {
    var v := c.q.g.sector + 3;
    match st.phase
    case NotStarted => Times(Count(c), v) + v
    case Running =>
      (match st.agent
       case Idle => 0
       case AtSector(_, s, _) => Times(Count(c) - s, v) + v - 1
       case Receiving(_, s, _, got) => Times(Count(c) - s, v) + v - 2 - got)
    case Aborted => 0
    case Finished => 0
  }

  function Measure(c: Config, st: Sys): int
    requires Sized(c)
  {
    HostRank(c, st.host) + 2 * AgentRank(c, st) + |st.toHost|
  }

  lemma HostRankBound(c: Config, h: H.Host)
    requires Sized(c) && HostOk(c, h)
    ensures HostRank(c, h) >= 0
  {
    if h.pc.Sending? {
      SectorFacts(c.q.g, |c.q.image|, h.s);
    }
  }

  lemma AgentRankBound(c: Config, st: Sys)
    requires Sized(c) && (st.phase.Running? ==> WorkOk(c, st.agent, st.flash))
    ensures AgentRank(c, st) >= 0
  {
    if st.phase.Running? {
      if st.agent.Receiving? {
        SectorFacts(c.q.g, |c.q.image|, st.agent.s);
      }
    }
  }

  lemma MeasureBound(c: Config, st: Sys)
    requires Sized(c) && Inv(c, st)
    ensures Measure(c, st) >= 0
  {
    HostRankBound(c, st.host);
    AgentRankBound(c, st);
  }

  // ---------------------------------------------------------------- every effective event lowers it

  /** A host that is not waiting takes a step that lowers its rank. */
  lemma AdvanceLowers(c: Config, h: H.Host)
    requires Sized(c) && HostOk(c, h)
    ensures var (h', out) := H.Advance(c.q, h);
            if H.Waiting(h.pc) || h.pc.Returned? || h.pc.Raised? then h' == h && out == []
            else HostRank(c, h') < HostRank(c, h)
  {
    if h.pc.Sending? {
      SectorFacts(c.q.g, |c.q.image|, h.s);
    }
  }

  lemma HostAdvanceLowers(c: Config, st: Sys)
    requires Sized(c) && |c.q.image| <= 0x10000 * c.q.chunk && Exact(c, st)
    ensures if H.Waiting(st.host.pc) || st.host.pc.Returned? then Step(c, st, HostAdvance) == st
            else Measure(c, Step(c, st, HostAdvance)) < Measure(c, st)
  {
    AdvanceCounts(c, st);
  }

  /** The same, before what `Exact` says is used for more than the host. */
  lemma AdvanceCounts(c: Config, st: Sys)
    requires Sized(c) && HostOk(c, st.host)
    ensures if H.Waiting(st.host.pc) || st.host.pc.Returned? || st.host.pc.Raised? then Step(c, st, HostAdvance) == st
            else Measure(c, Step(c, st, HostAdvance)) < Measure(c, st)
  {
    AdvanceLowers(c, st.host);
    assert st.toAgent + [] == st.toAgent;
  }

  /** The packet it waits for lowers the host's rank; a READY leaves it. */
  lemma PacketLowers(c: Config, h: H.Host, m: ToHost)
    requires Sized(c) && HostOk(c, h) && H.Waiting(h.pc)
    ensures HostRank(c, H.OnPacket(h, m)) <= HostRank(c, h)
  {
  }

  lemma HostReceiveLowers(c: Config, st: Sys)
    requires Sized(c) && Exact(c, st)
    ensures if H.Waiting(st.host.pc) && st.toHost != []
            then Measure(c, Step(c, st, HostReceive)) < Measure(c, st)
            else Step(c, st, HostReceive) == st
  {
    if H.Waiting(st.host.pc) && st.toHost != [] {
      PacketLowers(c, st.host, st.toHost[0]);
    }
  }

  lemma AgentBegins(c: Config, st: Sys)
    requires Sized(c) && st.phase.Running? && st.agent.AtSector?
    requires st.agent.s < Count(c) && BitSet(c.q.bitmap, st.agent.s) && st.agent.job == A.Job(c.q.addr, |c.q.image|, c.q.bitmap)
    ensures Measure(c, Step(c, st, AgentWork(Clean, Clean))) < Measure(c, st)
  {
    assert A.OnSector(c.q.g, st.flash, st.agent, Clean, Clean).out == [];
  }

  lemma AgentWorkLowers(c: Config, st: Sys)
    requires Sized(c) && Exact(c, st) && st.agent.AtSector?
    ensures Measure(c, Step(c, st, AgentWork(Clean, Clean))) < Measure(c, st)
  {
    if st.agent.s < Count(c) && BitSet(c.q.bitmap, st.agent.s) {
      AgentBegins(c, st);
    } else {
      TurnOutcome(c, st.agent, st.flash, Clean, Clean);
      TurnLowers(c, st, A.OnSector(c.q.g, st.flash, st.agent, Clean, Clean));
    }
  }

  lemma TurnLowers(c: Config, st: Sys, o: A.Outcome)
    requires Sized(c) && Exact(c, st) && st.agent.AtSector? && st.phase.Running?
    requires TurnOk(c, st.agent, Clean, Clean, o)
    ensures Measure(c, AgentDid(st, st.toAgent, o)) < Measure(c, st)
  {
    assert |o.out| == 1;
  }

  lemma StoresLowers(c: Config, st: Sys, o: A.Outcome)
    requires Sized(c) && st.phase.Running? && st.agent.Receiving? && st.toAgent != []
    requires st.agent.got < SectorBytes(c.q.g, |c.q.image|, st.agent.s) <= c.q.g.sector && st.agent.s < Count(c)
    requires (o.agent.Receiving? && o.agent.s == st.agent.s && o.agent.got > st.agent.got && o.out == [])
             || (o.agent.AtSector? && o.agent.s == st.agent.s + 1 && |o.out| == 1)
    ensures Measure(c, AgentDid(st, st.toAgent[1..], o)) < Measure(c, st)
  {
  }

  lemma AgentReceivesLowers(c: Config, st: Sys)
    requires Sized(c) && c.q.g.sector <= A.BUFFER_SIZE && Exact(c, st) && st.agent.Receiving? && st.toAgent != []
    ensures Measure(c, Step(c, st, AgentReceive(Clean))) < Measure(c, st)
  {
    HeadFits(c, st);
    SectorFacts(c.q.g, |c.q.image|, st.agent.s);
    HeadOutcome(c, st, Clean);
    StoresLowers(c, st, A.OnReceive(c.q.g, st.flash, st.agent, Some(st.toAgent[0]), Clean));
  }

  lemma AgentAcceptLowers(c: Config, st: Sys)
    requires Sized(c) && Accepted(c) && c.q.addr + |c.q.image| < A.WORD && |c.q.bitmap| == (Count(c) + 7) / 8
    requires Exact(c, st) && st.phase.NotStarted? && st.toAgent != []
    ensures Measure(c, Step(c, st, AgentReceive(Clean))) < Measure(c, st)
  {
    Accepts(c, st.flash);
  }

  /** Every loss-free event other than an idle announcement either does nothing or lowers the measure. */
  lemma EventLowers(c: Config, st: Sys, e: Event)
    requires Servable(c) && Exact(c, st) && LossFree(e) && !e.AgentReady?
    ensures Step(c, st, e) == st || Measure(c, Step(c, st, e)) < Measure(c, st)
  {
    match e
    case HostAdvance => HostAdvanceLowers(c, st);
    case HostReceive => HostReceiveLowers(c, st);
    case AgentReceive(r) =>
      if st.toAgent != [] && !st.agent.AtSector? {
        if st.agent.Idle? {
          AgentAcceptLowers(c, st);
        } else {
          AgentReceivesLowers(c, st);
        }
      }
    case AgentWork(r1, r2) =>
      if st.agent.AtSector? {
        AgentWorkLowers(c, st);
      }
  }

  /** A waiting host with an empty link has caught up with the agent. */
  lemma CaughtUp(c: Config, st: Sys)
    requires Sized(c) && HostOk(c, st.host) && st.log == Transcript(c, st)
    requires Consumed(c, st.host) <= |st.log| && [] == st.log[Consumed(c, st.host)..]
    requires H.Waiting(st.host.pc)
    ensures !st.phase.Finished?
    ensures st.phase.Running? && !st.agent.Idle? ==> !st.host.pc.AwaitAccept? && st.host.s == st.agent.s
  {
    assert Consumed(c, st.host) == |st.log|;
  }

  /** The host never waits for a packet that will not come. */
  lemma NeverStuck(c: Config, st: Sys)
    requires Sized(c) && Exact(c, st) && H.Waiting(st.host.pc) && st.toHost == []
    ensures st.agent.Receiving? ==> st.toAgent != []
    ensures st.agent.Idle? ==> st.phase.NotStarted? && st.toAgent != []
  {
    EmptyLink(c, st);
    CaughtUp(c, st);
    if st.agent.Receiving? {
      NotStarved(c, st);
    }
  }

  lemma EmptyLink(c: Config, st: Sys)
    requires Sized(c) && Exact(c, st) && st.toHost == []
    ensures HostOk(c, st.host) && st.log == Transcript(c, st)
    ensures Consumed(c, st.host) <= |st.log| && [] == st.log[Consumed(c, st.host)..]
    ensures st.phase.Running? <==> !st.agent.Idle?
    ensures st.phase.NotStarted? && H.Waiting(st.host.pc) ==> st.toAgent != []
    ensures !st.phase.Aborted?
  {
  }

  lemma NotStarved(c: Config, st: Sys)
    requires Sized(c) && Exact(c, st) && st.agent.Receiving?
    requires (st.host.pc.AwaitProgress? || st.host.pc.AwaitFinal?) && st.host.s == st.agent.s
    ensures st.toAgent != []
  {
    SectorFacts(c.q.g, |c.q.image|, st.agent.s);
    if st.toAgent == [] {
      Starved(c, st);
    }
  }

  lemma Starved(c: Config, st: Sys)
    requires Sized(c) && HostOk(c, st.host) && st.agent.Receiving? && st.toAgent == [] && LinkOk(c, st)
    requires st.host.s == st.agent.s && (st.host.pc.AwaitProgress? || st.host.pc.AwaitFinal?)
    requires BitSet(c.q.bitmap, st.agent.s) && st.agent.s < Count(c) && SectorBytes(c.q.g, |c.q.image|, st.agent.s) > 0
    requires |Received(st.agent)| + |Flow(st.toAgent)| == SentOf(st.host, st.agent.s)
    ensures st.agent.got >= SectorBytes(c.q.g, |c.q.image|, st.agent.s)
  {
  }

  /** Until the host has returned, some event lowers the measure. */
  lemma NoDeadlock(c: Config, st: Sys) returns (e: Event)
    requires Servable(c) && Exact(c, st) && !st.host.pc.Returned?
    ensures LossFree(e) && Measure(c, Step(c, st, e)) < Measure(c, st)
  {
    if !H.Waiting(st.host.pc) {
      e := HostAdvance;
      HostAdvanceLowers(c, st);
    } else if st.toHost != [] {
      e := HostReceive;
      HostReceiveLowers(c, st);
    } else {
      NeverStuck(c, st);
      if st.agent.AtSector? {
        e := AgentWork(Clean, Clean);
        AgentWorkLowers(c, st);
      } else {
        e := AgentReceive(Clean);
        if st.agent.Idle? {
          AgentAcceptLowers(c, st);
        } else {
          AgentReceivesLowers(c, st);
        }
      }
    }
  }

  // ---------------------------------------------------------------- main results

  function Announcements(es: seq<Event>): nat {
    if es == [] then 0 else Announcements(es[..|es| - 1]) + (if es[|es| - 1].AgentReady? then 1 else 0)
  }

  /** Events that changed something, idle announcements aside. */
  function Effective(c: Config, es: seq<Event>): nat
    requires Sized(c)
  {
    if es == [] then 0 else
    var st := Run(c, es[..|es| - 1]);
    var e := es[|es| - 1];
    Effective(c, es[..|es| - 1]) + (if !e.AgentReady? && Step(c, st, e) != st then 1 else 0)
  }

  /** A loss-free stream takes a bounded number of steps, in every interleaving: the bound depends on
      the request alone, plus one for each idle announcement the host has to skip. */
  lemma {:induction false} BoundedSteps(c: Config, es: seq<Event>)
    requires Servable(c) && forall i | 0 <= i < |es| :: LossFree(es[i])
    ensures Effective(c, es) + Measure(c, Run(c, es)) <= Measure(c, Initial(c)) + Announcements(es)
  {
    if es != [] {
      var es', e := es[..|es| - 1], es[|es| - 1];
      BoundedSteps(c, es');
      ExactRun(c, es');
      if e.AgentReady? {
        AnnouncementCost(c, Run(c, es'));
      } else {
        EventLowers(c, Run(c, es'), e);
      }
    }
  }

  lemma AnnouncementCost(c: Config, st: Sys)
    requires Sized(c)
    ensures Measure(c, Step(c, st, AgentReady)) <= Measure(c, st) + 1
  {
  }

  lemma RunSnoc(c: Config, es: seq<Event>, e: Event)
    requires Sized(c)
    ensures Run(c, es + [e]) == Step(c, Run(c, es), e)
  {
    assert (es + [e])[..|es|] == es;
  }

  ghost predicate AllLossFree(es: seq<Event>) {
    forall i | 0 <= i < |es| :: LossFree(es[i])
  }

  /** Carried on with `more`, the run `es` comes to `st`. */
  ghost predicate Goes(c: Config, es: seq<Event>, more: seq<Event>, st: Sys) {
    Sized(c) && forall y {:trigger Is(y, es + more)} | Is(y, es + more) :: Run(c, y) == st
  }

  lemma GoesNowhere(c: Config, es: seq<Event>)
    requires Sized(c)
    ensures Goes(c, es, [], Run(c, es))
  {
    assert es + [] == es;
  }

  lemma GoesOn(c: Config, es: seq<Event>, more: seq<Event>, st: Sys, e: Event)
    requires Goes(c, es, more, st)
    ensures Goes(c, es, more + [e], Step(c, st, e))
  {
    assert Is(es + more, es + more);
    RunSnoc(c, es + more, e);
    AppendAssoc(es, more, [e]);
  }

  /** From every state in which nothing was lost and nothing failed the stream can be carried on to the host's True. */
  lemma CompletesFrom(c: Config, es: seq<Event>) returns (more: seq<Event>)
    requires Servable(c) && Exact(c, Run(c, es))
    ensures forall i | 0 <= i < |more| :: LossFree(more[i])
    ensures Run(c, es + more).host.pc == H.Returned(true)
  {
    var st := Run(c, es);
    GoesNowhere(c, es);
    MeasureBound(c, st);
    more := [];
    while !st.host.pc.Returned?
      invariant AllLossFree(more) && Goes(c, es, more, st) && Exact(c, st) && Measure(c, st) >= 0
      decreases Measure(c, st)
    {
      var e := NoDeadlock(c, st);
      ExactStep(c, st, e);
      GoesOn(c, es, more, st, e);
      st, more := Step(c, st, e), more + [e];
      MeasureBound(c, st);
    }
    assert Is(es + more, es + more);
  }

  /** From every loss-free state the stream can be carried on to the host's True. */
  lemma Completes(c: Config, es: seq<Event>) returns (more: seq<Event>)
    requires Servable(c) && forall i | 0 <= i < |es| :: LossFree(es[i])
    ensures forall i | 0 <= i < |es + more| :: LossFree((es + more)[i])
    ensures Run(c, es + more).host.pc == H.Returned(true)
  {
    ExactRun(c, es);
    more := CompletesFrom(c, es);
  }

  /** When the host has returned it returned True, the agent has said exactly: accepted, one progress
      report per sector in order, done; and the flash holds the image as it lands. */
  lemma LossFreeOutcome(c: Config, es: seq<Event>)
    requires Servable(c) && (forall i | 0 <= i < |es| :: LossFree(es[i])) && Run(c, es).host.pc.Returned?
    ensures var st := Run(c, es);
            && st.host.pc == H.Returned(true)
            && st.log == [Ack(ACK_OK)] + Reports(c, Count(c)) + [Ack(ACK_OK)]
            && HasSectors(c, st.flash, Count(c))
  {
    ExactRun(c, es);
    HoldsContent(c, Run(c, es).flash, Count(c));
  }
}
