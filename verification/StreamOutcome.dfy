/**
  What the host makes of a job that the agent ends: runs that lose no packet and in which the host does not time out,
  while erases may fail, the agent may give up waiting, and a request may be refused (src/defib/agent/client.py:675-740).
 */
module StreamOutcome {
  import opened Bytes
  import opened Flash
  import opened StreamTypes
  import opened StreamSystem
  import opened StreamSafety
  import opened StreamLiveness
  import opened StreamTermination
  import A = StreamAgent
  import H = StreamHost

  /** Nothing is lost and the host does not time out; erases may fail, and the agent's receive may time out. */
  predicate Heard(e: Event) {
    !e.HostTimeout? && !e.LoseToAgent? && !e.LoseToHost?
  }

  ghost predicate AllHeard(es: seq<Event>) {
    forall i | 0 <= i < |es| :: Heard(es[i])
  }

  predicate Over(phase: Phase) {
    phase.Aborted? || phase.Finished?
  }

  /** The host still takes packets. */
  predicate Listening(pc: H.Pc) {
    !pc.Returned? && !pc.Raised?
  }

  /** Acceptance, `m` reports, and then an ACK with `status`; whatever follows answers packets the agent did not want. */
  ghost predicate Said(c: Config, log: seq<ToHost>, m: nat, status: nat)
    requires 0 < c.q.g.sector
  {
    |log| >= m + 2 && log[0] == Ack(ACK_OK) && log[1..m + 1] == Reports(c, m) && log[m + 1] == Ack(status)
  }

  /** The agent gave up after `m` reports. */
  ghost predicate GaveUp(c: Config, st: Sys, m: nat)
    requires 0 < c.q.g.sector
  {
    && m <= Count(c) && Said(c, st.log, m, ACK_FLASH_ERROR)
    && (Listening(st.host.pc) && !st.host.pc.Start? && !st.host.pc.AwaitAccept? ==> st.host.s <= m)
  }

  /** The agent refused the request. */
  ghost predicate Refused(c: Config, st: Sys) {
    && !Accepted(c) && st.log != [] && st.log[0] == Ack(ACK_FLASH_ERROR)
    && (st.host.pc.AwaitAccept? || st.host.pc == H.Returned(false))
  }

  /** What the agent has said so far. */
  ghost predicate LogOk(c: Config, st: Sys)
    requires 0 < c.q.g.sector
  {
    match st.phase
    case NotStarted => st.log == [] && (st.host.pc.Start? || (st.host.pc.AwaitAccept? && st.toAgent == [Request(c)]))
    case Running => !st.agent.Idle? && st.log == [Ack(ACK_OK)] + Reports(c, st.agent.s)
    case Aborted => Refused(c, st) || exists m: nat :: GaveUp(c, st, m)
    case Finished => Said(c, st.log, Count(c), ACK_OK)
  }

  /** Everything the agent said is either taken by the host or on its way. */
  ghost predicate Unread(c: Config, st: Sys)
    requires 0 < c.q.g.sector
  {
    Listening(st.host.pc) ==>
      Consumed(c, st.host) <= |st.log| && NonReady(st.toHost) == st.log[Consumed(c, st.host)..]
  }

  /** What the host has returned or raised. */
  ghost predicate Verdict(c: Config, st: Sys) {
    && (st.host.pc.Returned? ==> Over(st.phase) && (st.host.pc.ok <==> st.phase.Finished?))
    && (st.host.pc.Raised? ==> |c.q.image| > 0x10000 * c.q.chunk)
  }

  ghost predicate Talk(c: Config, st: Sys)
    requires Sized(c)
  {
    LogOk(c, st) && Unread(c, st) && Verdict(c, st)
  }

  ghost predicate Told(c: Config, st: Sys)
    requires Sized(c)
  {
    Inv(c, st) && Talk(c, st)
  }

  lemma Basics(c: Config, st: Sys)
    requires Sized(c) && Inv(c, st)
    ensures HostOk(c, st.host)
    ensures st.phase.Running? ==> !st.agent.Idle? && st.agent.s <= Count(c) && Accepted(c)
    ensures !st.phase.Running? ==> st.agent.Idle?
  {
  }

  /** The log does not depend on what is on the links. */
  lemma SameLog(c: Config, st: Sys, st': Sys)
    requires Sized(c) && LogOk(c, st) && st'.phase == st.phase && st'.log == st.log && st'.agent == st.agent
    requires st'.host == st.host && st'.toAgent == st.toAgent
    ensures LogOk(c, st')
  {
    if st.phase.Aborted? && !Refused(c, st) {
      var m: nat :| GaveUp(c, st, m);
      assert GaveUp(c, st', m);
    }
  }

  // ---------------------------------------------------------------- host steps

  lemma TalkMoves(c: Config, st: Sys, st': Sys)
    requires Sized(c) && Talk(c, st) && !st.phase.NotStarted? && Listening(st.host.pc) && !st.host.pc.AwaitAccept?
    requires !st.host.pc.Start? && st' == st.(host := st'.host, toAgent := st'.toAgent) && st'.host.s == st.host.s
    requires var pc := st'.host.pc;
             && (pc.Sending? || pc.AwaitProgress? || pc.AwaitFinal? || pc.SectorTop? || pc.Raised?)
             && (pc.Raised? ==> |c.q.image| > 0x10000 * c.q.chunk)
    ensures Talk(c, st')
  {
    if st.phase.Aborted? {
      var m: nat :| GaveUp(c, st, m);
      assert GaveUp(c, st', m);
    }
  }

  lemma TalkStarts(c: Config, st: Sys, st': Sys)
    requires Sized(c) && Talk(c, st) && st.phase.NotStarted? && st.host == H.Host(H.Start, 0, 0)
    requires st' == st.(host := H.Host(H.AwaitAccept, 0, 0), toAgent := [Request(c)])
    ensures Talk(c, st')
  {
  }

  /** The host's moves between two packets. */
  lemma MovesOn(c: Config, st: Sys, st': Sys)
    requires Sized(c) && HostOk(c, st.host) && (st.host.pc.SectorTop? || st.host.pc.Sending?)
    requires st' == Step(c, st, HostAdvance)
    ensures st' == st.(host := st'.host, toAgent := st'.toAgent) && st'.host.s == st.host.s
    ensures var pc := st'.host.pc;
            && (pc.Sending? || pc.AwaitProgress? || pc.AwaitFinal? || pc.SectorTop? || pc.Raised?)
            && (pc.Raised? ==> |c.q.image| > 0x10000 * c.q.chunk)
  {
    if st'.host.pc.Raised? {
      NumberTooLarge(c, st.host);
    }
  }

  lemma ToldMoves(c: Config, st: Sys)
    requires c.Valid() && Told(c, st) && HostOk(c, st.host) && (st.host.pc.SectorTop? || st.host.pc.Sending?)
    requires !st.phase.NotStarted? && Inv(c, Step(c, st, HostAdvance))
    ensures Told(c, Step(c, st, HostAdvance))
  {
    MovesOn(c, st, Step(c, st, HostAdvance));
    TalkMoves(c, st, Step(c, st, HostAdvance));
  }

  lemma Rests(c: Config, st: Sys)
    requires Sized(c) && !st.host.pc.Start? && !st.host.pc.SectorTop? && !st.host.pc.Sending?
    ensures Step(c, st, HostAdvance) == st
  {
    assert st.toAgent + [] == st.toAgent;
  }

  lemma ToldHostAdvance(c: Config, st: Sys)
    requires c.Valid() && Told(c, st)
    ensures Told(c, Step(c, st, HostAdvance))
  {
    InvHostAdvance(c, st);
    Basics(c, st);
    if st.host.pc.Start? {
      Unstarted(c, st);
      TalkStarts(c, st, Step(c, st, HostAdvance));
    } else if st.host.pc.SectorTop? || st.host.pc.Sending? {
      ToldMoves(c, st);
    } else {
      Rests(c, st);
    }
  }

  lemma Unstarted(c: Config, st: Sys)
    requires Sized(c) && Inv(c, st) && st.host.pc.Start?
    ensures st.phase.NotStarted? && st.host == H.Host(H.Start, 0, 0) && st.toAgent == []
  {
  }

  /** Only a packet number that 16 bits cannot hold stops the host. */
  lemma NumberTooLarge(c: Config, h: H.Host)
    requires Sized(c) && HostOk(c, h) && h.pc.Sending? && H.Advance(c.q, h).0.pc.Raised?
    ensures |c.q.image| > 0x10000 * c.q.chunk
  {
    if |c.q.image| <= 0x10000 * c.q.chunk {
      SectorFacts(c.q.g, |c.q.image|, h.s);
      SeqNoFits(c, h);
    }
  }

  /** How the host reads a conversation that has come to its end: to the last word, and that is its result. */
  lemma ReadsEnded(c: Config, log: seq<ToHost>, m: nat, status: nat, h: H.Host)
    requires Sized(c) && Said(c, log, m, status) && m <= Count(c) && HostOk(c, h) && H.Waiting(h.pc)
    requires !h.pc.AwaitAccept? ==> h.s <= m
    ensures Consumed(c, h) < |log|
    ensures var x := log[Consumed(c, h)];
            && !x.Ready?
            && H.OnPacket(h, x)
               == if h.pc.AwaitAccept? then h.(pc := H.SectorTop)
                  else if h.pc.AwaitProgress? && h.s < m then H.Host(H.SectorTop, h.s + 1, 0)
                  else h.(pc := H.Returned(status == ACK_OK))
  {
    if h.pc.AwaitProgress? && h.s < m {
      assert log[h.s + 1] == log[1..m + 1][h.s];
    }
  }

  /** How it reads one that is still going on. */
  lemma ReadsRunning(c: Config, log: seq<ToHost>, m: nat, h: H.Host)
    requires Sized(c) && log == [Ack(ACK_OK)] + Reports(c, m) && m <= Count(c) && HostOk(c, h) && H.Waiting(h.pc)
    requires Consumed(c, h) < |log|
    ensures var x := log[Consumed(c, h)];
            && !x.Ready?
            && H.OnPacket(h, x) == if h.pc.AwaitAccept? then h.(pc := H.SectorTop) else H.Host(H.SectorTop, h.s + 1, 0)
  {
  }

  lemma ToldHostReceive(c: Config, st: Sys)
    requires c.Valid() && Told(c, st)
    ensures Told(c, Step(c, st, HostReceive))
  {
    InvHostReceive(c, st);
    if H.Waiting(st.host.pc) && st.toHost != [] {
      Basics(c, st);
      TalkHead(c, st, Step(c, st, HostReceive));
    }
  }

  lemma TalkHead(c: Config, st: Sys, st': Sys)
    requires Sized(c) && Talk(c, st) && HostOk(c, st.host) && H.Waiting(st.host.pc) && st.toHost != []
    requires st.phase.Running? ==> !st.agent.Idle? && st.agent.s <= Count(c)
    requires st' == st.(host := H.OnPacket(st.host, st.toHost[0]), toHost := st.toHost[1..])
    ensures Talk(c, st')
  {
    NonReadyHead(st.toHost);
    if st.toHost[0].Ready? {
      TalkSkips(c, st, st');
    } else {
      HeadOfLog(c, st);
      TalkReads(c, st, st');
    }
  }

  lemma TalkSkips(c: Config, st: Sys, st': Sys)
    requires Sized(c) && Talk(c, st) && st' == st.(toHost := st'.toHost) && NonReady(st'.toHost) == NonReady(st.toHost)
    ensures Talk(c, st')
  {
    SameLog(c, st, st');
  }

  /** The packet at the head of the link is the next one of the log. */
  lemma HeadOfLog(c: Config, st: Sys)
    requires Sized(c) && Unread(c, st) && Listening(st.host.pc) && st.toHost != [] && !st.toHost[0].Ready?
    ensures Consumed(c, st.host) < |st.log| && st.toHost[0] == st.log[Consumed(c, st.host)]
    ensures NonReady(st.toHost[1..]) == st.log[Consumed(c, st.host) + 1..]
  {
    NonReadyHead(st.toHost);
    assert NonReady(st.toHost)[0] == st.toHost[0];
    assert NonReady(st.toHost[1..]) == NonReady(st.toHost)[1..];
  }

  /** Taking the next packet of the log. */
  ghost predicate Takes(c: Config, st: Sys, st': Sys)
    requires Sized(c)
  {
    && Talk(c, st) && HostOk(c, st.host) && H.Waiting(st.host.pc) && Consumed(c, st.host) < |st.log|
    && st' == st.(host := H.OnPacket(st.host, st.log[Consumed(c, st.host)]), toHost := st'.toHost)
    && NonReady(st'.toHost) == st.log[Consumed(c, st.host) + 1..]
  }

  lemma TakesRunning(c: Config, st: Sys, st': Sys)
    requires Sized(c) && Takes(c, st, st') && st.phase.Running? && !st.agent.Idle? && st.agent.s <= Count(c)
    ensures Talk(c, st')
  {
    ReadsRunning(c, st.log, st.agent.s, st.host);
  }

  lemma TakesRefusal(c: Config, st: Sys, st': Sys)
    requires Sized(c) && Takes(c, st, st') && st.phase.Aborted? && Refused(c, st)
    ensures Talk(c, st')
  {
  }

  lemma TakesAborted(c: Config, st: Sys, st': Sys, m: nat)
    requires Sized(c) && Takes(c, st, st') && st.phase.Aborted? && GaveUp(c, st, m)
    ensures Talk(c, st')
  {
    ReadsEnded(c, st.log, m, ACK_FLASH_ERROR, st.host);
    assert GaveUp(c, st', m);
  }

  lemma TakesFinished(c: Config, st: Sys, st': Sys)
    requires Sized(c) && Takes(c, st, st') && st.phase.Finished?
    ensures Talk(c, st')
  {
    ReadsEnded(c, st.log, Count(c), ACK_OK, st.host);
    assert Said(c, st'.log, Count(c), ACK_OK);
    TakenUnread(c, st, st');
  }

  lemma TakenUnread(c: Config, st: Sys, st': Sys)
    requires Sized(c) && Consumed(c, st.host) < |st.log| && st'.log == st.log
    requires NonReady(st'.toHost) == st.log[Consumed(c, st.host) + 1..]
    requires Listening(st'.host.pc) ==> Consumed(c, st'.host) == Consumed(c, st.host) + 1
    ensures Unread(c, st')
  {
  }

  lemma TalkReads(c: Config, st: Sys, st': Sys)
    requires Sized(c) && Takes(c, st, st') && (st.phase.Running? ==> !st.agent.Idle? && st.agent.s <= Count(c))
    ensures Talk(c, st')
  {
    if st.phase.Running? {
      TakesRunning(c, st, st');
    } else if st.phase.Finished? {
      TakesFinished(c, st, st');
    } else if Refused(c, st) {
      TakesRefusal(c, st, st');
    } else {
      var m: nat :| GaveUp(c, st, m);
      TakesAborted(c, st, st', m);
    }
  }

  // ---------------------------------------------------------------- agent steps

  ghost predicate NoReady(out: seq<ToHost>) {
    forall i | 0 <= i < |out| :: !out[i].Ready?
  }

  lemma {:induction false} NonReadyAll(out: seq<ToHost>)
    requires NoReady(out)
    ensures NonReady(out) == out
  {
    if out != [] {
      NonReadyAll(out[1..]);
    }
  }

  /** What the agent says goes to the end of the log and to the end of the link. */
  lemma UnreadSays(c: Config, st: Sys, st': Sys, out: seq<ToHost>)
    requires Sized(c) && Unread(c, st) && NoReady(out)
    requires st'.host == st.host && st'.toHost == st.toHost + out && st'.log == st.log + out
    ensures Unread(c, st')
  {
    NonReadyAppend(st.toHost, out);
    NonReadyAll(out);
  }

  lemma ToldAgentReady(c: Config, st: Sys)
    requires Sized(c) && Told(c, st)
    ensures Told(c, Step(c, st, AgentReady))
  {
    InvAgentReady(c, st);
    NonReadyAppend(st.toHost, [Ready]);
    TalkSkips(c, st, Step(c, st, AgentReady));
  }

  /** Once the job is over the log only grows. */
  lemma TalkLeftover(c: Config, st: Sys, st': Sys, m: ToHost)
    requires Sized(c) && Talk(c, st) && Over(st.phase) && !m.Ready?
    requires st'.phase == st.phase && st'.host == st.host && st'.toHost == st.toHost + [m] && st'.log == st.log + [m]
    ensures Talk(c, st')
  {
    UnreadSays(c, st, st', [m]);
    if st.phase.Finished? {
      SaidMore(c, st.log, [m], Count(c), ACK_OK);
    } else if !Refused(c, st) {
      var n: nat :| GaveUp(c, st, n);
      SaidMore(c, st.log, [m], n, ACK_FLASH_ERROR);
      assert GaveUp(c, st', n);
    }
  }

  lemma SaidMore(c: Config, log: seq<ToHost>, more: seq<ToHost>, m: nat, status: nat)
    requires Sized(c) && Said(c, log, m, status)
    ensures Said(c, log + more, m, status)
  {
    assert (log + more)[1..m + 1] == log[1..m + 1];
  }

  lemma SaidLast(c: Config, m: nat, status: nat)
    requires Sized(c)
    ensures Said(c, [Ack(ACK_OK)] + Reports(c, m) + [Ack(status)], m, status)
  {
    assert ([Ack(ACK_OK)] + Reports(c, m) + [Ack(status)])[1..m + 1] == Reports(c, m);
  }

  // ---------------------------------------------------------------- the agent at work

  /** An agent step out of a running job that says `out`. */
  ghost predicate Works(c: Config, st: Sys, st': Sys, out: seq<ToHost>)
    requires Sized(c)
  {
    && Talk(c, st) && HostOk(c, st.host) && st.phase.Running? && !st.agent.Idle? && st.agent.s <= Count(c) && Accepted(c)
    && st'.host == st.host && st.host.s <= st.agent.s && NoReady(out)
    && st'.toHost == st.toHost + out && st'.log == st.log + out
  }

  lemma WorksOn(c: Config, st: Sys, st': Sys)
    requires Sized(c) && Works(c, st, st', []) && st'.phase.Running? && !st'.agent.Idle? && st'.agent.s == st.agent.s
    ensures Talk(c, st')
  {
    UnreadSays(c, st, st', []);
  }

  lemma WorksReport(c: Config, st: Sys, st': Sys)
    requires Sized(c) && st'.phase.Running? && !st'.agent.Idle? && !st.agent.Idle? && st'.agent.s == st.agent.s + 1
    requires var m := Progress((st.agent.s + 1) % 0x10000, Count(c) % 0x10000); Works(c, st, st', [m])
    ensures Talk(c, st')
  {
    var m := Progress((st.agent.s + 1) % 0x10000, Count(c) % 0x10000);
    UnreadSays(c, st, st', [m]);
    ReportsNext(c, st.agent.s);
    AppendAssoc([Ack(ACK_OK)], Reports(c, st.agent.s), [m]);
  }

  lemma WorksDone(c: Config, st: Sys, st': Sys)
    requires Sized(c) && Works(c, st, st', [Ack(ACK_OK)]) && st'.phase.Finished? && st.agent.s == Count(c)
    ensures Talk(c, st')
  {
    UnreadSays(c, st, st', [Ack(ACK_OK)]);
    SaidLast(c, Count(c), ACK_OK);
  }

  lemma WorksGivesUp(c: Config, st: Sys, st': Sys)
    requires Sized(c) && Works(c, st, st', [Ack(ACK_FLASH_ERROR)]) && st'.phase.Aborted?
    ensures Talk(c, st')
  {
    UnreadSays(c, st, st', [Ack(ACK_FLASH_ERROR)]);
    SaidLast(c, st.agent.s, ACK_FLASH_ERROR);
    assert GaveUp(c, st', st.agent.s);
  }

  lemma WorksReportsAndGivesUp(c: Config, st: Sys, st': Sys)
    requires Sized(c) && !st.agent.Idle? && st.agent.s < Count(c) && st'.phase.Aborted?
    requires var m := Progress((st.agent.s + 1) % 0x10000, Count(c) % 0x10000);
             Works(c, st, st', [m, Ack(ACK_FLASH_ERROR)])
    ensures Talk(c, st')
  {
    var s, m := st.agent.s, Progress((st.agent.s + 1) % 0x10000, Count(c) % 0x10000);
    UnreadSays(c, st, st', [m, Ack(ACK_FLASH_ERROR)]);
    ReportsNext(c, s);
    assert st'.log == [Ack(ACK_OK)] + Reports(c, s + 1) + [Ack(ACK_FLASH_ERROR)];
    SaidLast(c, s + 1, ACK_FLASH_ERROR);
    assert GaveUp(c, st', s + 1);
  }

  lemma RunningHost(c: Config, st: Sys)
    requires Sized(c) && Told(c, st) && st.phase.Running?
    ensures Talk(c, st) && HostOk(c, st.host) && !st.agent.Idle? && st.agent.s <= Count(c) && Accepted(c)
    ensures st.host.s <= st.agent.s && st.agent.job == A.Job(c.q.addr, |c.q.image|, c.q.bitmap)
  {
  }

  lemma ToldAgentTimeout(c: Config, st: Sys)
    requires Sized(c) && Told(c, st)
    ensures Told(c, Step(c, st, AgentTimeout))
  {
    InvAgentTimeout(c, st);
    if st.agent.Receiving? {
      RunningHost(c, st);
      WorksGivesUp(c, st, Step(c, st, AgentTimeout));
    }
  }

  lemma ToldAgentWork(c: Config, st: Sys, r1: EraseResult, r2: EraseResult)
    requires Sized(c) && Told(c, st)
    ensures Told(c, Step(c, st, AgentWork(r1, r2)))
  {
    InvAgentWork(c, st, r1, r2);
    if st.agent.AtSector? {
      var st' := Step(c, st, AgentWork(r1, r2));
      RunningHost(c, st);
      if st.agent.s < Count(c) && BitSet(c.q.bitmap, st.agent.s) {
        WorksOn(c, st, st');
      } else {
        TurnSays(c, st, r1, r2);
        TalkTurn(c, st, st', A.OnSector(c.q.g, st.flash, st.agent, r1, r2));
      }
    }
  }

  /** The packets of a turn of the loop that does not wait for data. */
  lemma TurnSays(c: Config, st: Sys, r1: EraseResult, r2: EraseResult)
    requires Sized(c) && Inv(c, st) && st.agent.AtSector? && !(st.agent.s < Count(c) && BitSet(c.q.bitmap, st.agent.s))
    ensures TurnOut(c, st.agent, A.OnSector(c.q.g, st.flash, st.agent, r1, r2))
  {
    TurnOutcome(c, st.agent, st.flash, r1, r2);
  }

  ghost predicate TurnOut(c: Config, a: A.Agent, o: A.Outcome)
    requires Sized(c) && !a.Idle?
  {
    || (o.agent.Idle? && o.out == [Ack(ACK_FLASH_ERROR)])
    || (o.agent.Idle? && o.out == [Ack(ACK_OK)] && a.s == Count(c))
    || (o.agent.AtSector? && o.agent.s == a.s + 1 && o.out == [Progress((a.s + 1) % 0x10000, Count(c) % 0x10000)])
  }

  lemma TalkTurn(c: Config, st: Sys, st': Sys, o: A.Outcome)
    requires Sized(c) && !st.agent.Idle? && TurnOut(c, st.agent, o) && st' == AgentDid(st, st.toAgent, o)
    requires Works(c, st, st', o.out)
    ensures Talk(c, st')
  {
    if o.agent.AtSector? {
      WorksReport(c, st, st');
    } else if o.out == [Ack(ACK_OK)] {
      WorksDone(c, st, st');
    } else {
      WorksGivesUp(c, st, st');
    }
  }

  /** The packets of a receive. */
  ghost predicate ReceiveOut(c: Config, a: A.Agent, o: A.Outcome)
    requires Sized(c) && !a.Idle?
  {
    var m := Progress((a.s + 1) % 0x10000, Count(c) % 0x10000);
    || (o.agent.Receiving? && o.agent.s == a.s && o.out == [])
    || (o.agent.AtSector? && o.agent.s == a.s + 1 && o.out == [m])
    || (o.agent.Idle? && o.out == [m, Ack(ACK_FLASH_ERROR)])
  }

  lemma ReceivedSays(c: Config, f: seq<byte>, a: A.Agent, p: A.Buffers, r: EraseResult)
    requires Sized(c) && !a.Idle? && a.job.size == |c.q.image|
    ensures ReceiveOut(c, a, A.SectorReceived(c.q.g, f, a.job, a.s, p, r))
  {
  }

  lemma ReceiveSays(c: Config, st: Sys, r: EraseResult)
    requires Sized(c) && c.q.g.sector <= A.BUFFER_SIZE && Inv(c, st) && st.agent.Receiving? && st.toAgent != []
    ensures ReceiveOut(c, st.agent, A.OnReceive(c.q.g, st.flash, st.agent, Some(st.toAgent[0]), r))
    ensures st.agent.s < Count(c)
  {
    HeadOutcome(c, st, r);
    ReceivedSays(c, st.flash, st.agent, A.Store(st.agent.p, st.agent.got, st.toAgent[0].data), r);
  }

  lemma TalkReceive(c: Config, st: Sys, st': Sys, o: A.Outcome)
    requires Sized(c) && !st.agent.Idle? && ReceiveOut(c, st.agent, o) && st.agent.s < Count(c)
    requires st' == AgentDid(st, st'.toAgent, o) && Works(c, st, st', o.out)
    ensures Talk(c, st')
  {
    if o.agent.Receiving? {
      WorksOn(c, st, st');
    } else if o.agent.AtSector? {
      WorksReport(c, st, st');
    } else {
      WorksReportsAndGivesUp(c, st, st');
    }
  }

  lemma ToldReceiving(c: Config, st: Sys, r: EraseResult)
    requires Sized(c) && c.q.g.sector <= A.BUFFER_SIZE && Told(c, st) && st.agent.Receiving? && st.toAgent != []
    ensures Told(c, Step(c, st, AgentReceive(r)))
  {
    InvAgentReceives(c, st, r);
    RunningHost(c, st);
    ReceiveSays(c, st, r);
    TalkReceive(c, st, Step(c, st, AgentReceive(r)), A.OnReceive(c.q.g, st.flash, st.agent, Some(st.toAgent[0]), r));
  }

  /** A running job, an idle agent: which is which. */
  lemma IdlePhase(c: Config, st: Sys)
    requires Sized(c) && Inv(c, st) && st.agent.Idle?
    ensures st.phase.NotStarted? || (Over(st.phase) && (st.toAgent != [] ==> st.toAgent[0].Chunk?))
    ensures |st.flash| == |c.flash0|
  {
  }

  lemma ToldIdle(c: Config, st: Sys)
    requires c.Valid() && Told(c, st) && st.agent.Idle? && st.toAgent != []
    ensures Told(c, Step(c, st, AgentReceive(Clean)))
  {
    var st' := Step(c, st, AgentReceive(Clean));
    InvAgentIdle(c, st);
    IdlePhase(c, st);
    if st.phase.NotStarted? {
      OnRequest(c, st.flash);
      if Accepted(c) {
        TalkAccepts(c, st, st');
      } else {
        TalkRefuses(c, st, st');
      }
    } else {
      TalkLeftover(c, st, st', Ack(ACK_CRC_ERROR));
    }
  }

  lemma TalkAccepts(c: Config, st: Sys, st': Sys)
    requires Sized(c) && Talk(c, st) && st.phase.NotStarted? && st'.phase.Running? && st'.agent.AtSector? && st'.agent.s == 0
    requires st'.host == st.host && st'.toHost == st.toHost + [Ack(ACK_OK)] && st'.log == st.log + [Ack(ACK_OK)]
    ensures Talk(c, st')
  {
    UnreadSays(c, st, st', [Ack(ACK_OK)]);
    assert Reports(c, 0) == [];
  }

  lemma TalkRefuses(c: Config, st: Sys, st': Sys)
    requires Sized(c) && Talk(c, st) && st.phase.NotStarted? && st'.phase.Aborted? && st.toAgent != [] && !Accepted(c)
    requires st.host.pc.AwaitAccept?
    requires st'.host == st.host && st'.toHost == st.toHost + [Ack(ACK_FLASH_ERROR)]
    requires st'.log == st.log + [Ack(ACK_FLASH_ERROR)]
    ensures Talk(c, st')
  {
    UnreadSays(c, st, st', [Ack(ACK_FLASH_ERROR)]);
    assert Refused(c, st');
  }

  // ---------------------------------------------------------------- every run

  lemma ToldStep(c: Config, st: Sys, e: Event)
    requires c.Valid() && Told(c, st) && Heard(e)
    ensures Told(c, Step(c, st, e))
  {
    match e
    case HostAdvance => ToldHostAdvance(c, st);
    case HostReceive => ToldHostReceive(c, st);
    case AgentReceive(r) =>
      if st.toAgent != [] {
        if st.agent.Idle? {
          ToldIdle(c, st);
        } else if st.agent.Receiving? {
          ToldReceiving(c, st, r);
        }
      }
    case AgentTimeout => ToldAgentTimeout(c, st);
    case AgentReady => ToldAgentReady(c, st);
    case AgentWork(r1, r2) => ToldAgentWork(c, st, r1, r2);
  }

  lemma {:induction false} ToldRun(c: Config, es: seq<Event>)
    requires c.Valid() && AllHeard(es)
    ensures Told(c, Run(c, es))
  {
    if es == [] {
      InvInitial(c);
    } else {
      ToldRun(c, es[..|es| - 1]);
      ToldStep(c, Run(c, es[..|es| - 1]), es[|es| - 1]);
    }
  }

  // ---------------------------------------------------------------- a job that is over

  predicate OfHost(e: Event) {
    e.HostAdvance? || e.HostReceive?
  }

  ghost predicate AllOfHost(es: seq<Event>) {
    forall i | 0 <= i < |es| :: OfHost(es[i])
  }

  /** Until it has returned, the host finds something to do: the agent's last word is on its way. */
  lemma StillToRead(c: Config, st: Sys)
    requires Sized(c) && Told(c, st) && Over(st.phase) && H.Waiting(st.host.pc)
    ensures st.toHost != []
  {
    Basics(c, st);
    if st.phase.Finished? {
      ReadsEnded(c, st.log, Count(c), ACK_OK, st.host);
    } else if !Refused(c, st) {
      var m: nat :| GaveUp(c, st, m);
      ReadsEnded(c, st.log, m, ACK_FLASH_ERROR, st.host);
    }
  }

  function HostMeasure(c: Config, st: Sys): int
    requires Sized(c)
  {
    HostRank(c, st.host) + |st.toHost|
  }

  lemma HostStep(c: Config, st: Sys) returns (e: Event)
    requires c.Valid() && Told(c, st) && Over(st.phase) && Listening(st.host.pc)
    ensures OfHost(e) && Told(c, Step(c, st, e))
    ensures Step(c, st, e).phase == st.phase && Step(c, st, e).flash == st.flash
    ensures 0 <= HostMeasure(c, Step(c, st, e)) < HostMeasure(c, st)
  {
    Basics(c, st);
    if H.Waiting(st.host.pc) {
      e := HostReceive;
      StillToRead(c, st);
      ToldHostReceive(c, st);
      PacketLowers(c, st.host, st.toHost[0]);
    } else {
      e := HostAdvance;
      ToldHostAdvance(c, st);
      AdvanceLowers(c, st.host);
    }
    Basics(c, Step(c, st, e));
    HostRankBound(c, Step(c, st, e).host);
  }

  /** The host is left alone until it is done. */
  lemma HostEnds(c: Config, es: seq<Event>, first: seq<Event>, st0: Sys) returns (rest: seq<Event>, st: Sys)
    requires c.Valid() && Goes(c, es, first, st0) && Told(c, st0) && Over(st0.phase)
    ensures AllOfHost(rest) && Goes(c, es, first + rest, st) && Told(c, st) && !Listening(st.host.pc)
    ensures st.phase == st0.phase && st.flash == st0.flash
  {
    rest, st := [], st0;
    assert first + rest == first;
    while Listening(st.host.pc)
      invariant AllOfHost(rest) && Goes(c, es, first + rest, st) && Told(c, st)
      invariant st.phase == st0.phase && st.flash == st0.flash
      decreases HostMeasure(c, st)
    {
      var e := HostStep(c, st);
      GoesOn(c, es, first + rest, st, e);
      AppendAssoc(first, rest, [e]);
      st, rest := Step(c, st, e), rest + [e];
    }
  }

  // ---------------------------------------------------------------- main results

  /** What the host returns is the truth: True exactly for a job the agent finished, False for one it refused or gave
      up, and never before the agent is done. */
  lemma ReturnTells(c: Config, es: seq<Event>)
    requires c.Valid() && AllHeard(es) && Run(c, es).host.pc.Returned?
    ensures Over(Run(c, es).phase) && (Run(c, es).host.pc.ok <==> Run(c, es).phase.Finished?)
  {
    ToldRun(c, es);
  }

  /** And it needs no timeout to learn it. Once the agent has finished, refused or given up, by a failed erase or after
      waiting in vain, the host comes to its answer on what is already on its way, alone. The one exception is an
      image with more packets than 16 bits can number, which stops the host wherever it is. */
  lemma HostLearns(c: Config, es: seq<Event>) returns (more: seq<Event>)
    requires c.Valid() && AllHeard(es) && Over(Run(c, es).phase)
    ensures AllOfHost(more)
    ensures Run(c, es + more).phase == Run(c, es).phase && Run(c, es + more).flash == Run(c, es).flash
    ensures Run(c, es + more).host.pc == H.Returned(Run(c, es).phase.Finished?)
            || (Run(c, es + more).host.pc.Raised? && |c.q.image| > 0x10000 * c.q.chunk)
  {
    ToldRun(c, es);
    more := HostAnswers(c, es);
  }

  lemma HostAnswers(c: Config, es: seq<Event>) returns (more: seq<Event>)
    requires c.Valid() && Told(c, Run(c, es)) && Over(Run(c, es).phase)
    ensures AllOfHost(more) && Told(c, Run(c, es + more)) && !Listening(Run(c, es + more).host.pc)
    ensures Run(c, es + more).phase == Run(c, es).phase && Run(c, es + more).flash == Run(c, es).flash
  {
    GoesNowhere(c, es);
    var st: Sys;
    more, st := HostEnds(c, es, [], Run(c, es));
    assert [] + more == more && Is(es + more, es + more);
  }

  // ---------------------------------------------------------------- a job that goes on

  /** Without effect a failed erase is a clean one: only a pending sector is erased while another is received. */
  lemma ReceiveClean(c: Config, st: Sys, r: EraseResult)
    requires Sized(c) && c.q.g.sector <= A.BUFFER_SIZE && Inv(c, st) && !st.phase.Aborted?
    requires !Step(c, st, AgentReceive(r)).phase.Aborted?
    ensures Step(c, st, AgentReceive(r)) == Step(c, st, AgentReceive(Clean))
  {
    if st.agent.Receiving? && st.toAgent != [] {
      HeadOutcome(c, st, r);
      HeadOutcome(c, st, Clean);
    }
  }

  lemma WorkClean(c: Config, st: Sys, r1: EraseResult, r2: EraseResult)
    requires Sized(c) && Inv(c, st) && !st.phase.Aborted? && !Step(c, st, AgentWork(r1, r2)).phase.Aborted?
    ensures Step(c, st, AgentWork(r1, r2)) == Step(c, st, AgentWork(Clean, Clean))
  {
  }

  lemma ExactOrAborts(c: Config, st: Sys, e: Event)
    requires Servable(c) && Exact(c, st) && Heard(e)
    ensures Step(c, st, e).phase.Aborted? || Exact(c, Step(c, st, e))
  {
    if !Step(c, st, e).phase.Aborted? {
      match e
      case AgentReceive(r) =>
        ReceiveClean(c, st, r);
        ExactStep(c, st, AgentReceive(Clean));
      case AgentWork(r1, r2) =>
        WorkClean(c, st, r1, r2);
        ExactStep(c, st, AgentWork(Clean, Clean));
      case AgentTimeout =>
      case _ => ExactStep(c, st, e);
    }
  }

  lemma AbortStays(c: Config, st: Sys, e: Event)
    requires Sized(c) && Inv(c, st) && st.phase.Aborted?
    ensures Step(c, st, e).phase.Aborted?
  {
  }

  lemma {:induction false} ExactUnlessAborted(c: Config, es: seq<Event>)
    requires Servable(c) && AllHeard(es)
    ensures Run(c, es).phase.Aborted? || Exact(c, Run(c, es))
  {
    if es == [] {
      ExactRun(c, []);
    } else {
      var before := Run(c, es[..|es| - 1]);
      ExactUnlessAborted(c, es[..|es| - 1]);
      if before.phase.Aborted? {
        InvRun(c, es[..|es| - 1]);
        AbortStays(c, before, es[|es| - 1]);
      } else {
        ExactOrAborts(c, before, es[|es| - 1]);
      }
    }
  }

  lemma Asks(c: Config, es: seq<Event>) returns (more: seq<Event>, st: Sys)
    requires c.Valid() && Told(c, Run(c, es)) && Run(c, es).phase.NotStarted?
    ensures |more| <= 1 && (forall i | 0 <= i < |more| :: LossFree(more[i]))
    ensures Goes(c, es, more, st) && Told(c, st) && st.phase.NotStarted? && !st.host.pc.Start?
  {
    more, st := [], Run(c, es);
    GoesNowhere(c, es);
    if st.host.pc.Start? {
      GoesOn(c, es, [], st, HostAdvance);
      ToldHostAdvance(c, st);
      more, st := [] + [HostAdvance], Step(c, st, HostAdvance);
    }
  }

  /** A request that is not acceptable is refused two steps from the start, and the host says so. */
  lemma GetsRefused(c: Config, es: seq<Event>) returns (more: seq<Event>, st: Sys)
    requires c.Valid() && Told(c, Run(c, es)) && Run(c, es).phase.NotStarted? && !Accepted(c)
    ensures forall i | 0 <= i < |more| :: LossFree(more[i])
    ensures Goes(c, es, more, st) && Told(c, st) && st.phase.Aborted? && !Listening(st.host.pc)
  {
    var asked: seq<Event>;
    asked, st := Asks(c, es);
    GoesOn(c, es, asked, st, AgentReceive(Clean));
    RefusesStep(c, st);
    var first := asked + [AgentReceive(Clean)];
    var rest: seq<Event>;
    rest, st := HostEnds(c, es, first, Step(c, st, AgentReceive(Clean)));
    more := first + rest;
  }

  lemma RefusesStep(c: Config, st: Sys)
    requires c.Valid() && Told(c, st) && st.phase.NotStarted? && !st.host.pc.Start? && !Accepted(c)
    ensures Told(c, Step(c, st, AgentReceive(Clean))) && Step(c, st, AgentReceive(Clean)).phase.Aborted?
  {
    RequestWaits(c, st);
    ToldIdle(c, st);
    OnRequest(c, st.flash);
  }

  lemma RequestWaits(c: Config, st: Sys)
    requires Sized(c) && Told(c, st) && st.phase.NotStarted? && !st.host.pc.Start?
    ensures st.agent.Idle? && st.toAgent == [Request(c)] && |st.flash| == |c.flash0|
  {
  }

  lemma AllHeardMore(es: seq<Event>, more: seq<Event>)
    requires AllHeard(es) && forall i | 0 <= i < |more| :: LossFree(more[i]) || OfHost(more[i])
    ensures AllHeard(es + more)
  {
  }

  lemma CompletesTold(c: Config, es: seq<Event>) returns (more: seq<Event>)
    requires Servable(c) && AllHeard(es) && Exact(c, Run(c, es))
    ensures forall i | 0 <= i < |more| :: LossFree(more[i])
    ensures Run(c, es + more).host.pc == H.Returned(true) && Run(c, es + more).phase.Finished?
  {
    more := CompletesFrom(c, es);
    AllHeardMore(es, more);
    ReturnTells(c, es + more);
  }

  /** Whatever has failed so far, as long as nothing was lost the stream can be carried on, with nothing more failing,
      to an answer of the host, and the answer is the truth. */
  lemma Concludes(c: Config, es: seq<Event>) returns (more: seq<Event>)
    requires c.Valid() && |c.q.image| <= 0x10000 * c.q.chunk && AllHeard(es)
    ensures forall i | 0 <= i < |more| :: LossFree(more[i])
    ensures var st := Run(c, es + more);
            st.host.pc.Returned? && Over(st.phase) && (st.host.pc.ok <==> st.phase.Finished?)
    ensures Accepted(c) && !Run(c, es).phase.Aborted? ==> Run(c, es + more).host.pc.ok
  {
    ToldRun(c, es);
    if Over(Run(c, es).phase) {
      more := HostAnswers(c, es);
    } else if Accepted(c) {
      ExactUnlessAborted(c, es);
      more := CompletesTold(c, es);
    } else {
      Basics(c, Run(c, es));
      var st: Sys;
      more, st := GetsRefused(c, es);
      assert Is(es + more, es + more);
    }
  }
}
