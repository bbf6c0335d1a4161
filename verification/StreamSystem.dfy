/**
  Host, agent and flash joined by two FIFO links that may lose any packet at any time.
  A run is any list of events, in any interleaving.
 */
module StreamSystem {
  import opened Bytes
  import opened Flash
  import opened StreamTypes
  import A = StreamAgent
  import H = StreamHost

  /** What a run starts from: the request, the chip's contents and the agent's RAM buffers. */
  datatype Config = Config(q: H.Request, flash0: seq<byte>, ram0: seq<seq<byte>>) {
    ghost predicate Valid() {
      && q.Valid() && q.g.Valid()
      && |flash0| % q.g.sector == 0 && q.addr % q.g.sector == 0
      && q.addr + |q.image| < A.WORD
      && |ram0| == 2 && |ram0[0]| == |ram0[1]| == A.BUFFER_SIZE
    }
  }

  /** What `Step` needs to be defined: sizes that can be divided by, and two full-size buffers. */
  predicate Sized(c: Config) {
    && 0 < c.q.g.sector && 0 < c.q.g.page && 0 < c.q.chunk
    && |c.ram0| == 2 && |c.ram0[0]| == |c.ram0[1]| == A.BUFFER_SIZE
  }

  /** How the agent stands towards the request; a history variable, not agent state. */
  datatype Phase = NotStarted | Running | Aborted | Finished

  /** `log` records every packet the agent sent, READY announcements aside. */
  datatype Sys = Sys(host: H.Host, agent: A.Agent, flash: seq<byte>,
                     toAgent: seq<ToAgent>, toHost: seq<ToHost>,
                     phase: Phase, log: seq<ToHost>)

  datatype Event =
    | HostAdvance                                  // send the next packet, or move on
    | HostReceive                                  // take the packet at the head of the link
    | HostTimeout                                  // TransportTimeout
    | AgentReceive(r: EraseResult)                 // proto_recv returns a packet
    | AgentTimeout                                 // proto_recv returns 0
    | AgentReady                                   // idle announcement
    | AgentWork(r1: EraseResult, r2: EraseResult)  // one turn of the sector loop
    | LoseToAgent(i: nat)                          // a packet is lost or fails its CRC
    | LoseToHost(j: nat)

  function Initial(c: Config): Sys {
    Sys(H.Host(H.Start, 0, 0), A.Idle, c.flash0, [], [], NotStarted, [])
  }

  /** The packet that asks for the stream. */
  function Request(c: Config): ToAgent {
    Stream(c.q.addr, |c.q.image|, c.q.crc, c.q.bitmap)
  }

  function Without<T>(s: seq<T>, i: nat): seq<T> {
    if i < |s| then s[..i] + s[i + 1..] else s
  }

  /** The phase after an agent step from `before` that produced `o`. */
  function PhaseAfter(phase: Phase, before: A.Agent, o: A.Outcome): Phase {
    if before.Idle? then
      if !o.agent.Idle? then Running
      else if phase.NotStarted? then Aborted   // the request was refused
      else phase
    else if !o.agent.Idle? then Running
    else if o.out == [Ack(ACK_OK)] then Finished
    else Aborted
  }

  function AgentDid(st: Sys, toAgent: seq<ToAgent>, o: A.Outcome): Sys {
    st.(agent := o.agent, flash := o.flash, toAgent := toAgent, toHost := st.toHost + o.out,
        phase := PhaseAfter(st.phase, st.agent, o), log := st.log + o.out)
  }

  /** One event; an event that is not enabled changes nothing. */
  function Step(c: Config, st: Sys, e: Event): Sys
    requires Sized(c)
  {
    var g := c.q.g;
    match e
    case HostAdvance =>
      var (h, out) := H.Advance(c.q, st.host);
      st.(host := h, toAgent := st.toAgent + out)
    case HostReceive =>
      if !H.Waiting(st.host.pc) || st.toHost == [] then st
      else st.(host := H.OnPacket(st.host, st.toHost[0]), toHost := st.toHost[1..])
    case HostTimeout =>
      if H.Waiting(st.host.pc) then st.(host := st.host.(pc := H.Raised)) else st
    case AgentReceive(r) =>
      if st.toAgent == [] || st.agent.AtSector? then st
      else if st.agent.Idle? then AgentDid(st, st.toAgent[1..], A.OnIdle(g, st.flash, c.ram0, st.toAgent[0]))
      else AgentDid(st, st.toAgent[1..], A.OnReceive(g, st.flash, st.agent, Some(st.toAgent[0]), r))
    case AgentTimeout =>
      if !st.agent.Receiving? then st
      else AgentDid(st, st.toAgent, A.OnReceive(g, st.flash, st.agent, None, Clean))
    case AgentReady => if st.agent.Idle? then st.(toHost := st.toHost + [Ready]) else st
    case AgentWork(r1, r2) =>
      if !st.agent.AtSector? then st
      else AgentDid(st, st.toAgent, A.OnSector(g, st.flash, st.agent, r1, r2))
    case LoseToAgent(i) => st.(toAgent := Without(st.toAgent, i))
    case LoseToHost(j) => st.(toHost := Without(st.toHost, j))
  }

  function Run(c: Config, es: seq<Event>): Sys
    requires Sized(c)
  {
    if es == [] then Initial(c) else Step(c, Run(c, es[..|es| - 1]), es[|es| - 1])
  }
}
