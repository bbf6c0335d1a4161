/**
  What every run of a flash stream keeps, and what a True from the host therefore means.
 */
module StreamSafety {
  import opened Bytes
  import opened Flash
  import opened StreamTypes
  import opened StreamSystem
  import A = StreamAgent
  import H = StreamHost

  function Count(c: Config): nat
    requires 0 < c.q.g.sector
  {
    NumSectors(c.q.g, |c.q.image|)
  }

  /** The flash once sector `s` of the image has been written to it. */
  function WithSector(c: Config, f: seq<byte>, s: nat): (f': seq<byte>)
    requires 0 < c.q.g.sector && 0 < c.q.g.page
    ensures |f'| == |f|
  {
    var a := c.q.addr + s * c.q.g.sector;
    if BitSet(c.q.bitmap, s)
    then A.ChipProgram(c.q.g, f, a, SectorData(c.q.g, c.q.image, s))
    else A.ChipErase(c.q.g, f, a, Clean)
  }

  /** The flash once the first `m` sectors of the image have been written. */
  function After(c: Config, m: nat): (f: seq<byte>)
    requires 0 < c.q.g.sector && 0 < c.q.g.page
    ensures |f| == |c.flash0|
  {
    if m == 0 then c.flash0 else WithSector(c, After(c, m - 1), m - 1)
  }

  lemma AfterStep(c: Config, m: nat, f: seq<byte>)
    requires Sized(c) && f == After(c, m)
    ensures After(c, m + 1) == WithSector(c, f, m)
  {
  }

  /** `f` is the flash after the first `m` sectors. */
  ghost predicate Holds(c: Config, f: seq<byte>, m: nat)
    requires 0 < c.q.g.sector && 0 < c.q.g.page
  {
    forall k: nat | IsNat(k, m) :: f == After(c, k)
  }

  lemma HoldsAfter(c: Config, f: seq<byte>, m: nat)
    requires Sized(c)
    ensures Holds(c, f, m) <==> f == After(c, m)
  {
    assert IsNat(m, m);
  }

  // ---------------------------------------------------------------- the links

  /** The image bytes in flight to the agent. */
  function Flow(ch: seq<ToAgent>): seq<byte> {
    if ch == [] then [] else (if ch[0].Chunk? then ch[0].data else []) + Flow(ch[1..])
  }

  ghost predicate AllChunks(ch: seq<ToAgent>) {
    forall i | 0 <= i < |ch| :: ch[i].Chunk? && ch[i].data != []
  }

  function Tally(ch: seq<ToHost>, m: ToHost -> bool): nat {
    if ch == [] then 0 else (if m(ch[0]) then 1 else 0) + Tally(ch[1..], m)
  }

  function IsOk(): ToHost -> bool { (m: ToHost) => m == Ack(ACK_OK) }
  function IsProgress(): ToHost -> bool { (m: ToHost) => m.Progress? }

  ghost predicate AllReady(ch: seq<ToHost>) {
    forall i | 0 <= i < |ch| :: ch[i].Ready?
  }

  lemma {:induction false} TallyReady(ch: seq<ToHost>)
    requires AllReady(ch)
    ensures Tally(ch, IsOk()) == 0 && Tally(ch, IsProgress()) == 0
  {
    if ch != [] {
      assert !IsOk()(ch[0]) && !IsProgress()(ch[0]);
      TallyReady(ch[1..]);
    }
  }

  lemma {:induction false} FlowAppend(xs: seq<ToAgent>, ys: seq<ToAgent>)
    ensures Flow(xs + ys) == Flow(xs) + Flow(ys)
  {
    if xs == [] {
      assert xs + ys == ys;
    } else {
      assert (xs + ys)[1..] == xs[1..] + ys;
      FlowAppend(xs[1..], ys);
    }
  }

  lemma FlowOne(x: ToAgent)
    ensures Flow([x]) == if x.Chunk? then x.data else []
  {
  }

  /** Losing a data packet makes the flow strictly shorter. */
  lemma FlowWithout(ch: seq<ToAgent>, i: nat)
    requires AllChunks(ch)
    ensures AllChunks(Without(ch, i))
    ensures if i < |ch| then |Flow(Without(ch, i))| < |Flow(ch)| else Without(ch, i) == ch
  {
    if i < |ch| {
      assert ch == ch[..i] + [ch[i]] + ch[i + 1..];
      FlowThrough(ch[..i], ch[i], ch[i + 1..]);
    }
  }

  lemma FlowThrough(xs: seq<ToAgent>, x: ToAgent, ys: seq<ToAgent>)
    requires x.Chunk?
    ensures |Flow(xs + [x] + ys)| == |Flow(xs + ys)| + |x.data|
  {
    FlowAppend(xs + [x], ys);
    FlowAppend(xs, [x]);
    FlowAppend(xs, ys);
    FlowOne(x);
  }

  lemma {:induction false} TallyAppend(xs: seq<ToHost>, ys: seq<ToHost>, m: ToHost -> bool)
    ensures Tally(xs + ys, m) == Tally(xs, m) + Tally(ys, m)
  {
    if xs == [] {
      assert xs + ys == ys;
    } else {
      assert (xs + ys)[1..] == xs[1..] + ys;
      TallyAppend(xs[1..], ys, m);
    }
  }

  lemma TallyWithout(ch: seq<ToHost>, i: nat, m: ToHost -> bool)
    ensures Tally(Without(ch, i), m) <= Tally(ch, m)
  {
    if i < |ch| {
      assert ch == ch[..i] + ([ch[i]] + ch[i + 1..]);
      TallyAppend(ch[..i], [ch[i]] + ch[i + 1..], m);
      TallyAppend([ch[i]], ch[i + 1..], m);
      TallyAppend(ch[..i], ch[i + 1..], m);
    }
  }

  // ---------------------------------------------------------------- the invariant

  ghost predicate HostOk(c: Config, h: H.Host)
    requires 0 < c.q.g.sector
  {
    && h.s <= Count(c)
    && (h.sent > 0 ==> h.s < Count(c) && BitSet(c.q.bitmap, h.s) && h.sent <= SectorBytes(c.q.g, |c.q.image|, h.s))
    && (h.pc.Start? || h.pc.AwaitAccept? ==> h.s == 0)
    && (h.pc.Start? || h.pc.AwaitAccept? || h.pc.SectorTop? || h.pc.AwaitFinal? ==> h.sent == 0)
    && (h.pc.Sending? ==> h.s < Count(c) && BitSet(c.q.bitmap, h.s))
    && (h.pc.AwaitProgress? ==> h.s < Count(c)
                                && (BitSet(c.q.bitmap, h.s) ==> h.sent == SectorBytes(c.q.g, |c.q.image|, h.s)))
    && (h.pc.AwaitFinal? ==> h.s == Count(c))
  }

  /** The pending buffer is never the one being filled, and holds the sector before the current one. */
  ghost predicate PipelineOk(c: Config, p: A.Buffers, a: nat)
    requires 0 < c.q.g.sector
  {
    && a <= Count(c)
    && (p.pending >= 0 ==>
          && p.pending != p.rx
          && 0 < a && BitSet(c.q.bitmap, a - 1)
          && p.pendingAddr == c.q.addr + (a - 1) * c.q.g.sector
          && p.ram[p.pending][..p.pendingBytes] == SectorData(c.q.g, c.q.image, a - 1))
  }

  /** Bytes of the current sector already in the receive buffer. */
  function Received(a: A.Agent): seq<byte> {
    if a.Receiving? && a.got <= A.BUFFER_SIZE then a.p.ram[a.p.rx][..a.got] else []
  }

  /** Bytes the host has put on the wire for sector `a`. */
  function SentOf(h: H.Host, a: nat): nat {
    if h.s == a then h.sent else 0
  }

  /** Either no byte of the sector was lost so far, or fewer bytes than were sent remain. */
  ghost predicate LinkOk(c: Config, st: Sys)
    requires !st.agent.Idle? && 0 < c.q.g.sector
  {
    var sent := SentOf(st.host, st.agent.s);
    var held := Received(st.agent) + Flow(st.toAgent);
    && AllChunks(st.toAgent)
    && |held| <= sent
    && (|held| == sent ==> held <= SectorData(c.q.g, c.q.image, st.agent.s))
  }

  /** The host never runs ahead of the agent, and the agent passed no data sector the host had not sent. */
  ghost predicate LockStep(c: Config, st: Sys)
    requires !st.agent.Idle? && 0 < c.q.g.sector
  {
    && st.host.s + Tally(st.toHost, IsProgress()) <= st.agent.s
    && forall i | st.host.s <= i < st.agent.s && BitSet(c.q.bitmap, i) ::
         i == st.host.s && st.host.sent == SectorBytes(c.q.g, |c.q.image|, i)
  }

  /** Sectors already final while the agent is at its current sector. */
  function FinalSectors(a: A.Agent): int
    requires !a.Idle?
  {
    if a.p.pending >= 0 then a.s - 1 else a.s
  }

  /** The agent's own state and the flash, while it works on the request. */
  ghost predicate WorkOk(c: Config, a: A.Agent, f: seq<byte>)
    requires 0 < c.q.g.sector && 0 < c.q.g.page
  {
    && !a.Idle?
    && a.job == A.Job(c.q.addr, |c.q.image|, c.q.bitmap)
    && PipelineOk(c, a.p, a.s)
    && (a.Receiving? ==>
          && a.s < Count(c) && BitSet(c.q.bitmap, a.s)
          && a.got < SectorBytes(c.q.g, |c.q.image|, a.s))
    && FinalSectors(a) >= 0
    && Holds(c, f, FinalSectors(a))
  }

  ghost predicate RunningOk(c: Config, st: Sys)
    requires 0 < c.q.g.sector && 0 < c.q.g.page
  {
    WorkOk(c, st.agent, st.flash) && LinkOk(c, st) && LockStep(c, st)
  }

  ghost predicate Accepted(c: Config) {
    0 < |c.q.image| && c.q.addr + |c.q.image| <= |c.flash0|
  }

  /** After an abort at most one sector, the one whose erase failed, is neither old nor new:
      `f` is `f0`, which holds the first `m` sectors, or differs from it in sector `m` only. */
  ghost predicate AbortedOk(c: Config, f: seq<byte>, m: nat, f0: seq<byte>, content: seq<byte>)
    requires 0 < c.q.g.sector && 0 < c.q.g.page
  {
    && m <= Count(c) && Holds(c, f0, m)
    && (f == f0
        || (var base := SectorBase(c.q.g, c.q.addr + m * c.q.g.sector);
            && m < Count(c) && |content| == c.q.g.sector && base + c.q.g.sector <= |f0|
            && f == Splice(f0, base, content)))
  }

  ghost predicate AbortedFlash(c: Config, f: seq<byte>)
    requires 0 < c.q.g.sector && 0 < c.q.g.page
  {
    exists m: nat, f0, content :: AbortedOk(c, f, m, f0, content)
  }

  ghost predicate IdleOk(c: Config, st: Sys)
    requires 0 < c.q.g.sector && 0 < c.q.g.page
  {
    && st.agent.Idle?
    && match st.phase
       case NotStarted =>
         && st.flash == c.flash0
         && (st.host.pc.Start? || st.host.pc.AwaitAccept? || st.host.pc.Raised?)
         && st.host.s == 0 && st.host.sent == 0
         && AllReady(st.toHost)
         && (st.toAgent == [] || (!st.host.pc.Start? && st.toAgent == [Stream(c.q.addr, |c.q.image|, c.q.crc, c.q.bitmap)]))
       case Running => false
       case Aborted => AllChunks(st.toAgent) && AbortedFlash(c, st.flash)
       case Finished => AllChunks(st.toAgent) && Holds(c, st.flash, Count(c))
  }

  /** An ACK_OK on its way to the host is the acceptance or, past that, the final one. */
  ghost predicate AcksOk(st: Sys) {
    && (!st.host.pc.Returned? && !st.host.pc.Raised? ==>
          Tally(st.toHost, IsOk()) <= (if st.host.pc.AwaitAccept? && !st.phase.NotStarted? then 1 else 0)
                                      + (if st.phase.Finished? then 1 else 0))
    && (st.host.pc.Start? ==> st.phase.NotStarted?)
    && (st.host.pc == H.Returned(true) ==> st.phase.Finished?)
  }

  ghost predicate Inv(c: Config, st: Sys)
    requires 0 < c.q.g.sector && 0 < c.q.g.page
  {
    && |st.flash| == |c.flash0|
    && HostOk(c, st.host) && AcksOk(st)
    && (st.phase.Running? || st.phase.Finished? ==> Accepted(c))
    && if st.phase.Running? then RunningOk(c, st) else IdleOk(c, st)
  }

  lemma InvInitial(c: Config)
    requires Sized(c)
    ensures Inv(c, Initial(c))
  {
  }

  // ---------------------------------------------------------------- events that only lose packets

  lemma InvLoseToHost(c: Config, st: Sys, j: nat)
    requires Sized(c) && Inv(c, st)
    ensures Inv(c, Step(c, st, LoseToHost(j)))
  {
    TallyWithout(st.toHost, j, IsOk());
    TallyWithout(st.toHost, j, IsProgress());
  }

  lemma InvLoseToAgent(c: Config, st: Sys, i: nat)
    requires Sized(c) && Inv(c, st)
    ensures Inv(c, Step(c, st, LoseToAgent(i)))
  {
    if !st.phase.NotStarted? {
      FlowWithout(st.toAgent, i);
    }
  }

  lemma InvAgentReady(c: Config, st: Sys)
    requires Sized(c) && Inv(c, st)
    ensures Inv(c, Step(c, st, AgentReady))
  {
    TallyAppend(st.toHost, [Ready], IsOk());
    TallyAppend(st.toHost, [Ready], IsProgress());
  }

  // ---------------------------------------------------------------- host events

  lemma InvHostTimeout(c: Config, st: Sys)
    requires Sized(c) && Inv(c, st)
    ensures Inv(c, Step(c, st, HostTimeout))
  {
  }

  lemma HostOkReceive(c: Config, h: H.Host, m: ToHost)
    requires Sized(c) && HostOk(c, h) && H.Waiting(h.pc)
    ensures HostOk(c, H.OnPacket(h, m))
  {
  }

  lemma AcksReceive(st: Sys)
    requires AcksOk(st) && H.Waiting(st.host.pc) && st.toHost != []
    ensures AcksOk(st.(host := H.OnPacket(st.host, st.toHost[0]), toHost := st.toHost[1..]))
  {
    assert IsOk()(st.toHost[0]) == (st.toHost[0] == Ack(ACK_OK));
  }

  /** A progress packet moves the host to the next sector; nothing else does. */
  lemma LockStepReceive(c: Config, st: Sys)
    requires Sized(c) && HostOk(c, st.host) && RunningOk(c, st) && H.Waiting(st.host.pc) && st.toHost != []
    ensures RunningOk(c, st.(host := H.OnPacket(st.host, st.toHost[0]), toHost := st.toHost[1..]))
  {
    assert IsProgress()(st.toHost[0]) == st.toHost[0].Progress?;
    var h := H.OnPacket(st.host, st.toHost[0]);
    if h.s == st.host.s {
      assert h.sent == st.host.sent;
    } else {
      assert h == H.Host(H.SectorTop, st.host.s + 1, 0) && h.s <= st.agent.s;
      assert SentOf(st.host, st.agent.s) == 0;
      assert Received(st.agent) + Flow(st.toAgent) == [];
    }
  }

  lemma IdleReceive(c: Config, st: Sys)
    requires Sized(c) && IdleOk(c, st) && H.Waiting(st.host.pc) && st.toHost != []
    ensures IdleOk(c, st.(host := H.OnPacket(st.host, st.toHost[0]), toHost := st.toHost[1..]))
  {
  }

  lemma InvHostReceive(c: Config, st: Sys)
    requires Sized(c) && Inv(c, st)
    ensures Inv(c, Step(c, st, HostReceive))
  {
    if H.Waiting(st.host.pc) && st.toHost != [] {
      HostOkReceive(c, st.host, st.toHost[0]);
      AcksReceive(st);
      if st.phase.Running? {
        LockStepReceive(c, st);
      } else {
        IdleReceive(c, st);
      }
    }
  }

  /** Moving on without sending. */
  lemma InvHostMoves(c: Config, st: Sys, h: H.Host)
    requires Sized(c) && Inv(c, st)
    requires h.s == st.host.s && h.sent == st.host.sent && HostOk(c, h)
    requires !st.host.pc.Start? && !st.host.pc.AwaitAccept? && !st.host.pc.Returned? && !st.host.pc.Raised?
    requires !h.pc.Start? && !h.pc.AwaitAccept? && !h.pc.Returned?
    ensures Inv(c, st.(host := h))
  {
  }

  lemma InvHostStarts(c: Config, st: Sys)
    requires Sized(c) && Inv(c, st) && st.host.pc.Start?
    ensures Inv(c, Step(c, st, HostAdvance))
  {
  }

  lemma QuietAdvance(c: Config, h: H.Host)
    requires Sized(c) && HostOk(c, h) && !h.pc.Start? && H.Advance(c.q, h).1 == []
    ensures var h' := H.Advance(c.q, h).0;
            && h'.s == h.s && h'.sent == h.sent && HostOk(c, h')
            && (h' == h || (h.pc.SectorTop? && (h'.pc.AwaitFinal? || h'.pc.Sending? || h'.pc.AwaitProgress?))
                || (h.pc.Sending? && (h'.pc.AwaitProgress? || h'.pc.Raised?)))
  {
    if h.pc.Sending? {
      SectorFacts(c.q.g, |c.q.image|, h.s);
    }
  }

  lemma InvHostAdvance(c: Config, st: Sys)
    requires Sized(c) && Inv(c, st)
    ensures Inv(c, Step(c, st, HostAdvance))
  {
    if st.host.pc.Start? {
      InvHostStarts(c, st);
    } else if H.Advance(c.q, st.host).1 != [] {
      assert st.host.pc.Sending?;
      InvHostSends(c, st);
    } else {
      QuietAdvance(c, st.host);
      InvHostQuiet(c, st, H.Advance(c.q, st.host).0);
      assert Step(c, st, HostAdvance) == st.(host := H.Advance(c.q, st.host).0);
    }
  }

  lemma InvHostQuiet(c: Config, st: Sys, h: H.Host)
    requires Sized(c) && Inv(c, st)
    requires h.s == st.host.s && h.sent == st.host.sent && HostOk(c, h)
    requires h == st.host || (st.host.pc.SectorTop? && (h.pc.AwaitFinal? || h.pc.Sending? || h.pc.AwaitProgress?))
             || (st.host.pc.Sending? && (h.pc.AwaitProgress? || h.pc.Raised?))
    ensures Inv(c, st.(host := h))
  {
    if h == st.host {
      assert st.(host := h) == st;
    } else {
      InvHostMoves(c, st, h);
    }
  }

  /** The next packet carries the next bytes of the sector. */
  lemma NextChunk(c: Config, h: H.Host)
    requires Sized(c) && HostOk(c, h) && h.pc.Sending? && H.Advance(c.q, h).1 != []
    ensures var (h', out) := H.Advance(c.q, h);
            && HostOk(c, h') && h' == h.(sent := h'.sent) && h.sent < h'.sent
            && |SectorData(c.q.g, c.q.image, h.s)| == SectorBytes(c.q.g, |c.q.image|, h.s)
            && out == [Chunk(H.SeqNo(c.q, h), SectorData(c.q.g, c.q.image, h.s)[h.sent..h'.sent])]
  {
    var h' := H.Advance(c.q, h).0;
    SectorFacts(c.q.g, |c.q.image|, h.s);
    SectorSlice(c.q.g, c.q.image, h.s, h.sent, h'.sent);
  }

  lemma LinkSends(c: Config, st: Sys, h': H.Host, d: seq<byte>, k: nat)
    requires Sized(c) && !st.agent.Idle? && LinkOk(c, st)
    requires st.host.s == st.agent.s && d == SectorData(c.q.g, c.q.image, st.host.s)
    requires h'.s == st.host.s && st.host.sent < h'.sent <= |d|
    ensures LinkOk(c, st.(host := h', toAgent := st.toAgent + [Chunk(k, d[st.host.sent..h'.sent])]))
  {
    var m := Chunk(k, d[st.host.sent..h'.sent]);
    FlowAppend(st.toAgent, [m]);
    FlowOne(m);
    Regrouped(Received(st.agent), Flow(st.toAgent), m.data);
    HeldGrows(Received(st.agent) + Flow(st.toAgent), d, st.host.sent, h'.sent);
  }

  lemma Regrouped(a: seq<byte>, b: seq<byte>, c: seq<byte>)
    ensures a + (b + c) == a + b + c
  {
  }

  /** What is held of a sector `d`, and the bytes sent next. */
  lemma HeldGrows(held: seq<byte>, d: seq<byte>, sent: nat, to: nat)
    requires sent <= to <= |d| && |held| <= sent && (|held| == sent ==> held <= d)
    ensures |held + d[sent..to]| <= to && (|held + d[sent..to]| == to ==> held + d[sent..to] <= d)
  {
  }

  lemma InvHostSends(c: Config, st: Sys)
    requires Sized(c) && Inv(c, st) && st.host.pc.Sending? && H.Advance(c.q, st.host).1 != []
    ensures Inv(c, Step(c, st, HostAdvance))
  {
    var (h', out) := H.Advance(c.q, st.host);
    NextChunk(c, st.host);
    if st.phase.Running? {
      assert st.host.s == st.agent.s;
      LinkSends(c, st, h', SectorData(c.q.g, c.q.image, st.host.s), out[0].seqNo);
    }
  }

  // ---------------------------------------------------------------- agent events

  /** What the agent's packets add to the link. */
  lemma TallyOut(ch: seq<ToHost>, out: seq<ToHost>)
    ensures Tally(ch + out, IsOk()) == Tally(ch, IsOk()) + Tally(out, IsOk())
    ensures Tally(ch + out, IsProgress()) == Tally(ch, IsProgress()) + Tally(out, IsProgress())
  {
    TallyAppend(ch, out, IsOk());
    TallyAppend(ch, out, IsProgress());
  }

  lemma TallyOne(m: ToHost)
    ensures Tally([m], IsOk()) == (if m == Ack(ACK_OK) then 1 else 0)
    ensures Tally([m], IsProgress()) == (if m.Progress? then 1 else 0)
  {
    assert [m][1..] == [];
    assert IsOk()(m) == (m == Ack(ACK_OK)) && IsProgress()(m) == m.Progress?;
  }

  /** An agent step that ends the job without ACK_OK. */
  lemma InvAborts(c: Config, st: Sys, rest: seq<ToAgent>, f: seq<byte>, out: seq<ToHost>)
    requires Sized(c) && Inv(c, st) && !st.phase.Finished?
    requires AllChunks(rest) && |f| == |c.flash0| && AbortedFlash(c, f)
    requires Tally(out, IsOk()) == 0
    requires !st.host.pc.Start? && out != [Ack(ACK_OK)]
    ensures Inv(c, AgentDid(st, rest, A.Outcome(A.Idle, f, out)))
  {
    TallyOut(st.toHost, out);
    if st.phase.NotStarted? {
      TallyReady(st.toHost);
    }
  }

  lemma HoldsIsAborted(c: Config, f: seq<byte>, m: nat)
    requires Sized(c) && m <= Count(c) && Holds(c, f, m)
    ensures AbortedFlash(c, f)
  {
    assert AbortedOk(c, f, m, f, []);
  }

  lemma EraseFails(c: Config, f: seq<byte>, m: nat, r: EraseResult)
    requires Sized(c) && m < Count(c) && Holds(c, f, m)
    ensures AbortedFlash(c, A.ChipErase(c.q.g, f, c.q.addr + m * c.q.g.sector, r))
  {
    var g := c.q.g;
    var content := if r.Failed? && |r.content| == g.sector then r.content else Fill(g.sector, 0xFF);
    assert AbortedOk(c, A.ChipErase(g, f, c.q.addr + m * g.sector, r), m, f, content);
  }

  lemma AfterSkip(c: Config, m: nat, at: nat)
    requires Sized(c) && !BitSet(c.q.bitmap, m) && at == c.q.addr + m * c.q.g.sector
    ensures After(c, m + 1) == A.ChipErase(c.q.g, After(c, m), at, Clean)
  {
    AfterStep(c, m, After(c, m));
  }

  lemma HoldsNext(c: Config, f: seq<byte>, m: nat, f': seq<byte>)
    requires Sized(c) && Holds(c, f, m) && f' == WithSector(c, f, m)
    ensures Holds(c, f', m + 1)
  {
    HoldsAfter(c, f, m);
    AfterStep(c, m, f);
    HoldsAfter(c, f', m + 1);
  }

  lemma EraseSucceeds(c: Config, f: seq<byte>, m: nat, f': seq<byte>)
    requires Sized(c) && Holds(c, f, m) && !BitSet(c.q.bitmap, m)
    requires f' == A.ChipErase(c.q.g, f, c.q.addr + m * c.q.g.sector, Clean)
    ensures Holds(c, f', m + 1)
  {
    HoldsNext(c, f, m, f');
  }

  lemma AfterData(c: Config, m: nat, at: nat, d: seq<byte>)
    requires Sized(c) && BitSet(c.q.bitmap, m)
    requires at == c.q.addr + m * c.q.g.sector && d == SectorData(c.q.g, c.q.image, m)
    ensures After(c, m + 1) == A.ChipProgram(c.q.g, After(c, m), at, d)
  {
    AfterStep(c, m, After(c, m));
  }

  lemma ProgramSucceeds(c: Config, f: seq<byte>, m: nat, at: nat, d: seq<byte>)
    requires Sized(c) && Holds(c, f, m) && BitSet(c.q.bitmap, m)
    requires at == c.q.addr + m * c.q.g.sector && d == SectorData(c.q.g, c.q.image, m)
    ensures Holds(c, A.ChipProgram(c.q.g, f, at, d), m + 1)
  {
    HoldsNext(c, f, m, A.ChipProgram(c.q.g, f, at, d));
  }

  /** Flushing brings the flash up to the current sector, or fails on the one before it. */
  lemma FlushLemma(c: Config, p: A.Buffers, a: nat, f: seq<byte>, r: EraseResult)
    requires Sized(c) && PipelineOk(c, p, a)
    requires Holds(c, f, if p.pending >= 0 then a - 1 else a)
    ensures !A.FlushFails(p, r) ==> Holds(c, A.Flush(c.q.g, f, p, r), a)
    ensures A.FlushFails(p, r) ==> AbortedFlash(c, A.Flush(c.q.g, f, p, r))
  {
    if p.pending >= 0 {
      FlushPending(c, p, a - 1, f, r);
    }
  }

  lemma FlushPending(c: Config, p: A.Buffers, s: nat, f: seq<byte>, r: EraseResult)
    requires Sized(c) && p.pending >= 0 && s < Count(c) && BitSet(c.q.bitmap, s) && Holds(c, f, s)
    requires p.pendingAddr == c.q.addr + s * c.q.g.sector
    requires p.ram[p.pending][..p.pendingBytes] == SectorData(c.q.g, c.q.image, s)
    ensures if r.Failed? then AbortedFlash(c, A.Flush(c.q.g, f, p, r)) else Holds(c, A.Flush(c.q.g, f, p, r), s + 1)
  {
    if r.Failed? {
      EraseFails(c, f, s, r);
    } else {
      ProgramSucceeds(c, f, s, p.pendingAddr, p.ram[p.pending][..p.pendingBytes]);
    }
  }

  lemma InvAgentTimeout(c: Config, st: Sys)
    requires Sized(c) && Inv(c, st)
    ensures Inv(c, Step(c, st, AgentTimeout))
  {
    if st.agent.Receiving? {
      HoldsIsAborted(c, st.flash, FinalSectors(st.agent));
      TallyOne(Ack(ACK_FLASH_ERROR));
      InvAborts(c, st, st.toAgent, st.flash, [Ack(ACK_FLASH_ERROR)]);
    }
  }

  lemma HoldsNone(c: Config)
    requires Sized(c)
    ensures Holds(c, c.flash0, 0)
  {
    HoldsAfter(c, c.flash0, 0);
  }

  lemma InvAccepts(c: Config, st: Sys)
    requires Sized(c) && Inv(c, st) && st.phase.NotStarted? && Accepted(c) && !st.host.pc.Start?
    ensures Inv(c, AgentDid(st, [], A.Outcome(A.AtSector(A.Job(c.q.addr, |c.q.image|, c.q.bitmap), 0,
                                                         A.Pipeline(c.ram0, 0, -1, 0, 0)),
                                              st.flash, [Ack(ACK_OK)])))
  {
    HoldsNone(c);
    TallyReady(st.toHost);
    TallyOut(st.toHost, [Ack(ACK_OK)]);
    TallyOne(Ack(ACK_OK));
  }

  lemma InvRefuses(c: Config, st: Sys, m: ToHost)
    requires Sized(c) && Inv(c, st) && st.phase.NotStarted? && !st.host.pc.Start?
    requires m == Ack(ACK_FLASH_ERROR) || m == Ack(ACK_CRC_ERROR)
    ensures Inv(c, AgentDid(st, [], A.Outcome(A.Idle, st.flash, [m])))
  {
    HoldsNone(c);
    HoldsIsAborted(c, c.flash0, 0);
    TallyOne(m);
    InvAborts(c, st, [], st.flash, [m]);
  }

  lemma InvLeftover(c: Config, st: Sys)
    requires Sized(c) && Inv(c, st) && (st.phase.Aborted? || st.phase.Finished?) && st.toAgent != []
    ensures Inv(c, AgentDid(st, st.toAgent[1..], A.Outcome(A.Idle, st.flash, [Ack(ACK_CRC_ERROR)])))
  {
    TallyOne(Ack(ACK_CRC_ERROR));
    TallyOut(st.toHost, [Ack(ACK_CRC_ERROR)]);
  }

  lemma InvAgentIdle(c: Config, st: Sys)
    requires Sized(c) && Inv(c, st) && st.agent.Idle? && st.toAgent != []
    requires c.q.addr + |c.q.image| < A.WORD
    ensures Inv(c, AgentDid(st, st.toAgent[1..], A.OnIdle(c.q.g, st.flash, c.ram0, st.toAgent[0])))
  {
    var o := A.OnIdle(c.q.g, st.flash, c.ram0, st.toAgent[0]);
    if !st.phase.NotStarted? {
      InvLeftover(c, st);
    } else {
      assert st.toAgent[1..] == [];
      OnRequest(c, st.flash);
      if o.agent.Idle? {
        InvRefuses(c, st, o.out[0]);
      } else {
        InvAccepts(c, st);
      }
    }
  }

  /** What the main loop makes of the request. */
  lemma OnRequest(c: Config, f: seq<byte>)
    requires Sized(c) && c.q.addr + |c.q.image| < A.WORD
    ensures A.OnIdle(c.q.g, f, c.ram0, Request(c))
            == if |c.q.image| == 0 || c.q.addr + |c.q.image| > |f| then A.Outcome(A.Idle, f, [Ack(ACK_FLASH_ERROR)])
               else if |c.q.bitmap| < (Count(c) + 7) / 8 then A.Outcome(A.Idle, f, [Ack(ACK_CRC_ERROR)])
               else A.Outcome(A.AtSector(A.Job(c.q.addr, |c.q.image|, c.q.bitmap), 0, A.Pipeline(c.ram0, 0, -1, 0, 0)),
                              f, [Ack(ACK_OK)])
  {
  }

  // ---------------------------------------------------------------- the sector loop

  lemma InvBeginsReceiving(c: Config, st: Sys)
    requires Sized(c) && Inv(c, st) && st.agent.AtSector?
    requires st.agent.s < Count(c) && BitSet(c.q.bitmap, st.agent.s)
    ensures Inv(c, AgentDid(st, st.toAgent, A.Outcome(A.Receiving(st.agent.job, st.agent.s, st.agent.p, 0), st.flash, [])))
  {
    SectorFacts(c.q.g, |c.q.image|, st.agent.s);
    assert st.toHost + [] == st.toHost;
    assert Received(A.Receiving(st.agent.job, st.agent.s, st.agent.p, 0)) == [];
  }

  lemma InvFinishes(c: Config, st: Sys, f: seq<byte>)
    requires Sized(c) && Inv(c, st) && st.agent.AtSector? && |f| == |st.flash| && Holds(c, f, Count(c))
    ensures Inv(c, AgentDid(st, st.toAgent, A.Outcome(A.Idle, f, [Ack(ACK_OK)])))
  {
    TallyOut(st.toHost, [Ack(ACK_OK)]);
    TallyOne(Ack(ACK_OK));
  }

  /** Moving the agent to the next sector keeps the lock step. */
  lemma NextLockStep(c: Config, st: Sys, st': Sys, m: ToHost)
    requires Sized(c) && !st.agent.Idle? && LockStep(c, st)
    requires BitSet(c.q.bitmap, st.agent.s) ==>
               st.host.s == st.agent.s && st.host.sent == SectorBytes(c.q.g, |c.q.image|, st.agent.s)
    requires st'.agent.AtSector? && st'.agent.s == st.agent.s + 1
    requires st'.host == st.host && st'.toHost == st.toHost + [m] && m.Progress?
    ensures LockStep(c, st')
  {
    TallyOut(st.toHost, [m]);
    TallyOne(m);
  }

  /** A packet from the agent that is not ACK_OK leaves the count of ACK_OKs. */
  lemma AcksSays(st: Sys, st': Sys, m: ToHost)
    requires AcksOk(st) && m.Progress? && st'.host == st.host && st'.toHost == st.toHost + [m]
    requires st'.phase == st.phase
    ensures AcksOk(st')
  {
    TallyOut(st.toHost, [m]);
    TallyOne(m);
  }

  lemma LinkEmpty(c: Config, st: Sys)
    requires Sized(c) && st.agent.AtSector? && st.toAgent == []
    ensures LinkOk(c, st)
  {
    assert Received(st.agent) == [] && Flow(st.toAgent) == [];
    assert [] + [] <= SectorData(c.q.g, c.q.image, st.agent.s);
  }

  lemma InvNextSector(c: Config, st: Sys, st': Sys, m: ToHost)
    requires Sized(c) && Inv(c, st) && !st.agent.Idle? && m.Progress?
    requires BitSet(c.q.bitmap, st.agent.s) ==>
               st.host.s == st.agent.s && st.host.sent == SectorBytes(c.q.g, |c.q.image|, st.agent.s)
    requires st'.agent.AtSector? && st'.agent.s == st.agent.s + 1 && st'.toAgent == []
    requires st'.host == st.host && st'.toHost == st.toHost + [m] && st'.phase == Running
    requires |st'.flash| == |st.flash| && WorkOk(c, st'.agent, st'.flash)
    ensures Inv(c, st')
  {
    NextLockStep(c, st, st', m);
    AcksSays(st, st', m);
    LinkEmpty(c, st');
  }

  lemma NothingInFlight(c: Config, st: Sys)
    requires Sized(c) && !st.agent.Idle? && LinkOk(c, st) && SentOf(st.host, st.agent.s) == 0
    ensures st.toAgent == []
  {
  }

  lemma InvSkips(c: Config, st: Sys, o: A.Outcome)
    requires Sized(c) && Inv(c, st) && st.agent.AtSector?
    requires st.agent.s < Count(c) && !BitSet(c.q.bitmap, st.agent.s)
    requires |o.flash| == |st.flash| && Holds(c, o.flash, st.agent.s + 1)
    requires o == A.Outcome(A.AtSector(st.agent.job, st.agent.s + 1, st.agent.p.(pending := -1)),
                            o.flash, [A.ProgressFor(c.q.g, st.agent.job, st.agent.s)])
    ensures Inv(c, AgentDid(st, st.toAgent, o))
  {
    NothingInFlight(c, st);
    InvNextSector(c, st, AgentDid(st, st.toAgent, o), o.out[0]);
  }

  /** What a turn of the loop that does not wait for data can come to. */
  ghost predicate TurnOk(c: Config, a: A.Agent, r1: EraseResult, r2: EraseResult, o: A.Outcome)
    requires Sized(c) && a.AtSector?
  {
    if A.FlushFails(a.p, r1) || (a.s < Count(c) && r2.Failed?) then
      o == A.Outcome(A.Idle, o.flash, [Ack(ACK_FLASH_ERROR)]) && AbortedFlash(c, o.flash)
    else if a.s >= Count(c) then
      o == A.Outcome(A.Idle, o.flash, [Ack(ACK_OK)]) && a.s == Count(c) && Holds(c, o.flash, Count(c))
    else
      && Holds(c, o.flash, a.s + 1)
      && o == A.Outcome(A.AtSector(a.job, a.s + 1, a.p.(pending := -1)), o.flash, [A.ProgressFor(c.q.g, a.job, a.s)])
  }

  lemma TurnOutcome(c: Config, a: A.Agent, f: seq<byte>, r1: EraseResult, r2: EraseResult)
    requires Sized(c) && WorkOk(c, a, f) && a.AtSector?
    requires !(a.s < Count(c) && BitSet(c.q.bitmap, a.s))
    ensures var o := A.OnSector(c.q.g, f, a, r1, r2);
            |o.flash| == |f| && TurnOk(c, a, r1, r2, o)
  {
    FlushLemma(c, a.p, a.s, f, r1);
    if !A.FlushFails(a.p, r1) && a.s < Count(c) {
      SkipOutcome(c, a, A.Flush(c.q.g, f, a.p, r1), r1, r2);
    }
  }

  lemma SkipOutcome(c: Config, a: A.Agent, f1: seq<byte>, r1: EraseResult, r2: EraseResult)
    requires Sized(c) && a.AtSector? && a.s < Count(c) && !BitSet(c.q.bitmap, a.s) && Holds(c, f1, a.s)
    requires a.job == A.Job(c.q.addr, |c.q.image|, c.q.bitmap) && !A.FlushFails(a.p, r1)
    ensures var o := A.OnSkipped(c.q.g, f1, a, r2);
            |o.flash| == |f1| && TurnOk(c, a, r1, r2, o)
  {
    if r2.Failed? {
      EraseFails(c, f1, a.s, r2);
    } else {
      EraseSucceeds(c, f1, a.s, A.ChipErase(c.q.g, f1, c.q.addr + a.s * c.q.g.sector, Clean));
    }
  }

  lemma InvTurnOk(c: Config, st: Sys, r1: EraseResult, r2: EraseResult, o: A.Outcome)
    requires Sized(c) && Inv(c, st) && st.agent.AtSector? && |o.flash| == |st.flash|
    requires !(st.agent.s < Count(c) && BitSet(c.q.bitmap, st.agent.s))
    requires TurnOk(c, st.agent, r1, r2, o)
    ensures Inv(c, AgentDid(st, st.toAgent, o))
  {
    if o.agent.AtSector? {
      InvSkips(c, st, o);
    } else if o.out == [Ack(ACK_OK)] {
      InvFinishes(c, st, o.flash);
    } else {
      TallyOne(Ack(ACK_FLASH_ERROR));
      InvAborts(c, st, st.toAgent, o.flash, o.out);
    }
  }

  lemma InvTurn(c: Config, st: Sys, r1: EraseResult, r2: EraseResult)
    requires Sized(c) && Inv(c, st) && st.agent.AtSector?
    requires !(st.agent.s < Count(c) && BitSet(c.q.bitmap, st.agent.s))
    ensures Inv(c, AgentDid(st, st.toAgent, A.OnSector(c.q.g, st.flash, st.agent, r1, r2)))
  {
    TurnOutcome(c, st.agent, st.flash, r1, r2);
    InvTurnOk(c, st, r1, r2, A.OnSector(c.q.g, st.flash, st.agent, r1, r2));
  }

  lemma InvAgentWork(c: Config, st: Sys, r1: EraseResult, r2: EraseResult)
    requires Sized(c) && Inv(c, st)
    ensures Inv(c, Step(c, st, AgentWork(r1, r2)))
  {
    if st.agent.AtSector? {
      if st.agent.s < Count(c) && BitSet(c.q.bitmap, st.agent.s) {
        InvBeginsReceiving(c, st);
      } else {
        InvTurn(c, st, r1, r2);
      }
    }
  }

  // ---------------------------------------------------------------- receiving a sector

  /** Before the copy: the packet at the head fits, and the buffer holds what precedes it. */
  lemma HeadFits(c: Config, st: Sys)
    requires Sized(c) && c.q.g.sector <= A.BUFFER_SIZE && HostOk(c, st.host) && RunningOk(c, st)
    requires st.agent.Receiving? && st.toAgent != []
    ensures st.toAgent[0].Chunk? && st.toAgent[0].data != []
    ensures st.host.s == st.agent.s
    ensures st.agent.got + |st.toAgent[0].data| <= SentOf(st.host, st.agent.s) <= SectorBytes(c.q.g, |c.q.image|, st.agent.s)
    ensures A.Taken(c.q.g, st.agent, st.toAgent[0].data) == |st.toAgent[0].data|
  {
    SectorFacts(c.q.g, |c.q.image|, st.agent.s);
    assert |Received(st.agent)| == st.agent.got;
    assert Flow(st.toAgent) == st.toAgent[0].data + Flow(st.toAgent[1..]);
  }

  /** The copy moves the head packet's bytes from the link into the buffer. */
  lemma StoreMoves(p: A.Buffers, got: nat, data: seq<byte>)
    requires got + |data| <= A.BUFFER_SIZE
    ensures var p' := A.Store(p, got, data);
            && p'.ram[p'.rx][..got + |data|] == p.ram[p.rx][..got] + data
            && p'.rx == p.rx && p'.pending == p.pending && p'.pendingAddr == p.pendingAddr
            && p'.pendingBytes == p.pendingBytes
            && p'.ram[1 - p.rx] == p.ram[1 - p.rx]
  {
  }

  lemma StoreKeepsPipeline(c: Config, p: A.Buffers, a: nat, got: nat, data: seq<byte>)
    requires Sized(c) && PipelineOk(c, p, a) && got + |data| <= A.BUFFER_SIZE
    ensures PipelineOk(c, A.Store(p, got, data), a)
  {
    StoreMoves(p, got, data);
  }

  lemma LinkReceives(c: Config, st: Sys, st': Sys, data: seq<byte>)
    requires Sized(c) && st.agent.Receiving? && LinkOk(c, st) && st.toAgent != []
    requires st.toAgent[0].Chunk? && data == st.toAgent[0].data && st.agent.got + |data| <= A.BUFFER_SIZE
    requires st'.agent == A.Receiving(st.agent.job, st.agent.s, A.Store(st.agent.p, st.agent.got, data), st.agent.got + |data|)
    requires st'.host == st.host && st'.toAgent == st.toAgent[1..]
    ensures LinkOk(c, st')
  {
    StoreMoves(st.agent.p, st.agent.got, data);
    assert Received(st'.agent) == Received(st.agent) + data;
    assert Received(st'.agent) + Flow(st.toAgent[1..]) == Received(st.agent) + Flow(st.toAgent);
  }

  /** A packet that does not complete the sector. */
  lemma InvReceivesMore(c: Config, st: Sys, data: seq<byte>)
    requires Sized(c) && c.q.g.sector <= A.BUFFER_SIZE && Inv(c, st) && st.agent.Receiving? && st.toAgent != []
    requires st.toAgent[0].Chunk? && data == st.toAgent[0].data
    requires st.agent.got + |data| < SectorBytes(c.q.g, |c.q.image|, st.agent.s)
    ensures var a := A.Receiving(st.agent.job, st.agent.s, A.Store(st.agent.p, st.agent.got, data), st.agent.got + |data|);
            Inv(c, AgentDid(st, st.toAgent[1..], A.Outcome(a, st.flash, [])))
  {
    var a := A.Receiving(st.agent.job, st.agent.s, A.Store(st.agent.p, st.agent.got, data), st.agent.got + |data|);
    var st' := AgentDid(st, st.toAgent[1..], A.Outcome(a, st.flash, []));
    StoreKeepsPipeline(c, st.agent.p, st.agent.s, st.agent.got, data);
    assert WorkOk(c, a, st.flash);
    LinkReceives(c, st, st', data);
    assert st'.toHost == st.toHost;
  }

  /** Once the buffer is full, nothing of the sector was lost and the link is empty. */
  lemma SectorComplete(c: Config, st: Sys, data: seq<byte>)
    requires Sized(c) && c.q.g.sector <= A.BUFFER_SIZE && HostOk(c, st.host) && RunningOk(c, st)
    requires st.agent.Receiving? && st.toAgent != []
    requires st.toAgent[0].Chunk? && data == st.toAgent[0].data
    requires st.agent.got + |data| >= SectorBytes(c.q.g, |c.q.image|, st.agent.s)
    ensures st.agent.got + |data| == SectorBytes(c.q.g, |c.q.image|, st.agent.s) == st.host.sent <= A.BUFFER_SIZE
    ensures st.host.s == st.agent.s && st.toAgent[1..] == []
    ensures Received(st.agent) + data == SectorData(c.q.g, c.q.image, st.agent.s)
  {
    var rest := st.toAgent[1..];
    HeadFits(c, st);
    SectorFacts(c.q.g, |c.q.image|, st.agent.s);
    SectorDataLength(c.q.g, c.q.image, st.agent.s);
    assert Flow(st.toAgent) == data + Flow(rest);
    assert |Flow(rest)| == 0;
    FlowEmpty(rest);
    assert Received(st.agent) + Flow(st.toAgent) == Received(st.agent) + data;
  }

  lemma FlowEmpty(ch: seq<ToAgent>)
    requires AllChunks(ch) && |Flow(ch)| == 0
    ensures ch == []
  {
  }

  /** The swapped pipeline: the buffer just filled becomes the pending one. */
  lemma SwapOk(c: Config, job: A.Job, s: nat, p: A.Buffers, f: seq<byte>)
    requires Sized(c) && c.q.g.sector <= A.BUFFER_SIZE && s < Count(c) && BitSet(c.q.bitmap, s)
    requires job == A.Job(c.q.addr, |c.q.image|, c.q.bitmap) && Holds(c, f, s)
    requires var bytes := SectorBytes(c.q.g, |c.q.image|, s);
             0 <= bytes <= A.BUFFER_SIZE && p.ram[p.rx][..bytes] == SectorData(c.q.g, c.q.image, s)
    ensures var bytes := SectorBytes(c.q.g, |c.q.image|, s);
            WorkOk(c, A.AtSector(job, s + 1, A.Pipeline(p.ram, 1 - p.rx, p.rx, job.addr + s * c.q.g.sector, bytes)), f)
  {
  }

  /** Reporting a complete sector, flushing the previous one and swapping the buffers. */
  lemma InvSectorReceived(c: Config, st: Sys, p: A.Buffers, r: EraseResult)
    requires Sized(c) && c.q.g.sector <= A.BUFFER_SIZE && Inv(c, st) && st.agent.Receiving?
    requires PipelineOk(c, p, st.agent.s) && p.pending == st.agent.p.pending
    requires st.host.s == st.agent.s && st.host.sent == SectorBytes(c.q.g, |c.q.image|, st.agent.s) <= A.BUFFER_SIZE
    requires p.ram[p.rx][..st.host.sent] == SectorData(c.q.g, c.q.image, st.agent.s)
    ensures Inv(c, AgentDid(st, [], A.SectorReceived(c.q.g, st.flash, st.agent.job, st.agent.s, p, r)))
  {
    FlushLemma(c, p, st.agent.s, st.flash, r);
    if A.FlushFails(p, r) {
      InvFlushFails(c, st, p, r);
    } else {
      InvSwaps(c, st, p, r, A.Flush(c.q.g, st.flash, p, r));
    }
  }

  lemma SwapOutcome(c: Config, st: Sys, p: A.Buffers, r: EraseResult, f: seq<byte>)
    requires Sized(c) && c.q.g.sector <= A.BUFFER_SIZE && Inv(c, st) && st.agent.Receiving?
    requires !A.FlushFails(p, r) && f == A.Flush(c.q.g, st.flash, p, r) && Holds(c, f, st.agent.s)
    requires st.host.s == st.agent.s && st.host.sent == SectorBytes(c.q.g, |c.q.image|, st.agent.s) <= A.BUFFER_SIZE
    requires p.ram[p.rx][..st.host.sent] == SectorData(c.q.g, c.q.image, st.agent.s)
    ensures var o := A.SectorReceived(c.q.g, st.flash, st.agent.job, st.agent.s, p, r);
            && o.agent.AtSector? && o.agent.s == st.agent.s + 1 && |o.out| == 1 && o.out[0].Progress?
            && |o.flash| == |st.flash| && WorkOk(c, o.agent, o.flash)
  {
    SwapOk(c, st.agent.job, st.agent.s, p, f);
  }

  lemma InvSwaps(c: Config, st: Sys, p: A.Buffers, r: EraseResult, f: seq<byte>)
    requires Sized(c) && c.q.g.sector <= A.BUFFER_SIZE && Inv(c, st) && st.agent.Receiving?
    requires !A.FlushFails(p, r) && f == A.Flush(c.q.g, st.flash, p, r) && Holds(c, f, st.agent.s)
    requires st.host.s == st.agent.s && st.host.sent == SectorBytes(c.q.g, |c.q.image|, st.agent.s) <= A.BUFFER_SIZE
    requires p.ram[p.rx][..st.host.sent] == SectorData(c.q.g, c.q.image, st.agent.s)
    ensures Inv(c, AgentDid(st, [], A.SectorReceived(c.q.g, st.flash, st.agent.job, st.agent.s, p, r)))
  {
    var o := A.SectorReceived(c.q.g, st.flash, st.agent.job, st.agent.s, p, r);
    SwapOutcome(c, st, p, r, f);
    InvNextSector(c, st, AgentDid(st, [], o), o.out[0]);
  }

  lemma InvFlushFails(c: Config, st: Sys, p: A.Buffers, r: EraseResult)
    requires Sized(c) && Inv(c, st) && st.agent.Receiving? && A.FlushFails(p, r)
    requires AbortedFlash(c, A.Flush(c.q.g, st.flash, p, r))
    ensures Inv(c, AgentDid(st, [], A.SectorReceived(c.q.g, st.flash, st.agent.job, st.agent.s, p, r)))
  {
    var m := A.ProgressFor(c.q.g, st.agent.job, st.agent.s);
    TallyOne(m);
    TallyOne(Ack(ACK_FLASH_ERROR));
    TallyOut([m], [Ack(ACK_FLASH_ERROR)]);
    assert [m] + [Ack(ACK_FLASH_ERROR)] == [m, Ack(ACK_FLASH_ERROR)];
    InvAborts(c, st, [], A.Flush(c.q.g, st.flash, p, r), [m, Ack(ACK_FLASH_ERROR)]);
  }

  lemma InvReceivesLast(c: Config, st: Sys, data: seq<byte>, r: EraseResult)
    requires Sized(c) && c.q.g.sector <= A.BUFFER_SIZE && Inv(c, st) && st.agent.Receiving? && st.toAgent != []
    requires st.toAgent[0].Chunk? && data == st.toAgent[0].data
    requires SectorBytes(c.q.g, |c.q.image|, st.agent.s) <= st.agent.got + |data| <= A.BUFFER_SIZE
    ensures var p := A.Store(st.agent.p, st.agent.got, data);
            Inv(c, AgentDid(st, st.toAgent[1..], A.SectorReceived(c.q.g, st.flash, st.agent.job, st.agent.s, p, r)))
  {
    SectorComplete(c, st, data);
    StoreMoves(st.agent.p, st.agent.got, data);
    StoreKeepsPipeline(c, st.agent.p, st.agent.s, st.agent.got, data);
    InvSectorReceived(c, st, A.Store(st.agent.p, st.agent.got, data), r);
  }

  /** A chunk that fits is stored whole. */
  lemma OnReceiveIs(g: Geometry, f: seq<byte>, a: A.Agent, m: ToAgent, r: EraseResult)
    requires 0 < g.sector && 0 < g.page && a.Receiving? && m.Chunk? && m.data != []
    requires A.Taken(g, a, m.data) == |m.data| && a.got + |m.data| <= A.BUFFER_SIZE
    ensures var p, n := A.Store(a.p, a.got, m.data), a.got + |m.data|;
            A.OnReceive(g, f, a, Some(m), r)
            == if n < SectorBytes(g, a.job.size, a.s) then A.Outcome(A.Receiving(a.job, a.s, p, n), f, [])
               else A.SectorReceived(g, f, a.job, a.s, p, r)
  {
    assert m.data[..|m.data|] == m.data;
  }

  /** What becomes of the packet at the head. */
  lemma HeadOutcome(c: Config, st: Sys, r: EraseResult)
    requires Sized(c) && c.q.g.sector <= A.BUFFER_SIZE && HostOk(c, st.host) && RunningOk(c, st)
    requires st.agent.Receiving? && st.toAgent != []
    ensures st.toAgent[0].Chunk? && st.agent.got + |st.toAgent[0].data| <= A.BUFFER_SIZE
    ensures var data := st.toAgent[0].data;
            var p, n := A.Store(st.agent.p, st.agent.got, data), st.agent.got + |data|;
            A.OnReceive(c.q.g, st.flash, st.agent, Some(st.toAgent[0]), r)
            == if n < SectorBytes(c.q.g, |c.q.image|, st.agent.s)
               then A.Outcome(A.Receiving(st.agent.job, st.agent.s, p, n), st.flash, [])
               else A.SectorReceived(c.q.g, st.flash, st.agent.job, st.agent.s, p, r)
  {
    HeadFits(c, st);
    SectorFacts(c.q.g, |c.q.image|, st.agent.s);
    OnReceiveIs(c.q.g, st.flash, st.agent, st.toAgent[0], r);
  }

  lemma InvAgentReceives(c: Config, st: Sys, r: EraseResult)
    requires Sized(c) && c.q.g.sector <= A.BUFFER_SIZE && Inv(c, st) && st.agent.Receiving? && st.toAgent != []
    ensures Inv(c, AgentDid(st, st.toAgent[1..], A.OnReceive(c.q.g, st.flash, st.agent, Some(st.toAgent[0]), r)))
  {
    HeadOutcome(c, st, r);
    var data := st.toAgent[0].data;
    if st.agent.got + |data| < SectorBytes(c.q.g, |c.q.image|, st.agent.s) {
      InvReceivesMore(c, st, data);
    } else {
      InvReceivesLast(c, st, data, r);
    }
  }

  // ---------------------------------------------------------------- every run

  lemma InvStep(c: Config, st: Sys, e: Event)
    requires c.Valid() && Inv(c, st)
    ensures Inv(c, Step(c, st, e))
  {
    match e
    case HostAdvance => InvHostAdvance(c, st);
    case HostReceive => InvHostReceive(c, st);
    case HostTimeout => InvHostTimeout(c, st);
    case AgentReceive(r) =>
      if st.toAgent != [] {
        if st.agent.Idle? {
          InvAgentIdle(c, st);
        } else if st.agent.Receiving? {
          InvAgentReceives(c, st, r);
        }
      }
    case AgentTimeout => InvAgentTimeout(c, st);
    case AgentReady => InvAgentReady(c, st);
    case AgentWork(r1, r2) => InvAgentWork(c, st, r1, r2);
    case LoseToAgent(i) => InvLoseToAgent(c, st, i);
    case LoseToHost(j) => InvLoseToHost(c, st, j);
  }

  lemma {:induction false} InvRun(c: Config, es: seq<Event>)
    requires c.Valid()
    ensures Inv(c, Run(c, es))
  {
    if es == [] {
      InvInitial(c);
    } else {
      InvRun(c, es[..|es| - 1]);
      InvStep(c, Run(c, es[..|es| - 1]), es[|es| - 1]);
    }
  }
}
