/**
  `write_flash` as the host runs it, loop by loop (src/defib/agent/client.py:652-740), proved to be the
  step machine of `StreamHost` driven to its end.
 */
module StreamClient {
  import opened Bytes
  import opened Flash
  import opened StreamTypes
  import opened StreamHost

  /** Results of successive `recv_packet` calls: a packet, or `None` for TransportTimeout. Once they run
      out every call times out. */
  type Inputs = seq<Option<ToHost>>

  datatype Rest = Rest(host: Host, inputs: Inputs, sent: seq<ToAgent>)

  function Effort(q: Request, h: Host): nat
    requires 0 < q.g.sector
  {
    match h.pc
    case Start => 1
    case SectorTop => 2 + Max0(SectorBytes(q.g, |q.image|, h.s) - h.sent)
    case Sending => 1 + Max0(SectorBytes(q.g, |q.image|, h.s) - h.sent)
    case _ => 0
  }

  function Max0(x: int): nat {
    if x < 0 then 0 else x
  }

  /** The step machine, run until the call is over. */
  function Drive(q: Request, x: Rest): (y: Rest)
    requires 0 < q.g.sector && 0 < q.chunk
    ensures y.host.pc.Returned? || y.host.pc.Raised?
    decreases |x.inputs|, Effort(q, x.host)
  {
    if x.host.pc.Returned? || x.host.pc.Raised? then x
    else if !Waiting(x.host.pc) then
      var (h, out) := Advance(q, x.host);
      Drive(q, Rest(h, x.inputs, x.sent + out))
    else if x.inputs == [] || x.inputs[0].None? then
      Rest(x.host.(pc := Raised), if x.inputs == [] then [] else x.inputs[1..], x.sent)
    else Drive(q, Rest(OnPacket(x.host, x.inputs[0].value), x.inputs[1..], x.sent))
  }

  ghost predicate DrivesTo(q: Request, x: Rest, want: Rest)
    requires 0 < q.g.sector && 0 < q.chunk
  {
    forall y {:trigger Is(y, x)} | Is(y, x) :: Drive(q, y) == want
  }

  lemma DrivesToIs(q: Request, x: Rest, want: Rest)
    requires 0 < q.g.sector && 0 < q.chunk
    ensures DrivesTo(q, x, want) <==> Drive(q, x) == want
  {
    assert Is(x, x);
  }

  lemma DrivesAdvance(q: Request, x: Rest, want: Rest)
    requires 0 < q.g.sector && 0 < q.chunk && DrivesTo(q, x, want)
    requires x.host.pc.Start? || x.host.pc.SectorTop? || x.host.pc.Sending?
    ensures var (h, out) := Advance(q, x.host);
            DrivesTo(q, Rest(h, x.inputs, x.sent + out), want)
  {
    var (h, out) := Advance(q, x.host);
    DrivesToIs(q, x, want);
    DrivesToIs(q, Rest(h, x.inputs, x.sent + out), want);
  }

  lemma DrivesPacket(q: Request, x: Rest, want: Rest)
    requires 0 < q.g.sector && 0 < q.chunk && DrivesTo(q, x, want) && Waiting(x.host.pc)
    requires x.inputs != [] && x.inputs[0].Some?
    ensures DrivesTo(q, Rest(OnPacket(x.host, x.inputs[0].value), x.inputs[1..], x.sent), want)
  {
    DrivesToIs(q, x, want);
    DrivesToIs(q, Rest(OnPacket(x.host, x.inputs[0].value), x.inputs[1..], x.sent), want);
  }

  lemma DrivesTimeout(q: Request, x: Rest, want: Rest)
    requires 0 < q.g.sector && 0 < q.chunk && DrivesTo(q, x, want) && Waiting(x.host.pc)
    requires x.inputs == [] || x.inputs[0].None?
    ensures want == Rest(x.host.(pc := Raised), if x.inputs == [] then [] else x.inputs[1..], x.sent)
  {
    DrivesToIs(q, x, want);
  }

  lemma DrivesEnd(q: Request, x: Rest, want: Rest)
    requires 0 < q.g.sector && 0 < q.chunk && DrivesTo(q, x, want)
    requires x.host.pc.Returned? || x.host.pc.Raised?
    ensures x == want
  {
    DrivesToIs(q, x, want);
  }

  // ---------------------------------------------------------------- the waits

  /** How a wait or a sector ends: the code goes on, returns a value, or an exception goes through. */
  datatype Ended = GoOn | Return(ok: bool) | Thrown

  /** The step machine's host after that. */
  function HostAfter(h: Host, e: Ended): Host {
    match e
    case GoOn => if h.pc.AwaitAccept? then h.(pc := SectorTop) else Host(SectorTop, h.s + 1, 0)
    case Return(ok) => h.(pc := Returned(ok))
    case Thrown => h.(pc := Raised)
  }

  /** What a wait leaves behind. */
  ghost predicate WaitDone(q: Request, h: Host, e: Ended, rest: Inputs, sent: seq<ToAgent>, want: Rest)
    requires 0 < q.g.sector && 0 < q.chunk
  {
    DrivesTo(q, Rest(HostAfter(h, e), rest, sent), want)
  }

  /** The next packet, or the end of the wait. */
  method Recv(q: Request, ghost h: Host, inputs: Inputs, ghost sent: seq<ToAgent>, ghost want: Rest)
    returns (packet: Option<ToHost>, rest: Inputs)
    requires 0 < q.g.sector && 0 < q.chunk && Waiting(h.pc) && DrivesTo(q, Rest(h, inputs, sent), want)
    ensures packet.None? ==> WaitDone(q, h, Thrown, rest, sent, want)
    ensures packet.Some? ==> |rest| < |inputs| && DrivesTo(q, Rest(OnPacket(h, packet.value), rest, sent), want)
  {
    if inputs == [] || inputs[0].None? {
      DrivesTimeout(q, Rest(h, inputs, sent), want);
      packet, rest := None, if inputs == [] then [] else inputs[1..];
      DrivesToIs(q, Rest(HostAfter(h, Thrown), rest, sent), want);
    } else {
      DrivesPacket(q, Rest(h, inputs, sent), want);
      packet, rest := inputs[0], inputs[1..];
    }
  }

  /** `recv_response` and the test of its result. */
  method AwaitAcceptance(q: Request, ghost h: Host, inputs: Inputs, ghost sent: seq<ToAgent>, ghost want: Rest)
    returns (e: Ended, rest: Inputs)
    requires 0 < q.g.sector && 0 < q.chunk && h.pc.AwaitAccept? && DrivesTo(q, Rest(h, inputs, sent), want)
    ensures WaitDone(q, h, e, rest, sent, want)
  {
    rest := inputs;
    while true
      invariant DrivesTo(q, Rest(h, rest, sent), want)
      decreases |rest|
    {
      var packet;
      packet, rest := Recv(q, h, rest, sent, want);
      if packet.None? {
        return Thrown, rest;
      }
      match packet.value {
        case Ready =>
        case Ack(status) =>
          if status != ACK_OK {
            return Return(false), rest;
          }
          return GoOn, rest;
        case Progress(_, _) => return Return(false), rest;
      }
    }
  }

  /** The loop after each sector, data or not. */
  method AwaitProgressPacket(q: Request, ghost h: Host, inputs: Inputs, ghost sent: seq<ToAgent>, ghost want: Rest)
    returns (e: Ended, rest: Inputs)
    requires 0 < q.g.sector && 0 < q.chunk && h.pc.AwaitProgress? && DrivesTo(q, Rest(h, inputs, sent), want)
    ensures WaitDone(q, h, e, rest, sent, want)
  {
    rest := inputs;
    while true
      invariant DrivesTo(q, Rest(h, rest, sent), want)
      decreases |rest|
    {
      var packet;
      packet, rest := Recv(q, h, rest, sent, want);
      if packet.None? {
        return Thrown, rest;
      }
      match packet.value {
        case Ready =>
        case Progress(_, _) => return GoOn, rest;
        case Ack(status) => return Return(status == ACK_OK), rest;
      }
    }
  }

  /** The loop after the last sector; late progress packets are skipped. */
  method AwaitFinalAck(q: Request, ghost h: Host, inputs: Inputs, ghost sent: seq<ToAgent>, ghost want: Rest)
    returns (e: Ended, rest: Inputs)
    requires 0 < q.g.sector && 0 < q.chunk && h.pc.AwaitFinal? && DrivesTo(q, Rest(h, inputs, sent), want)
    ensures !e.GoOn? && WaitDone(q, h, e, rest, sent, want)
  {
    rest := inputs;
    while true
      invariant DrivesTo(q, Rest(h, rest, sent), want)
      decreases |rest|
    {
      var packet;
      packet, rest := Recv(q, h, rest, sent, want);
      if packet.None? {
        return Thrown, rest;
      }
      match packet.value {
        case Ready =>
        case Ack(status) => return Return(status == ACK_OK), rest;
        case Progress(_, _) =>
      }
    }
  }

  // ---------------------------------------------------------------- the send loop

  /** One full chunk on raises the quotient by one. */
  lemma NextQuotient(sent: nat, chunk: nat)
    requires 0 < chunk
    ensures (sent + chunk) / chunk == sent / chunk + 1
  {
    DivModUnique(sent + chunk, chunk, sent / chunk + 1, sent % chunk);
  }

  /** The loop's counters are the step machine's: `seqNo` is counted up, the machine divides. */
  ghost predicate Counters(q: Request, s: nat, offset: nat, sectorBytes: int, sent: nat, seqNo: nat)
    requires 0 < q.g.sector && 0 < q.chunk
  {
    && offset == s * q.g.sector && sectorBytes == SectorBytes(q.g, |q.image|, s)
    && 0 <= sent <= sectorBytes && offset + sectorBytes <= |q.image|
    && (sent < sectorBytes ==> seqNo == SeqNo(q, Host(Sending, s, sent)))
  }

  /** One turn of `while sent < sector_bytes` is one step of the machine. */
  lemma TurnIsAdvance(q: Request, s: nat, offset: nat, sectorBytes: int, sent: nat, seqNo: nat, chunk: nat)
    requires 0 < q.g.sector && 0 < q.chunk && Counters(q, s, offset, sectorBytes, sent, seqNo) && sent < sectorBytes
    requires chunk == Min(q.chunk, sectorBytes - sent)
    ensures Advance(q, Host(Sending, s, sent))
            == if seqNo > 0xFFFF then (Host(Raised, s, sent), [])
               else (Host(Sending, s, sent + chunk), [Chunk(seqNo, q.image[offset + sent..offset + sent + chunk])])
    ensures Counters(q, s, offset, sectorBytes, sent + chunk, seqNo + 1)
  {
    NextQuotient(sent, q.chunk);
  }

  /** The packets of one data sector, with the loop's own `sent` and `seq`; `None` when `struct.pack` refuses. */
  method SendSector(q: Request, s: nat, offset: nat, sectorBytes: nat, ghost inputs: Inputs, sentBefore: seq<ToAgent>,
                    ghost want: Rest)
    returns (ok: bool, out: seq<ToAgent>)
    requires 0 < q.g.sector && 0 < q.chunk && DrivesTo(q, Rest(Host(Sending, s, 0), inputs, sentBefore), want)
    requires Counters(q, s, offset, sectorBytes, 0, offset / q.chunk)
    ensures ok ==> DrivesTo(q, Rest(Host(AwaitProgress, s, sectorBytes), inputs, out), want)
    ensures !ok ==> exists sent: nat :: DrivesTo(q, Rest(Host(Raised, s, sent), inputs, out), want)
  {
    out := sentBefore;
    var sent: nat, seqNo: nat := 0, offset / q.chunk;
    while sent < sectorBytes
      invariant Counters(q, s, offset, sectorBytes, sent, seqNo)
      invariant DrivesTo(q, Rest(Host(Sending, s, sent), inputs, out), want)
    {
      var chunk := Min(q.chunk, sectorBytes - sent);
      DrivesAdvance(q, Rest(Host(Sending, s, sent), inputs, out), want);
      TurnIsAdvance(q, s, offset, sectorBytes, sent, seqNo, chunk);
      if seqNo > 0xFFFF {
        assert out + [] == out;
        return false, out;
      }
      out := out + [Chunk(seqNo, q.image[offset + sent..offset + sent + chunk])];
      sent := sent + chunk;
      seqNo := seqNo + 1;
    }
    DrivesAdvance(q, Rest(Host(Sending, s, sent), inputs, out), want);
    assert out + [] == out;
    ok := true;
  }

  // ---------------------------------------------------------------- write_flash

  /** While sectors remain, `offset` counts whole sectors. */
  lemma OffsetCounts(q: Request, s: nat, offset: nat)
    requires 0 < q.g.sector && s < NumSectors(q.g, |q.image|) && offset == s * q.g.sector
    requires 0 < q.chunk
    ensures var sectorBytes := Min(q.g.sector, |q.image| - offset);
            && 0 < sectorBytes && Counters(q, s, offset, sectorBytes, 0, offset / q.chunk)
            && (s + 1 < NumSectors(q.g, |q.image|) ==> offset + sectorBytes == (s + 1) * q.g.sector)
  {
    SectorFacts(q.g, |q.image|, s);
  }

  /** Send the sector if its bit is set. */
  method SendIfMarked(q: Request, s: nat, offset: nat, sectorBytes: nat, ghost inputs: Inputs, sentBefore: seq<ToAgent>,
                      ghost want: Rest)
    returns (ok: bool, sent: seq<ToAgent>, ghost h: Host)
    requires 0 < q.g.sector && 0 < q.chunk && s < NumSectors(q.g, |q.image|)
    requires Counters(q, s, offset, sectorBytes, 0, offset / q.chunk)
    requires DrivesTo(q, Rest(Host(SectorTop, s, 0), inputs, sentBefore), want)
    ensures ok ==> h.pc.AwaitProgress? && h.s == s && DrivesTo(q, Rest(h, inputs, sent), want)
    ensures !ok ==> sent == want.sent && want.host.pc.Raised?
  {
    DrivesAdvance(q, Rest(Host(SectorTop, s, 0), inputs, sentBefore), want);
    assert sentBefore + [] == sentBefore;
    ok, sent, h := true, sentBefore, Host(AwaitProgress, s, 0);
    if BitSet(q.bitmap, s) {
      ok, sent := SendSector(q, s, offset, sectorBytes, inputs, sentBefore, want);
      h := Host(AwaitProgress, s, sectorBytes);
      if !ok {
        ghost var k: nat :| DrivesTo(q, Rest(Host(Raised, s, k), inputs, sent), want);
        DrivesEnd(q, Rest(Host(Raised, s, k), inputs, sent), want);
      }
    }
  }

  /** One turn of `for s in range(num_sectors)`. */
  method OneSector(q: Request, s: nat, offset: nat, inputs: Inputs, sentBefore: seq<ToAgent>, ghost want: Rest)
    returns (e: Ended, offset': nat, rest: Inputs, sent: seq<ToAgent>)
    requires 0 < q.g.sector && 0 < q.chunk && s < NumSectors(q.g, |q.image|) && offset == s * q.g.sector
    requires DrivesTo(q, Rest(Host(SectorTop, s, 0), inputs, sentBefore), want)
    ensures e.GoOn? ==> DrivesTo(q, Rest(Host(SectorTop, s + 1, 0), rest, sent), want)
    ensures e.Return? ==> sent == want.sent && want.host.pc == Returned(e.ok)
    ensures e.Thrown? ==> sent == want.sent && want.host.pc.Raised?
    ensures s + 1 < NumSectors(q.g, |q.image|) ==> offset' == (s + 1) * q.g.sector
  {
    OffsetCounts(q, s, offset);
    var sectorBytes: nat := Min(q.g.sector, |q.image| - offset);
    var ok;
    ghost var h;
    ok, sent, h := SendIfMarked(q, s, offset, sectorBytes, inputs, sentBefore, want);
    offset' := offset + sectorBytes;
    if !ok {
      return Thrown, offset', inputs, sent;
    }
    e, rest := AwaitProgressPacket(q, h, inputs, sent, want);
    if !e.GoOn? {
      DrivesEnd(q, Rest(HostAfter(h, e), rest, sent), want);
    }
  }

  /** `write_flash` after the baud switch: what it returns (`None` when it raises) and what it sent. */
  method WriteFlash(q: Request, inputs: Inputs) returns (result: Option<bool>, sent: seq<ToAgent>)
    requires 0 < q.g.sector && 0 < q.chunk
    ensures var y := Drive(q, Rest(Host(Start, 0, 0), inputs, []));
            sent == y.sent && result == if y.host.pc.Returned? then Some(y.host.pc.ok) else None
  {
    ghost var want := Drive(q, Rest(Host(Start, 0, 0), inputs, []));
    DrivesToIs(q, Rest(Host(Start, 0, 0), inputs, []), want);
    DrivesAdvance(q, Rest(Host(Start, 0, 0), inputs, []), want);
    sent := [Stream(q.addr, |q.image|, q.crc, q.bitmap)];
    assert [] + sent == sent;
    var e, rest := AwaitAcceptance(q, Host(AwaitAccept, 0, 0), inputs, sent, want);
    if !e.GoOn? {
      DrivesEnd(q, Rest(HostAfter(Host(AwaitAccept, 0, 0), e), rest, sent), want);
      return if e.Return? then Some(e.ok) else None, sent;
    }
    var numSectors := NumSectors(q.g, |q.image|);
    var offset := 0;
    for s := 0 to numSectors
      invariant s < numSectors ==> offset == s * q.g.sector
      invariant DrivesTo(q, Rest(Host(SectorTop, s, 0), rest, sent), want)
    {
      e, offset, rest, sent := OneSector(q, s, offset, rest, sent, want);
      if !e.GoOn? {
        return if e.Return? then Some(e.ok) else None, sent;
      }
    }
    DrivesAdvance(q, Rest(Host(SectorTop, numSectors, 0), rest, sent), want);
    assert sent + [] == sent;
    e, rest := AwaitFinalAck(q, Host(AwaitFinal, numSectors, 0), rest, sent, want);
    DrivesEnd(q, Rest(HostAfter(Host(AwaitFinal, numSectors, 0), e), rest, sent), want);
    result := if e.Return? then Some(e.ok) else None;
  }
}
