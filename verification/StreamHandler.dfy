/**
  `handle_flash_stream` as the agent runs it: two RAM buffers, the chip updated in place, loops that
  advance `s`, `rx_buf`, `pending_buf` and the receive count (agent/main.c:835-981). It is proved to be
  the step machine of `StreamAgent` driven to the end of the job.
 */
module StreamHandler {
  import opened Bytes
  import opened Flash
  import opened StreamTypes
  import opened StreamAgent

  /** Results of successive `proto_recv` calls; once they run out the link stays silent. */
  type Inputs = seq<Option<ToAgent>>

  /** What the chip does when a sector is erased, by address. */
  type Chip = nat -> EraseResult

  datatype Rest = Rest(agent: Agent, flash: seq<byte>, inputs: Inputs, out: seq<ToHost>)

  function SectorsLeft(g: Geometry, a: Agent): nat
    requires 0 < g.sector
  {
    if a.Idle? then 0 else
    var n := NumSectors(g, a.job.size);
    if a.s < n then n - a.s else 0
  }

  /** The step machine, run until the agent is back in the main loop. */
  function Drive(g: Geometry, er: Chip, x: Rest): (y: Rest)
    requires 0 < g.sector && 0 < g.page
    ensures y.agent.Idle?
    decreases |x.inputs|, if x.agent.Idle? then 0 else 1, SectorsLeft(g, x.agent), if x.agent.AtSector? then 1 else 0
  {
    match x.agent
    case Idle => x
    case AtSector(job, s, p) =>
      var o := OnSector(g, x.flash, x.agent, er(p.pendingAddr), er(job.addr + s * g.sector));
      Drive(g, er, Rest(o.agent, o.flash, x.inputs, x.out + o.out))
    case Receiving(_, _, p, _) =>
      if x.inputs == [] then
        var o := OnReceive(g, x.flash, x.agent, None, Clean);
        Rest(o.agent, o.flash, [], x.out + o.out)
      else
        var o := OnReceive(g, x.flash, x.agent, x.inputs[0], er(p.pendingAddr));
        Drive(g, er, Rest(o.agent, o.flash, x.inputs[1..], x.out + o.out))
  }

  /** Driving `x` ends in `want`. */
  ghost predicate DrivesTo(g: Geometry, er: Chip, x: Rest, want: Rest)
    requires 0 < g.sector && 0 < g.page
  {
    forall y {:trigger Is(y, x)} | Is(y, x) :: Drive(g, er, y) == want
  }

  lemma DrivesToIs(g: Geometry, er: Chip, x: Rest, want: Rest)
    requires 0 < g.sector && 0 < g.page
    ensures DrivesTo(g, er, x, want) <==> Drive(g, er, x) == want
  {
    assert Is(x, x);
  }

  lemma DrivesSector(g: Geometry, er: Chip, x: Rest, want: Rest)
    requires 0 < g.sector && 0 < g.page && x.agent.AtSector? && DrivesTo(g, er, x, want)
    ensures var o := OnSector(g, x.flash, x.agent, er(x.agent.p.pendingAddr), er(x.agent.job.addr + x.agent.s * g.sector));
            DrivesTo(g, er, Rest(o.agent, o.flash, x.inputs, x.out + o.out), want)
  {
    var o := OnSector(g, x.flash, x.agent, er(x.agent.p.pendingAddr), er(x.agent.job.addr + x.agent.s * g.sector));
    DrivesToIs(g, er, x, want);
    DrivesToIs(g, er, Rest(o.agent, o.flash, x.inputs, x.out + o.out), want);
  }

  lemma DrivesReceive(g: Geometry, er: Chip, x: Rest, want: Rest)
    requires 0 < g.sector && 0 < g.page && x.agent.Receiving? && x.inputs != [] && DrivesTo(g, er, x, want)
    ensures var o := OnReceive(g, x.flash, x.agent, x.inputs[0], er(x.agent.p.pendingAddr));
            DrivesTo(g, er, Rest(o.agent, o.flash, x.inputs[1..], x.out + o.out), want)
  {
    var o := OnReceive(g, x.flash, x.agent, x.inputs[0], er(x.agent.p.pendingAddr));
    DrivesToIs(g, er, x, want);
    DrivesToIs(g, er, Rest(o.agent, o.flash, x.inputs[1..], x.out + o.out), want);
  }

  lemma DrivesSilence(g: Geometry, er: Chip, x: Rest, want: Rest)
    requires 0 < g.sector && 0 < g.page && x.agent.Receiving? && x.inputs == [] && DrivesTo(g, er, x, want)
    ensures want == Rest(Idle, x.flash, [], x.out + [Ack(ACK_FLASH_ERROR)])
  {
    DrivesToIs(g, er, x, want);
  }

  lemma DrivesIdle(g: Geometry, er: Chip, x: Rest, want: Rest)
    requires 0 < g.sector && 0 < g.page && x.agent.Idle? && DrivesTo(g, er, x, want)
    ensures x == want
  {
    DrivesToIs(g, er, x, want);
  }

  // ---------------------------------------------------------------- the chip, in place

  method EraseCommand(chip: array<byte>, g: Geometry, addr: nat, r: EraseResult) returns (rc: int)
    requires 0 < g.sector
    modifies chip
    ensures rc == if r.Failed? then -1 else 0
    ensures chip[..] == ChipErase(g, old(chip[..]), addr, r)
  {
    rc := if r.Failed? then -1 else 0;
    if SectorBase(g, addr) + g.sector <= chip.Length {
      var done := if r.Failed? && |r.content| == g.sector then r else Clean;
      var _ := EraseCells(chip, g, addr, done);
    }
  }

  method ProgramCommand(chip: array<byte>, g: Geometry, addr: nat, buf: array<byte>, bytes: nat)
    requires chip != buf && 0 < g.sector && 0 < g.page && bytes <= buf.Length
    modifies chip
    ensures chip[..] == ChipProgram(g, old(chip[..]), addr, buf[..bytes])
  {
    if SectorBase(g, addr) + g.sector <= chip.Length && addr + bytes <= chip.Length {
      var _ := EraseAndProgram(chip, g, addr, buf, bytes, Clean);
    }
  }

  /** `erase_and_program` on the pending buffer, if any. */
  method FlushBuffer(chip: array<byte>, g: Geometry, buf: array<byte>, ghost p: Buffers,
                     pending: int, addr: nat, bytes: nat, r: EraseResult) returns (rc: int)
    requires chip != buf && 0 < g.sector && 0 < g.page
    requires pending == p.pending && addr == p.pendingAddr && bytes == p.pendingBytes
    requires buf.Length == BUFFER_SIZE && (pending >= 0 ==> buf[..] == p.ram[pending])
    modifies chip
    ensures rc == if FlushFails(p, r) then -1 else 0
    ensures chip[..] == Flush(g, old(chip[..]), p, r)
  {
    rc := 0;
    if pending >= 0 {
      if r.Failed? {
        rc := EraseCommand(chip, g, addr, r);
      } else {
        assert buf[..bytes] == p.ram[pending][..bytes];
        ProgramCommand(chip, g, addr, buf, bytes);
      }
    }
  }

  // ---------------------------------------------------------------- receiving one sector

  /** The copy loop: stops at the end of the packet or of the sector. */
  method CopyChunk(buf: array<byte>, got: nat, bytes: nat, data: seq<byte>) returns (got': nat)
    requires got <= bytes <= buf.Length
    modifies buf
    ensures got' == got + Min(|data|, bytes - got)
    ensures buf[..] == Splice(old(buf[..]), got, data[..got' - got])
  {
    got' := got;
    var i := 0;
    while i < |data| && got' < bytes
      invariant 0 <= i <= |data| && got' == got + i <= bytes
      invariant forall k | 0 <= k < buf.Length ::
        buf[k] == if got <= k < got' then data[k - got] else old(buf[..])[k]
    {
      buf[got'] := data[i];
      got' := got' + 1;
      i := i + 1;
    }
  }

  function WithRx(p: Buffers, ram: seq<byte>): (p': Buffers)
    requires |ram| == BUFFER_SIZE
    ensures p' == p.(ram := p.ram[p.rx := ram])
  {
    p.(ram := p.ram[p.rx := ram])
  }

  lemma StoreIsWithRx(p: Buffers, ram: seq<byte>, at: nat, d: seq<byte>)
    requires |ram| == BUFFER_SIZE && at + |d| <= BUFFER_SIZE
    ensures Store(WithRx(p, ram), at, d) == WithRx(p, Splice(ram, at, d))
  {
  }

  /** What remains once `got` bytes of sector `s` are in the buffer. */
  ghost function Filling(g: Geometry, er: Chip, job: Job, s: nat, p: Buffers, got: nat,
                         f: seq<byte>, inputs: Inputs, out: seq<ToHost>): Rest
    requires 0 < g.sector && 0 < g.page
  {
    if got < SectorBytes(g, job.size, s) then Rest(Receiving(job, s, p, got), f, inputs, out)
    else
      var o := SectorReceived(g, f, job, s, p, er(p.pendingAddr));
      Rest(o.agent, o.flash, inputs, out + o.out)
  }

  /** One data packet. */
  lemma FillingOn(g: Geometry, er: Chip, job: Job, s: nat, p: Buffers, ram: seq<byte>, got: nat,
                  f: seq<byte>, inputs: Inputs, out: seq<ToHost>, want: Rest, k: nat)
    requires 0 < g.sector && 0 < g.page && |ram| == BUFFER_SIZE && inputs != []
    requires got < SectorBytes(g, job.size, s) <= BUFFER_SIZE
    requires inputs[0].Some? && inputs[0].value.Chunk? && inputs[0].value.data != []
    requires k == Min(|inputs[0].value.data|, SectorBytes(g, job.size, s) - got)
    requires DrivesTo(g, er, Filling(g, er, job, s, WithRx(p, ram), got, f, inputs, out), want)
    ensures DrivesTo(g, er, Filling(g, er, job, s, WithRx(p, Splice(ram, got, inputs[0].value.data[..k])), got + k,
                                 f, inputs[1..], out), want)
  {
    var x := Rest(Receiving(job, s, WithRx(p, ram), got), f, inputs, out);
    DrivesReceive(g, er, x, want);
    StoreIsWithRx(p, ram, got, inputs[0].value.data[..k]);
    assert out + [] == out;
  }

  /** A packet the receive loop ignores. */
  lemma FillingSkips(g: Geometry, er: Chip, x: Rest, want: Rest)
    requires 0 < g.sector && 0 < g.page && x.agent.Receiving? && x.inputs != [] && x.inputs[0].Some?
    requires x.inputs[0].value.Stream? || x.inputs[0].value.data == []
    requires DrivesTo(g, er, x, want)
    ensures DrivesTo(g, er, x.(inputs := x.inputs[1..]), want)
  {
    DrivesReceive(g, er, x, want);
    assert x.out + [] == x.out;
  }

  lemma FillingAborts(g: Geometry, er: Chip, x: Rest, want: Rest)
    requires 0 < g.sector && 0 < g.page && x.agent.Receiving? && DrivesTo(g, er, x, want)
    requires x.inputs == [] || x.inputs[0].None?
    ensures want == Rest(Idle, x.flash, if x.inputs == [] then [] else x.inputs[1..], x.out + [Ack(ACK_FLASH_ERROR)])
  {
    if x.inputs == [] {
      DrivesSilence(g, er, x, want);
    } else {
      DrivesReceive(g, er, x, want);
      DrivesIdle(g, er, Rest(Idle, x.flash, x.inputs[1..], x.out + [Ack(ACK_FLASH_ERROR)]), want);
    }
  }

  /** One packet of the receive loop, data or not. */
  method TakePacket(g: Geometry, ghost er: Chip, job: Job, s: nat, bytes: nat, buf: array<byte>, ghost p: Buffers,
                    ghost f: seq<byte>, inputs: Inputs, ghost out: seq<ToHost>, ghost want: Rest, got: nat)
    returns (got': nat)
    requires 0 < g.sector && 0 < g.page && got < bytes == SectorBytes(g, job.size, s) <= BUFFER_SIZE == buf.Length
    requires inputs != [] && inputs[0].Some?
    requires DrivesTo(g, er, Filling(g, er, job, s, WithRx(p, buf[..]), got, f, inputs, out), want)
    modifies buf
    ensures got' <= bytes
    ensures DrivesTo(g, er, Filling(g, er, job, s, WithRx(p, buf[..]), got', f, inputs[1..], out), want)
  {
    var frame := inputs[0].value;
    if frame.Chunk? && frame.data != [] {
      FillingOn(g, er, job, s, p, buf[..], got, f, inputs, out, want, Min(|frame.data|, bytes - got));
      got' := CopyChunk(buf, got, bytes, frame.data);
    } else {
      FillingSkips(g, er, Rest(Receiving(job, s, WithRx(p, buf[..]), got), f, inputs, out), want);
      got' := got;
    }
  }

  /** The receive loop for sector `s`: fills `buf` or gives up on the first empty receive. */
  method ReceiveSector(g: Geometry, ghost er: Chip, job: Job, s: nat, bytes: nat, buf: array<byte>, ghost p: Buffers,
                       ghost f: seq<byte>, inputs: Inputs, ghost out: seq<ToHost>, ghost want: Rest)
    returns (ok: bool, rest: Inputs)
    requires 0 < g.sector && 0 < g.page && 0 < bytes == SectorBytes(g, job.size, s) <= BUFFER_SIZE == buf.Length
    requires DrivesTo(g, er, Rest(Receiving(job, s, WithRx(p, buf[..]), 0), f, inputs, out), want)
    modifies buf
    ensures ok ==> DrivesTo(g, er, Filling(g, er, job, s, WithRx(p, buf[..]), bytes, f, rest, out), want)
    ensures !ok ==> want == Rest(Idle, f, rest, out + [Ack(ACK_FLASH_ERROR)])
  {
    var got := 0;
    rest := inputs;
    while got < bytes
      invariant 0 <= got <= bytes
      invariant DrivesTo(g, er, Filling(g, er, job, s, WithRx(p, buf[..]), got, f, rest, out), want)
      decreases |rest|
    {
      if rest == [] || rest[0].None? {
        FillingAborts(g, er, Rest(Receiving(job, s, WithRx(p, buf[..]), got), f, rest, out), want);
        ok, rest := false, if rest == [] then [] else rest[1..];
        return;
      }
      got := TakePacket(g, er, job, s, bytes, buf, p, f, rest, out, want, got);
      rest := rest[1..];
    }
    ok := true;
  }

  // ---------------------------------------------------------------- the handler

  /** The variables of one accepted request. */
  class Session {
    const g: Geometry
    const er: Chip
    const job: Job
    const chip: array<byte>
    const buf0: array<byte>
    const buf1: array<byte>
    var s: nat
    var rx: nat
    var pending: int
    var pendingAddr: nat
    var pendingBytes: nat
    var inputs: Inputs
    var out: seq<ToHost>

    ghost predicate Valid()
      reads this, chip, buf0, buf1
    {
      && 0 < g.sector <= BUFFER_SIZE && 0 < g.page
      && chip != buf0 && chip != buf1 && buf0 != buf1
      && buf0.Length == BUFFER_SIZE && buf1.Length == BUFFER_SIZE
      && rx < 2 && -1 <= pending < 2 && pending != rx && pendingBytes <= BUFFER_SIZE
    }

    ghost function P(): Buffers
      requires Valid()
      reads this, chip, buf0, buf1
    {
      Pipeline([buf0[..], buf1[..]], rx, pending, pendingAddr, pendingBytes)
    }

    /** The state of the step machine this object is in, at the top of the sector loop. */
    ghost function Now(): Rest
      requires Valid()
      reads this, chip, buf0, buf1
    {
      Rest(AtSector(job, s, P()), chip[..], inputs, out)
    }

    /** Back in the main loop. */
    ghost function Ended(): Rest
      reads this, chip
    {
      Rest(Idle, chip[..], inputs, out)
    }

    constructor (g: Geometry, er: Chip, job: Job, chip: array<byte>, buf0: array<byte>, buf1: array<byte>, inputs: Inputs)
      requires 0 < g.sector <= BUFFER_SIZE && 0 < g.page
      requires chip != buf0 && chip != buf1 && buf0 != buf1
      requires buf0.Length == BUFFER_SIZE && buf1.Length == BUFFER_SIZE
      ensures Valid() && this.chip == chip && this.buf0 == buf0 && this.buf1 == buf1
      ensures this.g == g && this.er == er && this.job == job
      ensures Now() == Rest(AtSector(job, 0, Pipeline([buf0[..], buf1[..]], 0, -1, 0, 0)), chip[..], inputs, [Ack(ACK_OK)])
    {
      this.g, this.er, this.job := g, er, job;
      this.chip, this.buf0, this.buf1 := chip, buf0, buf1;
      s, rx, pending, pendingAddr, pendingBytes := 0, 0, -1, 0, 0;
      this.inputs := inputs;
      out := [Ack(ACK_OK)];
    }

    method FlushPending() returns (rc: int)
      requires Valid()
      modifies chip
      ensures Valid() && P() == old(P())
      ensures rc == if FlushFails(P(), er(pendingAddr)) then -1 else 0
      ensures chip[..] == Flush(g, old(chip[..]), P(), er(pendingAddr))
    {
      var buf := if pending == 1 then buf1 else buf0;
      rc := FlushBuffer(chip, g, buf, P(), pending, pendingAddr, pendingBytes, er(pendingAddr));
    }

    /** Stop with an error. */
    method Fail(ghost want: Rest)
      requires 0 < g.sector && 0 < g.page
      requires DrivesTo(g, er, Rest(Idle, chip[..], inputs, out + [Ack(ACK_FLASH_ERROR)]), want)
      modifies this`out
      ensures want == Ended()
    {
      out := out + [Ack(ACK_FLASH_ERROR)];
      DrivesIdle(g, er, Ended(), want);
    }

    /** What follows when the agent's next step comes to `o`. */
    ghost function Then(o: Outcome): Rest
      reads this
    {
      Rest(o.agent, o.flash, inputs, out + o.out)
    }

    /** Erase a skipped sector and report it. */
    method EraseSkipped(ghost want: Rest) returns (ok: bool)
      requires Valid()
      requires DrivesTo(g, er, Then(OnSkipped(g, chip[..], AtSector(job, s, P()), er(job.addr + s * g.sector))), want)
      modifies this, chip
      ensures Valid() && (ok ==> s == old(s) + 1)
      ensures if ok then DrivesTo(g, er, Now(), want) else want == Ended()
    {
      var rc := EraseCommand(chip, g, job.addr + s * g.sector, er(job.addr + s * g.sector));
      if rc != 0 {
        Fail(want);
        return false;
      }
      out := out + [ProgressFor(g, job, s)];
      pending := -1;
      s := s + 1;
      ok := true;
    }

    /** A sector whose bitmap bit is clear: flush, erase, report. */
    method SkipSector(ghost want: Rest) returns (ok: bool)
      requires Valid() && s < NumSectors(g, job.size) && !BitSet(job.bitmap, s)
      requires DrivesTo(g, er, Now(), want)
      modifies this, chip
      ensures Valid() && (ok ==> s == old(s) + 1)
      ensures if ok then DrivesTo(g, er, Now(), want) else want == Ended()
    {
      DrivesSector(g, er, Now(), want);
      var rc := FlushPending();
      if rc != 0 {
        Fail(want);
        return false;
      }
      ok := EraseSkipped(want);
    }

    /** Everything after the last sector. */
    method Finish(ghost want: Rest)
      requires Valid() && s >= NumSectors(g, job.size) && DrivesTo(g, er, Now(), want)
      modifies this, chip
      ensures want == Ended()
    {
      DrivesSector(g, er, Now(), want);
      var rc := FlushPending();
      if rc != 0 {
        Fail(want);
        return;
      }
      out := out + [Ack(ACK_OK)];
      DrivesIdle(g, er, Ended(), want);
    }

    /** The sector is in the receive buffer: report it, flush the one before, swap the buffers. */
    method SwapBuffers(bytes: nat, ghost want: Rest) returns (ok: bool)
      requires Valid() && bytes == SectorBytes(g, job.size, s) && bytes <= BUFFER_SIZE
      requires DrivesTo(g, er, Then(SectorReceived(g, chip[..], job, s, P(), er(pendingAddr))), want)
      modifies this, chip
      ensures Valid() && (ok ==> s == old(s) + 1)
      ensures if ok then DrivesTo(g, er, Now(), want) else want == Ended()
    {
      AppendTwo(out, ProgressFor(g, job, s), Ack(ACK_FLASH_ERROR));
      out := out + [ProgressFor(g, job, s)];
      var rc := FlushPending();
      if rc != 0 {
        Fail(want);
        return false;
      }
      MakePending(bytes, want);
      ok := true;
    }

    ghost function Swapped(bytes: nat): Buffers
      requires Valid() && bytes <= BUFFER_SIZE
      reads this, chip, buf0, buf1
    {
      Pipeline(P().ram, 1 - rx, rx, job.addr + s * g.sector, bytes)
    }

    /** This sector's buffer becomes the pending one. */
    method MakePending(bytes: nat, ghost want: Rest)
      requires Valid() && bytes <= BUFFER_SIZE
      requires DrivesTo(g, er, Rest(AtSector(job, s + 1, Swapped(bytes)), chip[..], inputs, out), want)
      modifies this`pending, this`pendingAddr, this`pendingBytes, this`rx, this`s
      ensures Valid() && s == old(s) + 1
      ensures DrivesTo(g, er, Now(), want)
    {
      ghost var x := Rest(AtSector(job, s + 1, Swapped(bytes)), chip[..], inputs, out);
      pending, pendingAddr, pendingBytes := rx, job.addr + s * g.sector, bytes;
      rx := 1 - rx;
      s := s + 1;
      assert Now() == x;
    }

    lemma AppendTwo(xs: seq<ToHost>, a: ToHost, b: ToHost)
      ensures xs + [a] + [b] == xs + [a, b]
    {
    }

    /** The step machine at the start of the receive loop. */
    lemma BeginReceiving(want: Rest)
      requires Valid() && s < NumSectors(g, job.size) && BitSet(job.bitmap, s) && DrivesTo(g, er, Now(), want)
      ensures var buf := if rx == 1 then buf1 else buf0;
              DrivesTo(g, er, Rest(Receiving(job, s, WithRx(P(), buf[..]), 0), chip[..], inputs, out), want)
    {
      DrivesSector(g, er, Now(), want);
      assert out + [] == out;
      var buf := if rx == 1 then buf1 else buf0;
      assert WithRx(P(), buf[..]) == P();
    }

    /** A sector whose bitmap bit is set. */
    method DataSector(ghost want: Rest) returns (ok: bool)
      requires Valid() && s < NumSectors(g, job.size) && BitSet(job.bitmap, s) && DrivesTo(g, er, Now(), want)
      modifies this, chip, buf0, buf1
      ensures Valid() && (ok ==> s == old(s) + 1)
      ensures if ok then DrivesTo(g, er, Now(), want) else want == Ended()
    {
      BeginReceiving(want);
      SectorFacts(g, job.size, s);
      var bytes := SectorBytes(g, job.size, s);
      var buf := if rx == 1 then buf1 else buf0;
      ghost var p := P();
      var received, rest := ReceiveSector(g, er, job, s, bytes, buf, p, chip[..], inputs, out, want);
      inputs := rest;
      if !received {
        out := out + [Ack(ACK_FLASH_ERROR)];
        return false;
      }
      assert P() == WithRx(p, buf[..]);
      ok := SwapBuffers(bytes, want);
    }

    /** The sector loop. */
    method Serve(ghost want: Rest)
      requires Valid() && s == 0 && DrivesTo(g, er, Now(), want)
      modifies this, chip, buf0, buf1
      ensures want == Ended()
    {
      var n := NumSectors(g, job.size);
      while s < n
        invariant Valid() && s <= n && DrivesTo(g, er, Now(), want)
        decreases n - s
      {
        var ok;
        if BitSet(job.bitmap, s) {
          ok := DataSector(want);
        } else {
          ok := SkipSector(want);
        }
        if !ok {
          return;
        }
      }
      Finish(want);
    }
  }

  /** `handle_flash_stream`: whatever `proto_recv` delivers and however the erases turn out, the packets
      sent, the input left over and the chip are those of the step machine. */
  method HandleFlashStream(g: Geometry, er: Chip, chip: array<byte>, buf0: array<byte>, buf1: array<byte>,
                           request: ToAgent, inputs: Inputs) returns (out: seq<ToHost>, rest: Inputs)
    requires 0 < g.sector <= BUFFER_SIZE && 0 < g.page && request.Stream?
    requires chip != buf0 && chip != buf1 && buf0 != buf1
    requires buf0.Length == BUFFER_SIZE && buf1.Length == BUFFER_SIZE
    modifies chip, buf0, buf1
    ensures var o := OnIdle(g, old(chip[..]), [old(buf0[..]), old(buf1[..])], request);
            Drive(g, er, Rest(o.agent, o.flash, inputs, o.out)) == Rest(Idle, chip[..], rest, out)
  {
    rest := inputs;
    if request.size == 0 || (request.addr + request.size) % WORD > chip.Length {
      out := [Ack(ACK_FLASH_ERROR)];
      return;
    }
    if |request.bitmap| < (NumSectors(g, request.size) + 7) / 8 {
      out := [Ack(ACK_CRC_ERROR)];
      return;
    }
    var job := Job(request.addr, request.size, request.bitmap);
    var session := new Session(g, er, job, chip, buf0, buf1, inputs);
    ghost var want := Drive(g, er, session.Now());
    DrivesToIs(g, er, session.Now(), want);
    session.Serve(want);
    out, rest := session.out, session.inputs;
  }
}
