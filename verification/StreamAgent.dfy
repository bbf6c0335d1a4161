/**
  The agent's half of a flash stream as the steps between two visible points: one packet
  taken from `proto_recv`, or one turn of the sector loop (agent/main.c:835-981).
 */
module StreamAgent {
  import opened Bytes
  import opened Flash
  import opened StreamTypes

  const BUFFER_SIZE: nat := 0x20000
  const WORD: nat := 0x1_0000_0000

  datatype Job = Job(addr: nat, size: nat, bitmap: seq<byte>)

  /** The two RAM buffers: `rx` is being filled, `pending` (-1 for none) waits for the flash. */
  datatype Pipeline = Pipeline(ram: seq<seq<byte>>, rx: nat, pending: int, pendingAddr: nat, pendingBytes: nat) {
    predicate Valid() {
      && |ram| == 2 && |ram[0]| == |ram[1]| == BUFFER_SIZE
      && rx < 2 && -1 <= pending < 2
      && pendingBytes <= BUFFER_SIZE
    }
  }

  type Buffers = p: Pipeline | p.Valid()
    witness Pipeline([Fill(BUFFER_SIZE, 0), Fill(BUFFER_SIZE, 0)], 0, -1, 0, 0)

  datatype Agent =
    | Idle
    | AtSector(job: Job, s: nat, p: Buffers)
    | Receiving(job: Job, s: nat, p: Buffers, got: nat)

  /** Where the agent is after a step, what the flash holds, and what it sent. */
  datatype Outcome = Outcome(agent: Agent, flash: seq<byte>, out: seq<ToHost>)

  /** Flash commands past the end of the chip do nothing; accepted requests never issue one. */
  function ChipErase(g: Geometry, f: seq<byte>, addr: nat, r: EraseResult): (f': seq<byte>)
    requires 0 < g.sector
    ensures |f'| == |f|
  {
    if SectorBase(g, addr) + g.sector > |f| then f
    else if r.Failed? && |r.content| == g.sector then Splice(f, SectorBase(g, addr), r.content)
    else EraseSector(g, f, addr)
  }

  function ChipProgram(g: Geometry, f: seq<byte>, addr: nat, d: seq<byte>): (f': seq<byte>)
    requires 0 < g.sector && 0 < g.page
    ensures |f'| == |f|
  {
    if SectorBase(g, addr) + g.sector > |f| || addr + |d| > |f| then f
    else EraseProgram(g, f, addr, d)
  }

  /** `erase_and_program` on the pending buffer, if there is one. */
  function Flush(g: Geometry, f: seq<byte>, p: Buffers, r: EraseResult): (f': seq<byte>)
    requires 0 < g.sector && 0 < g.page
    ensures |f'| == |f|
  {
    if p.pending < 0 then f
    else if r.Failed? then ChipErase(g, f, p.pendingAddr, r)
    else ChipProgram(g, f, p.pendingAddr, p.ram[p.pending][..p.pendingBytes])
  }

  predicate FlushFails(p: Buffers, r: EraseResult) {
    p.pending >= 0 && r.Failed?
  }

  function ProgressFor(g: Geometry, job: Job, s: nat): ToHost
    requires 0 < g.sector
  {
    Progress((s + 1) % 0x10000, NumSectors(g, job.size) % 0x10000)
  }

  /** The main loop on one packet: anything that is not a request is answered with an error. */
  function OnIdle(g: Geometry, f: seq<byte>, ram: seq<seq<byte>>, frame: ToAgent): Outcome
    requires 0 < g.sector && |ram| == 2 && |ram[0]| == |ram[1]| == BUFFER_SIZE
  {
    match frame
    case Chunk(_, _) => Outcome(Idle, f, [Ack(ACK_CRC_ERROR)])
    case Stream(addr, size, _, bitmap) =>
      if size == 0 || (addr + size) % WORD > |f| then
        Outcome(Idle, f, [Ack(ACK_FLASH_ERROR)])
      else if |bitmap| < (NumSectors(g, size) + 7) / 8 then
        Outcome(Idle, f, [Ack(ACK_CRC_ERROR)])
      else
        Outcome(AtSector(Job(addr, size, bitmap), 0, Pipeline(ram, 0, -1, 0, 0)), f, [Ack(ACK_OK)])
  }

  /** One turn of the sector loop, up to the next `proto_recv`. `r1` is the outcome of erasing the
      pending sector, `r2` that of erasing a skipped one. */
  function OnSector(g: Geometry, f: seq<byte>, a: Agent, r1: EraseResult, r2: EraseResult): Outcome
    requires 0 < g.sector && 0 < g.page && a.AtSector?
  {
    var n := NumSectors(g, a.job.size);
    if a.s < n && BitSet(a.job.bitmap, a.s) then
      Outcome(Receiving(a.job, a.s, a.p, 0), f, [])
    else
      var f1 := Flush(g, f, a.p, r1);
      if FlushFails(a.p, r1) then Outcome(Idle, f1, [Ack(ACK_FLASH_ERROR)])
      else if a.s >= n then Outcome(Idle, f1, [Ack(ACK_OK)])
      else OnSkipped(g, f1, a, r2)
  }

  /** Erase a sector that is all 0xFF in the image, and report it. */
  function OnSkipped(g: Geometry, f1: seq<byte>, a: Agent, r2: EraseResult): Outcome
    requires 0 < g.sector && a.AtSector?
  {
    var f2 := ChipErase(g, f1, a.job.addr + a.s * g.sector, r2);
    if r2.Failed? then Outcome(Idle, f2, [Ack(ACK_FLASH_ERROR)])
    else Outcome(AtSector(a.job, a.s + 1, a.p.(pending := -1)), f2, [ProgressFor(g, a.job, a.s)])
  }

  /** Bytes of a chunk copied into the receive buffer; the copy stops at the end of the sector. */
  function Taken(g: Geometry, a: Agent, data: seq<byte>): nat
    requires a.Receiving?
  {
    var room := Min(SectorBytes(g, a.job.size, a.s), BUFFER_SIZE) - a.got;
    if room <= 0 then 0 else Min(|data|, room)
  }

  function Store(p: Buffers, at: nat, d: seq<byte>): (p': Buffers)
    requires at + |d| <= BUFFER_SIZE
    ensures p' == p.(ram := p.ram[p.rx := Splice(p.ram[p.rx], at, d)])
  {
    p.(ram := p.ram[p.rx := Splice(p.ram[p.rx], at, d)])
  }

  /** The receive loop on one result of `proto_recv`; `None` is its 0, for a timeout or a bad frame.
      `r` is the outcome of erasing the pending sector once this one is complete. */
  function OnReceive(g: Geometry, f: seq<byte>, a: Agent, frame: Option<ToAgent>, r: EraseResult): Outcome
    requires 0 < g.sector && 0 < g.page && a.Receiving?
  {
    match frame
    case None => Outcome(Idle, f, [Ack(ACK_FLASH_ERROR)])
    case Some(Stream(_, _, _, _)) => Outcome(a, f, [])
    case Some(Chunk(_, data)) =>
      var k := Taken(g, a, data);
      if k == 0 then Outcome(a, f, []) else
      var p := Store(a.p, a.got, data[..k]);
      if a.got + k < SectorBytes(g, a.job.size, a.s) then
        Outcome(Receiving(a.job, a.s, p, a.got + k), f, [])
      else SectorReceived(g, f, a.job, a.s, p, r)
  }

  /** Report the sector, flush the previous one, and swap buffers. */
  function SectorReceived(g: Geometry, f: seq<byte>, job: Job, s: nat, p: Buffers, r: EraseResult): Outcome
    requires 0 < g.sector && 0 < g.page
  {
    var f1 := Flush(g, f, p, r);
    if FlushFails(p, r) then Outcome(Idle, f1, [ProgressFor(g, job, s), Ack(ACK_FLASH_ERROR)])
    else
      var bytes := SectorBytes(g, job.size, s);
      var p' := Pipeline(p.ram, 1 - p.rx, p.rx, job.addr + s * g.sector,
                         if 0 <= bytes <= BUFFER_SIZE then bytes else 0);
      Outcome(AtSector(job, s + 1, p'), f1, [ProgressFor(g, job, s)])
  }
}
