/**
  The host's half: `write_flash` as the steps between two packets sent or received
  (src/defib/agent/client.py:647-740).
 */
module StreamHost {
  import opened Bytes
  import opened Flash
  import opened StreamTypes

  /** `WRITE_CHUNK_SIZE` is 512; the model keeps it symbolic. */
  datatype Request = Request(g: Geometry, addr: nat, image: seq<byte>, bitmap: seq<byte>, crc: bv32, chunk: nat) {
    ghost predicate Valid() {
      0 < g.sector && 0 < chunk && IsBitmap(g, image, bitmap)
    }
  }

  datatype Pc =
    | Start
    | AwaitAccept
    | SectorTop
    | Sending
    | AwaitProgress
    | AwaitFinal
    | Returned(ok: bool)
    | Raised

  /** `s` is the loop variable, `sent` the bytes of sector `s` already written to the port. */
  datatype Host = Host(pc: Pc, s: nat, sent: nat)

  predicate Waiting(pc: Pc) {
    pc.AwaitAccept? || pc.AwaitProgress? || pc.AwaitFinal?
  }

  /** One step that does not wait: the next packet to send, if any. */
  function Advance(q: Request, h: Host): (Host, seq<ToAgent>)
    requires 0 < q.g.sector && 0 < q.chunk
  {
    match h.pc
    case Start => (h.(pc := AwaitAccept), [Stream(q.addr, |q.image|, q.crc, q.bitmap)])
    case SectorTop =>
      if h.s >= NumSectors(q.g, |q.image|) then (h.(pc := AwaitFinal), [])
      else if BitSet(q.bitmap, h.s) then (h.(pc := Sending), [])
      else (h.(pc := AwaitProgress), [])
    case Sending =>
      var from := h.s * q.g.sector + h.sent;
      var left := SectorBytes(q.g, |q.image|, h.s) - h.sent;
      if left <= 0 || from > |q.image| then (h.(pc := AwaitProgress), [])
      else if SeqNo(q, h) > 0xFFFF then (h.(pc := Raised), [])   // struct.pack("<H", ...) refuses
      else
        var k := Min(q.chunk, Min(left, |q.image| - from));
        (h.(sent := h.sent + k), [Chunk(SeqNo(q, h), q.image[from..from + k])])
    case _ => (h, [])
  }

  /** `offset // WRITE_CHUNK_SIZE`, counted up once per packet of the sector. */
  function SeqNo(q: Request, h: Host): nat
    requires 0 < q.chunk
  {
    h.s * q.g.sector / q.chunk + h.sent / q.chunk
  }

  /** One received packet while waiting. */
  function OnPacket(h: Host, m: ToHost): Host {
    match (h.pc, m)
    case (_, Ready) => h
    case (AwaitAccept, Ack(status)) => if status == ACK_OK then h.(pc := SectorTop) else h.(pc := Returned(false))
    case (AwaitAccept, Progress(_, _)) => h.(pc := Returned(false))
    case (AwaitProgress, Progress(_, _)) => Host(SectorTop, h.s + 1, 0)
    case (AwaitProgress, Ack(status)) => h.(pc := Returned(status == ACK_OK))
    case (AwaitFinal, Ack(status)) => h.(pc := Returned(status == ACK_OK))
    case (AwaitFinal, Progress(_, _)) => h
    case _ => h
  }
}
