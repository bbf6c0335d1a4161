/**
  The packets of a flash stream as bytes: what the host packs and the agent unpacks, and the other way round
  (agent/main.c:843-888, 905-963, src/defib/agent/client.py:679-735).
 */
module StreamWire {
  import opened Bytes
  import opened Octets
  import Cobs
  import Packet
  import AgentRx
  import Receiver
  import StreamTypes

  const CmdFlashStream: byte := 0x0B
  const RspData: byte := 0x82
  const RspAck: byte := 0x83

  function Le16(n: nat): (r: seq<byte>)
    ensures |r| == 2
  {
    [Octet(n), Octet(n / 0x100)]
  }

  function Nat16(b: seq<byte>): nat
    requires |b| == 2
  {
    Value(b[0]) + 0x100 * Value(b[1])
  }

  function Le32(n: nat): (r: seq<byte>)
    ensures |r| == 4
  {
    Le16(n % 0x10000) + Le16(n / 0x10000)
  }

  function Nat32(b: seq<byte>): nat
    requires |b| == 4
  {
    Nat16(b[..2]) + 0x10000 * Nat16(b[2..])
  }

  lemma Nat16Of(low: byte, high: byte)
    ensures Nat16([low, high]) == Value(low) + 0x100 * Value(high)
  {
  }

  lemma Le16RoundTrip(n: nat)
    requires n < 0x10000
    ensures Nat16(Le16(n)) == n
  {
    OctetValue(n);
    OctetValue(n / 0x100);
    Digits(n);
    Nat16Of(Octet(n), Octet(n / 0x100));
  }

  lemma Le32RoundTrip(n: nat)
    requires n < 0x1_0000_0000
    ensures Nat32(Le32(n)) == n
  {
    Le16RoundTrip(n % 0x10000);
    Le16RoundTrip(n / 0x10000);
    assert Le32(n)[..2] == Le16(n % 0x10000) && Le32(n)[2..] == Le16(n / 0x10000);
  }

  // ---------------------------------------------------------------- host to agent

  /** What `write_flash` passes to `send_packet`. */
  function HostPacks(m: StreamTypes.ToAgent): Packet.Message {
    match m
    case Stream(addr, size, crc, bitmap) =>
      Packet.Message(CmdFlashStream, Le32(addr) + Le32(size) + Packet.PackCrc(crc) + bitmap)
    case Chunk(seqNo, data) => Packet.Message(RspData, Le16(seqNo) + data)
  }

  /** How the agent reads a packet: a stream request from 12 bytes on, data from 3 bytes on. */
  function AgentUnpacks(p: Packet.Message): Option<StreamTypes.ToAgent> {
    var d := p.data;
    if p.cmd == CmdFlashStream && |d| >= 12 then
      Some(StreamTypes.Stream(Nat32(d[0..4]), Nat32(d[4..8]), Packet.UnpackCrc(d[8..12]), d[12..]))
    else if p.cmd == RspData && |d| > 2 then Some(StreamTypes.Chunk(Nat16(d[..2]), d[2..]))
    else None
  }

  /** The place of every byte: command 0x0B, then address, size and CRC in four bytes each, the least significant first,
      then the bitmap; command 0x82, then the number in two bytes, then the data. */
  lemma HostLayout(m: StreamTypes.ToAgent)
    requires Packable(m)
    ensures var p := HostPacks(m);
            match m
            case Stream(addr, size, crc, bitmap) =>
              && p.cmd == 0x0B && |p.data| == 12 + |bitmap| && p.data[12..] == bitmap && p.data[8..12] == Packet.PackCrc(crc)
              && Digits4(p.data[0], p.data[1], p.data[2], p.data[3]) == addr
              && Digits4(p.data[4], p.data[5], p.data[6], p.data[7]) == size
            case Chunk(seqNo, data) =>
              && p.cmd == 0x82 && |p.data| == 2 + |data| && p.data[2..] == data
              && p.data[0] as nat + 0x100 * p.data[1] as nat == seqNo
  {
    match m {
      case Stream(addr, size, crc, bitmap) =>
        StreamLayout(addr, size, Packet.PackCrc(crc), bitmap);
      case Chunk(seqNo, data) =>
        var d := Le16(seqNo) + data;
        Le16RoundTrip(seqNo);
        assert d[2..] == data && d[0] == Le16(seqNo)[0] && d[1] == Le16(seqNo)[1];
    }
  }

  function Digits4(a: byte, b: byte, c: byte, d: byte): nat {
    a as nat + 0x100 * b as nat + 0x1_0000 * c as nat + 0x100_0000 * d as nat
  }

  lemma Digits4Of(w: seq<byte>, n: nat)
    requires n < 0x1_0000_0000 && w == Le32(n)
    ensures Digits4(w[0], w[1], w[2], w[3]) == n
  {
    Le32RoundTrip(n);
    var low, high := w[..2], w[2..];
    assert low[0] == w[0] && low[1] == w[1] && high[0] == w[2] && high[1] == w[3];
  }

  lemma StreamLayout(addr: nat, size: nat, crc: seq<byte>, bitmap: seq<byte>)
    requires addr < 0x1_0000_0000 && size < 0x1_0000_0000 && |crc| == 4
    ensures var d := Le32(addr) + Le32(size) + crc + bitmap;
            && |d| == 12 + |bitmap| && d[12..] == bitmap && d[8..12] == crc
            && Digits4(d[0], d[1], d[2], d[3]) == addr && Digits4(d[4], d[5], d[6], d[7]) == size
  {
    var a, s := Le32(addr), Le32(size);
    var d := a + s + crc + bitmap;
    assert d[12..] == bitmap && d[8..12] == crc;
    assert d[0] == a[0] && d[1] == a[1] && d[2] == a[2] && d[3] == a[3];
    assert d[4] == s[0] && d[5] == s[1] && d[6] == s[2] && d[7] == s[3];
    Digits4Of(a, addr);
    Digits4Of(s, size);
  }

  /** Fields that fit their place on the wire, in a packet that fits the agent's buffers. */
  predicate Packable(m: StreamTypes.ToAgent) {
    match m
    case Stream(addr, size, _, bitmap) =>
      addr < 0x1_0000_0000 && size < 0x1_0000_0000 && |bitmap| <= Packet.MaxPayload - 12
    case Chunk(seqNo, data) => seqNo < 0x10000 && 0 < |data| <= Packet.MaxPayload - 2
  }

  lemma AgentReadsStream(addr: nat, size: nat, crc: bv32, bitmap: seq<byte>)
    requires addr < 0x1_0000_0000 && size < 0x1_0000_0000
    ensures AgentUnpacks(HostPacks(StreamTypes.Stream(addr, size, crc, bitmap)))
            == Some(StreamTypes.Stream(addr, size, crc, bitmap))
  {
    var d := Le32(addr) + Le32(size) + Packet.PackCrc(crc) + bitmap;
    assert d[0..4] == Le32(addr) && d[4..8] == Le32(size) && d[8..12] == Packet.PackCrc(crc) && d[12..] == bitmap;
    Le32RoundTrip(addr);
    Le32RoundTrip(size);
    Packet.CrcRoundTrip(crc);
  }

  lemma AgentReadsHost(m: StreamTypes.ToAgent)
    requires Packable(m)
    ensures AgentUnpacks(HostPacks(m)) == Some(m)
  {
    match m {
      case Stream(addr, size, crc, bitmap) => AgentReadsStream(addr, size, crc, bitmap);
      case Chunk(seqNo, data) =>
        var d := Le16(seqNo) + data;
        assert d[..2] == Le16(seqNo) && d[2..] == data;
        Le16RoundTrip(seqNo);
    }
  }

  // ---------------------------------------------------------------- agent to host

  function AgentPacks(m: StreamTypes.ToHost): Packet.Message {
    match m
    case Ready => Packet.Message(Receiver.RspReady, [0x44, 0x45, 0x46, 0x49, 0x42])
    case Ack(status) => Packet.Message(RspAck, [Octet(status)])
    case Progress(done, total) => Packet.Message(RspData, Le16(done) + Le16(total))
  }

  function HostUnpacks(p: Packet.Message): Option<StreamTypes.ToHost> {
    var d := p.data;
    if p.cmd == Receiver.RspReady then Some(StreamTypes.Ready)
    else if p.cmd == RspAck && |d| >= 1 then Some(StreamTypes.Ack(Value(d[0])))
    else if p.cmd == RspData && |d| >= 4 then Some(StreamTypes.Progress(Nat16(d[..2]), Nat16(d[2..4])))
    else None
  }

  predicate Reportable(m: StreamTypes.ToHost) {
    match m
    case Ready => true
    case Ack(status) => status < 0x100
    case Progress(done, total) => done < 0x10000 && total < 0x10000
  }

  /** And towards the host: "DEFIB" under 0x85, one byte under 0x83, two numbers of two bytes under 0x82. */
  lemma AgentLayout(m: StreamTypes.ToHost)
    requires Reportable(m)
    ensures var p := AgentPacks(m);
            match m
            case Ready => p == Packet.Message(0x85, [0x44, 0x45, 0x46, 0x49, 0x42])
            case Ack(status) => p.cmd == 0x83 && |p.data| == 1 && p.data[0] as nat == status
            case Progress(done, total) =>
              && p.cmd == 0x82 && |p.data| == 4
              && p.data[0] as nat + 0x100 * p.data[1] as nat == done
              && p.data[2] as nat + 0x100 * p.data[3] as nat == total
  {
    match m {
      case Ready =>
      case Ack(status) => AckLayout(status);
      case Progress(done, total) => ProgressLayout(done, total);
    }
  }

  /** The bytes of the three answers. */
  lemma AckBytes()
    ensures AgentPacks(StreamTypes.Ack(StreamTypes.ACK_OK)).data == [0x00]
    ensures AgentPacks(StreamTypes.Ack(StreamTypes.ACK_CRC_ERROR)).data == [0x01]
    ensures AgentPacks(StreamTypes.Ack(StreamTypes.ACK_FLASH_ERROR)).data == [0x02]
  {
    assert ByteOf(0) == 0 && ByteOf(1) == Next(ByteOf(0)) && ByteOf(2) == Next(ByteOf(1));
  }

  /** A packet with up to four consecutive bytes of its contents damaged is nothing to the agent: command 0, which the
      stream handler takes for silence. */
  lemma DamageIsNothing(a: seq<byte>, u: seq<byte>, v: seq<byte>, b: seq<byte>)
    requires |u| == |v| <= 4 && u != v && a + u + b != []
    ensures var m := AgentRx.Verdict(Cobs.Encode(a + v + b + Packet.PackCrc(Packet.Checksum(a + u + b))));
            m.cmd == 0 && AgentUnpacks(m) == None
  {
    Packet.DamageRejected(a, u, v, b);
    Cobs.RoundTrip(a + v + b + Packet.PackCrc(Packet.Checksum(a + u + b)));
  }

  lemma AckLayout(status: nat)
    requires status < 0x100
    ensures [Octet(status)][0] as nat == status
  {
    OctetValue(status);
  }

  lemma ProgressLayout(done: nat, total: nat)
    requires done < 0x10000 && total < 0x10000
    ensures var d := Le16(done) + Le16(total);
            && d[0] as nat + 0x100 * d[1] as nat == done && d[2] as nat + 0x100 * d[3] as nat == total
  {
    Le16RoundTrip(done);
    Le16RoundTrip(total);
    ProgressBytes(Le16(done), Le16(total));
  }

  lemma ProgressBytes(a: seq<byte>, b: seq<byte>)
    requires |a| == 2 && |b| == 2
    ensures (a + b)[0] == a[0] && (a + b)[1] == a[1] && (a + b)[2] == b[0] && (a + b)[3] == b[1]
  {
  }

  lemma HostReadsAck(status: nat, b: byte)
    requires Value(b) == status
    ensures HostUnpacks(Packet.Message(RspAck, [b])) == Some(StreamTypes.Ack(status))
  {
  }

  lemma HostReadsProgress(done: nat, total: nat, a: seq<byte>, b: seq<byte>)
    requires |a| == 2 && |b| == 2 && Nat16(a) == done && Nat16(b) == total
    ensures HostUnpacks(Packet.Message(RspData, a + b)) == Some(StreamTypes.Progress(done, total))
  {
    var d := a + b;
    assert d[..2] == a && d[2..4] == b;
  }

  lemma HostReadsAgent(m: StreamTypes.ToHost)
    requires Reportable(m)
    ensures HostUnpacks(AgentPacks(m)) == Some(m)
  {
    match m {
      case Ready =>
      case Ack(status) =>
        OctetValue(status);
        HostReadsAck(status, Octet(status));
      case Progress(done, total) =>
        Le16RoundTrip(done);
        Le16RoundTrip(total);
        HostReadsProgress(done, total, Le16(done), Le16(total));
    }
  }

  // ---------------------------------------------------------------- the links are FIFOs of packets

  /** The bytes of a link that holds `ch`. */
  function WireToAgent(ch: seq<StreamTypes.ToAgent>): seq<byte> {
    if ch == [] then [] else Packet.Build(HostPacks(ch[0])) + WireToAgent(ch[1..])
  }

  function WireToHost(ch: seq<StreamTypes.ToHost>): seq<byte> {
    if ch == [] then [] else Packet.Build(AgentPacks(ch[0])) + WireToHost(ch[1..])
  }

  /** The next `proto_recv` on a link holding `ch` yields `ch[0]`, and the link then holds the rest. */
  lemma AgentTakesFirst(ch: seq<StreamTypes.ToAgent>)
    requires ch != [] && Packable(ch[0])
    ensures var r := AgentRx.NextFrame([], WireToAgent(ch));
            && r.Some? && |r.value.0| <= AgentRx.RawSize
            && AgentUnpacks(AgentRx.Verdict(r.value.0)) == Some(ch[0])
            && r.value.1 == WireToAgent(ch[1..])
  {
    AgentRx.AgentReceives(HostPacks(ch[0]), WireToAgent(ch[1..]));
    AgentReadsHost(ch[0]);
  }

  /** The next `recv_packet` on a link holding `ch` yields `ch[0]`, and the link then holds the rest. */
  lemma HostTakesFirst(ch: seq<StreamTypes.ToHost>)
    requires ch != [] && Reportable(ch[0])
    ensures var r := Receiver.Receive([], WireToHost(ch));
            r.Some? && HostUnpacks(r.value.0) == Some(ch[0]) && r.value.1 == WireToHost(ch[1..])
  {
    Receiver.ReceivePacket(AgentPacks(ch[0]), WireToHost(ch[1..]));
    HostReadsAgent(ch[0]);
  }
}
