/**
  Packets on the wire: command, data and CRC-32, COBS-framed and ended by a zero byte
  (src/defib/agent/protocol.py:74-92, agent/protocol.c:93-115).
 */
module Packet {
  import opened Bytes
  import Cobs
  import Crc32

  datatype Message = Message(cmd: byte, data: seq<byte>)

  const MaxPayload: nat := 1024
  const MaxPacketSize: nat := 1100

  function Low8(c: bv32): byte {
    (c & 0xFF) as bv8
  }

  /** `struct.pack("<I", c)` */
  function PackCrc(c: bv32): (r: seq<byte>)
    ensures |r| == 4
  {
    [Low8(c), Low8(c >> 8), Low8(c >> 16), Low8(c >> 24)]
  }

  function Word32(a: byte, b: byte, c: byte, d: byte): bv32 {
    (a as bv32) | ((b as bv32) << 8) | ((c as bv32) << 16) | ((d as bv32) << 24)
  }

  /** `struct.unpack("<I", b)` */
  function UnpackCrc(b: seq<byte>): bv32
    requires |b| == 4
  {
    Word32(b[0], b[1], b[2], b[3])
  }

  lemma WordSplit(c: bv32)
    ensures Word32(Low8(c), Low8(c >> 8), Low8(c >> 16), Low8(c >> 24)) == c
  {
  }

  lemma CrcRoundTrip(c: bv32)
    ensures UnpackCrc(PackCrc(c)) == c
  {
    WordSplit(c);
  }

  lemma WordBytes(a: byte, b: byte, c: byte, d: byte)
    ensures Crc32.Prefix(a, Crc32.Prefix(b, Crc32.Prefix(c, Crc32.Prefix(d, 0)))) == Word32(a, b, c, d)
  {
  }

  /** Any data with its CRC behind it, packed as on the wire, has the CRC-32 residue: this fixes the inversions on the
      way in and out, and the order of the four bytes. */
  lemma Residue(d: seq<byte>)
    ensures Crc32.Crc(0, d + PackCrc(Crc32.Crc(0, d))) == 0x2144DF1C
  {
    var u := PackCrc(Crc32.Crc(0, d));
    WordBytes(u[0], u[1], u[2], u[3]);
    WordSplit(Crc32.Crc(0, d));
    Crc32.Residue(d, u);
  }

  lemma WordInjective(a: byte, b: byte, c: byte, d: byte)
    ensures var w := Word32(a, b, c, d);
            Low8(w) == a && Low8(w >> 8) == b && Low8(w >> 16) == c && Low8(w >> 24) == d
  {
  }

  lemma CrcOfWord(b: seq<byte>)
    requires |b| == 4
    ensures PackCrc(UnpackCrc(b)) == b
  {
    WordInjective(b[0], b[1], b[2], b[3]);
  }

  function Checksum(raw: seq<byte>): bv32 {
    Crc32.Crc(0, raw)
  }

  function Raw(m: Message): seq<byte> {
    [m.cmd] + m.data
  }

  /** What goes between two delimiters. */
  function Frame(m: Message): seq<byte> {
    Cobs.Encode(Raw(m) + PackCrc(Checksum(Raw(m))))
  }

  /** `build_packet` */
  function Build(m: Message): seq<byte> {
    Frame(m) + [0x00]
  }

  /** `decoded` split into payload and CRC, and the CRC compared. */
  function Check(decoded: seq<byte>): Option<Message> {
    if |decoded| < 5 then None
    else
      var payload := decoded[..|decoded| - 4];
      if Checksum(payload) != UnpackCrc(decoded[|decoded| - 4..]) then None
      else Some(Message(payload[0], payload[1..]))
  }

  /** `parse_packet`; `None` stands for the ValueError the receivers swallow. */
  function Parse(frame: seq<byte>): Option<Message> {
    match Cobs.Decode(frame)
    case None => None
    case Some(decoded) => Check(decoded)
  }

  lemma CheckBuilt(m: Message, crc: seq<byte>)
    requires |crc| == 4
    ensures Check(Raw(m) + crc) == if PackCrc(Checksum(Raw(m))) == crc then Some(m) else None
  {
    var d := Raw(m) + crc;
    assert d[..|d| - 4] == Raw(m) && d[|d| - 4..] == crc;
    CrcRoundTrip(Checksum(Raw(m)));
    CrcOfWord(crc);
    assert Raw(m)[1..] == m.data;
  }

  /** Every packet survives the trip: any command, any data. */
  lemma ParseBuild(m: Message)
    ensures Parse(Frame(m)) == Some(m)
  {
    Cobs.RoundTrip(Raw(m) + PackCrc(Checksum(Raw(m))));
    CheckBuilt(m, PackCrc(Checksum(Raw(m))));
  }

  /** On the wire: the delimiter, and before it the encoding of command, data and four bytes more with which the whole
      has the residue of CRC-32. */
  lemma OnTheWire(m: Message)
    ensures Build(m) == Frame(m) + [0x00]
    ensures Cobs.Decode(Frame(m)).Some?
    ensures var u := Cobs.Decode(Frame(m)).value;
            |u| == |m.data| + 5 && u[0] == m.cmd && u[1..|m.data| + 1] == m.data && Crc32.Crc(0, u) == 0x2144DF1C
  {
    var raw := Raw(m);
    Cobs.RoundTrip(raw + PackCrc(Checksum(raw)));
    Residue(raw);
    var u := raw + PackCrc(Checksum(raw));
    assert u[1..|m.data| + 1] == m.data;
  }

  /** A packet has one zero byte, its last, and never the same bytes as another packet. */
  lemma BuildShape(m: Message)
    ensures Cobs.NoZero(Frame(m)) && 0 < |Frame(m)| <= |m.data| + 5 + (|m.data| + 5) / 254 + 1
  {
    Cobs.EncodeShape(Raw(m) + PackCrc(Checksum(Raw(m))));
  }

  /** A packet has seven bytes beside its data: command, CRC, at least one code byte, and the delimiter. */
  lemma BuildGrows(m: Message)
    ensures |Build(m)| >= |m.data| + 7
  {
    Cobs.EncodingGrows(Raw(m) + PackCrc(Checksum(Raw(m))), []);
  }

  lemma BuildInjective(m: Message, n: Message)
    ensures Build(m) == Build(n) ==> m == n
  {
    ParseBuild(m);
    ParseBuild(n);
    if Build(m) == Build(n) {
      assert Frame(m) == Build(m)[..|Build(m)| - 1] == Frame(n);
    }
  }

  /** The largest packet either side sends fits every buffer on the way: the host's cap of 1100 bytes,
      and the agent's 1056-byte frame and 1040-byte raw buffers. */
  lemma FitsBuffers(m: Message)
    requires |m.data| <= MaxPayload
    ensures |Frame(m)| <= 1034 <= MaxPacketSize && |Build(m)| <= 1035 <= MaxPayload + 32
    ensures |Raw(m)| + 4 <= 1029 <= MaxPayload + 16
  {
    BuildShape(m);
  }

  /** Damage confined to four consecutive bytes of command and data is always rejected, and so is any damage
      confined to the CRC. */
  lemma DamageRejected(a: seq<byte>, u: seq<byte>, v: seq<byte>, b: seq<byte>)
    requires |u| == |v| <= 4 && u != v && a + u + b != []
    ensures Check(a + v + b + PackCrc(Checksum(a + u + b))) == None
  {
    Crc32.BurstDetected(0, a, u, v, b);
    var raw := a + v + b;
    assert raw != [];
    var m := Message(raw[0], raw[1..]);
    assert Raw(m) == raw;
    var crc := PackCrc(Checksum(a + u + b));
    CrcRoundTrip(Checksum(a + u + b));
    CrcRoundTrip(Checksum(raw));
    CheckBuilt(m, crc);
  }

  lemma CrcDamageRejected(m: Message, crc: seq<byte>)
    requires |crc| == 4 && crc != PackCrc(Checksum(Raw(m)))
    ensures Check(Raw(m) + crc) == None
  {
    CheckBuilt(m, crc);
  }

  // ---------------------------------------------------------------- the C code

  /** `proto_send`: the static buffers `tx_raw` and `tx_cobs`, and what goes out on the UART. */
  method ProtoSend(cmd: byte, data: seq<byte>, txRaw: array<byte>, txCobs: array<byte>) returns (wire: seq<byte>)
    requires |data| <= MaxPayload && txRaw != txCobs
    requires txRaw.Length == MaxPayload + 16 && txCobs.Length == MaxPayload + 32
    modifies txRaw, txCobs
    ensures wire == Build(Message(cmd, data))
  {
    ghost var m := Message(cmd, data);
    txRaw[0] := cmd;
    forall i | 0 <= i < |data| {
      txRaw[1 + i] := data[i];
    }
    var rawLen := 1 + |data|;
    assert txRaw[..rawLen] == Raw(m);
    var crc := Crc32.CrcC(0, txRaw[..rawLen]);
    StoreCrc(txRaw, rawLen, crc);
    rawLen := rawLen + 4;
    var cobsLen := Cobs.EncodeC(txRaw[..rawLen], txCobs);
    wire := txCobs[..cobsLen] + [0x00];
  }

  method StoreCrc(p: array<byte>, at: nat, crc: bv32)
    requires at + 4 <= p.Length
    modifies p
    ensures p[..at + 4] == old(p[..at]) + PackCrc(crc)
  {
    p[at] := Low8(crc >> 0);
    p[at + 1] := Low8(crc >> 8);
    p[at + 2] := Low8(crc >> 16);
    p[at + 3] := Low8(crc >> 24);
    ShiftNone(crc);
    assert p[..at] == old(p[..at]);
  }

  lemma ShiftNone(c: bv32)
    ensures c >> 0 == c
  {
  }
}
