/**
  The host's packet receivers (src/defib/agent/protocol.py:115-274), read by read, against a specification that
  sees only the byte stream.
 */
module Receiver {
  import opened Bytes
  import Cobs
  import opened Packet

  /** A non-zero byte joins the frame; a frame that grows past the limit is dropped. */
  function Push(frame: seq<byte>, b: byte): seq<byte> {
    if |frame| + 1 > MaxPacketSize then [] else frame + [b]
  }

  /** The first packet of `s`, with `frame` already collected, and the bytes after its delimiter. */
  function Receive(frame: seq<byte>, s: seq<byte>): Option<(Message, seq<byte>)>
    decreases |s|
  {
    if s == [] then None
    else if s[0] != 0 then Receive(Push(frame, s[0]), s[1..])
    else if frame != [] && Parse(frame).Some? then Some((Parse(frame).value, s[1..]))
    else Receive([], s[1..])
  }

  /** The frame collected once `s` is used up. */
  function Carry(frame: seq<byte>, s: seq<byte>): seq<byte>
    decreases |s|
  {
    if s == [] then frame
    else if s[0] != 0 then Carry(Push(frame, s[0]), s[1..])
    else Carry([], s[1..])
  }

  lemma {:induction false} ReceiveShorter(frame: seq<byte>, s: seq<byte>)
    ensures match Receive(frame, s)
            case None => true
            case Some(r) => |r.1| < |s| && r.1 == s[|s| - |r.1|..] && s[|s| - |r.1| - 1] == 0
    decreases |s|
  {
    if s != [] {
      ReceiveShorter(if s[0] != 0 then Push(frame, s[0]) else [], s[1..]);
    }
  }

  /** All packets of a byte stream: what repeated receives return. */
  function Packets(s: seq<byte>): seq<Message>
    decreases |s|
  {
    match Receive([], s)
    case None => []
    case Some(r) =>
      ReceiveShorter([], s);
      [r.0] + Packets(r.1)
  }

  function Wire(ps: seq<Message>): seq<byte> {
    if ps == [] then [] else Build(ps[0]) + Wire(ps[1..])
  }

  // ---------------------------------------------------------------- cutting the stream

  /** Cutting the stream anywhere changes nothing, as long as the frame is kept. */
  lemma {:induction false} ReceiveSplit(frame: seq<byte>, a: seq<byte>, b: seq<byte>)
    ensures Receive(frame, a + b)
            == match Receive(frame, a)
               case Some(r) => Some((r.0, r.1 + b))
               case None => Receive(Carry(frame, a), b)
    decreases |a|
  {
    if a == [] {
      assert a + b == b;
    } else {
      assert (a + b)[1..] == a[1..] + b && (a + b)[0] == a[0];
      ReceiveSplit(if a[0] != 0 then Push(frame, a[0]) else [], a[1..], b);
    }
  }

  lemma {:induction false} CarrySplit(frame: seq<byte>, a: seq<byte>, b: seq<byte>)
    ensures Carry(frame, a + b) == Carry(Carry(frame, a), b)
    decreases |a|
  {
    if a == [] {
      assert a + b == b;
    } else {
      assert (a + b)[1..] == a[1..] + b && (a + b)[0] == a[0];
      CarrySplit(if a[0] != 0 then Push(frame, a[0]) else [], a[1..], b);
    }
  }

  /** Nothing is pending right after a delimiter. */
  lemma CarryDelimited(frame: seq<byte>, s: seq<byte>)
    ensures Carry(frame, s + [0]) == []
  {
    CarrySplit(frame, s, [0]);
    assert [0 as byte][1..] == [];
  }

  /** A frame keeps its first 1100 bytes; the next one drops them all. */
  lemma CapIs(frame: seq<byte>, b: byte)
    requires b != 0
    ensures Carry(frame, [b]) == if |frame| < 1100 then frame + [b] else []
  {
    assert [b][1..] == [];
  }

  lemma {:induction false} CarryFrame(frame: seq<byte>, s: seq<byte>)
    requires Cobs.NoZero(s) && |frame| + |s| <= MaxPacketSize
    ensures Carry(frame, s) == frame + s && Receive(frame, s) == None
    decreases |s|
  {
    if s == [] {
      assert frame + s == frame;
    } else {
      CarryFrame(frame + [s[0]], s[1..]);
      assert frame + [s[0]] + s[1..] == frame + s;
    }
  }

  lemma ReceiveFrame(f: seq<byte>, m: Message, rest: seq<byte>)
    requires f != [] && Cobs.NoZero(f) && |f| <= MaxPacketSize && Parse(f) == Some(m)
    ensures Receive([], f + [0x00] + rest) == Some((m, rest))
  {
    CarryFrame([], f);
    assert [] + f == f;
    var tail := [0x00] + rest;
    assert f + [0x00] + rest == f + tail;
    ReceiveSplit([], f, tail);
    assert tail[1..] == rest && tail[0] == 0x00;
  }

  /** A packet in front is the packet received, and everything after it is left. */
  lemma ReceivePacket(m: Message, rest: seq<byte>)
    requires |m.data| <= MaxPayload
    ensures Receive([], Build(m) + rest) == Some((m, rest))
  {
    FitsBuffers(m);
    BuildShape(m);
    ParseBuild(m);
    ReceiveFrame(Frame(m), m, rest);
  }

  ghost predicate Sendable(ps: seq<Message>) {
    forall p | p in ps :: |p.data| <= MaxPayload
  }

  /** Repeated receives return exactly the packets sent, in order. */
  lemma {:induction false} PacketsOfWire(ps: seq<Message>)
    requires Sendable(ps)
    ensures Packets(Wire(ps)) == ps
  {
    if ps != [] {
      ReceivePacket(ps[0], Wire(ps[1..]));
      PacketsOfWire(ps[1..]);
    }
  }

  /** Any bytes whatever, ended by a delimiter, cost no later packet. */
  lemma {:induction false} GarbageCostsNothing(g: seq<byte>, s: seq<byte>)
    requires g == [] || g[|g| - 1] == 0
    ensures Packets(g + s) == Packets(g) + Packets(s)
    decreases |g|
  {
    ReceiveSplit([], g, s);
    match Receive([], g) {
      case None =>
        if g != [] {
          CarryDelimited([], g[..|g| - 1]);
          assert g[..|g| - 1] + [0] == g;
        }
        assert Packets(g) == [] && [] + Packets(s) == Packets(s);
      case Some(r) =>
        ReceiveShorter([], g);
        GarbageCostsNothing(r.1, s);
        assert [r.0] + (Packets(r.1) + Packets(s)) == [r.0] + Packets(r.1) + Packets(s);
    }
  }

  lemma GarbageThenPackets(g: seq<byte>, ps: seq<Message>)
    requires Sendable(ps) && (g == [] || g[|g| - 1] == 0)
    ensures Packets(g + Wire(ps)) == Packets(g) + ps
  {
    GarbageCostsNothing(g, Wire(ps));
    PacketsOfWire(ps);
  }

  lemma {:induction false} NoDelimiterNoPacket(frame: seq<byte>, t: seq<byte>)
    requires Cobs.NoZero(t)
    ensures Receive(frame, t) == None
    decreases |t|
  {
    if t != [] {
      NoDelimiterNoPacket(Push(frame, t[0]), t[1..]);
    }
  }

  /** What is left of a frame after a timeout inside it is at most one (damaged) packet: every
      packet behind its delimiter still arrives. */
  lemma CutFrame(t: seq<byte>, s: seq<byte>)
    requires Cobs.NoZero(t)
    ensures |Packets(t + [0])| <= 1 && Packets(t + [0] + s) == Packets(t + [0]) + Packets(s)
  {
    GarbageCostsNothing(t + [0], s);
    NoDelimiterNoPacket([], t);
    ReceiveSplit([], t, [0]);
    assert [0 as byte][1..] == [];
    assert Packets([]) == [];
  }

  /** A receive that times out between frames loses no packet. */
  lemma TimeoutBetweenFrames(taken: seq<byte>, rest: seq<byte>)
    requires Receive([], taken) == None && Carry([], taken) == []
    ensures Packets(taken + rest) == Packets(rest)
  {
    ReceiveSplit([], taken, rest);
  }

  // ---------------------------------------------------------------- the Python code

  /** A serial port or async transport: the results of the reads to come, an empty one where a read times out. */
  class Port {
    var chunks: seq<seq<byte>>

    constructor (chunks: seq<seq<byte>>)
      ensures this.chunks == chunks
    {
      this.chunks := chunks;
    }

    method Read() returns (data: seq<byte>)
      modifies this
      ensures Join(old(chunks)) == data + Join(chunks)
      ensures |chunks| == if old(chunks) == [] then 0 else |old(chunks)| - 1
      ensures old(chunks) == [] ==> data == []
    {
      if chunks == [] {
        data := [];
      } else {
        data := chunks[0];
        chunks := chunks[1..];
      }
    }
  }

  /** One chunk, byte by byte: `got` and the index of its delimiter, or the frame carried on. */
  method ScanChunk(start: seq<byte>, data: seq<byte>) returns (got: Option<Message>, at: nat, frame: seq<byte>)
    ensures match Receive(start, data)
            case Some(r) => got == Some(r.0) && at < |data| && data[at + 1..] == r.1
            case None => got == None && frame == Carry(start, data)
  {
    frame, at := start, 0;
    assert data[0..] == data;
    while at < |data|
      invariant 0 <= at <= |data|
      invariant Receive(start, data) == Receive(frame, data[at..])
      invariant Carry(start, data) == Carry(frame, data[at..])
    {
      var b := data[at];
      assert data[at..][1..] == data[at + 1..];
      if b == 0x00 {
        if frame != [] {
          got := Parse(frame);
          if got.Some? {
            return;
          }
        }
        frame := [];
      } else {
        frame := frame + [b];
        if |frame| > MaxPacketSize {
          frame := [];
        }
      }
      at := at + 1;
    }
    got := None;
  }

  /** The call has used up `taken` of the stream without finding a packet. */
  ghost predicate Searching(before: seq<byte>, taken: seq<byte>, frame: seq<byte>, ahead: seq<byte>) {
    before == taken + ahead && Receive([], taken) == None && frame == Carry([], taken)
  }

  /** The call found `m` and leaves `rest`, or gave up having used `before` up to `rest`. */
  ghost predicate Outcome(before: seq<byte>, got: Option<Message>, rest: seq<byte>) {
    match got
    case Some(m) => Receive([], before) == Some((m, rest))
    case None => exists taken :: before == taken + rest && Receive([], taken) == None
  }

  lemma SearchFails(before: seq<byte>, taken: seq<byte>, frame: seq<byte>, data: seq<byte>, ahead: seq<byte>)
    requires Searching(before, taken, frame, data + ahead) && Receive(frame, data) == None
    ensures Searching(before, taken + data, Carry(frame, data), ahead)
  {
    ReceiveSplit([], taken, data);
    CarrySplit([], taken, data);
    assert taken + (data + ahead) == taken + data + ahead;
  }

  lemma SearchFinds(before: seq<byte>, taken: seq<byte>, frame: seq<byte>, data: seq<byte>, ahead: seq<byte>)
    requires Searching(before, taken, frame, data + ahead) && Receive(frame, data).Some?
    ensures var r := Receive(frame, data).value;
            Receive([], before) == Some((r.0, r.1 + ahead))
  {
    ReceiveSplit([], taken, data + ahead);
    ReceiveSplit(frame, data, ahead);
  }

  lemma SearchEnds(before: seq<byte>, taken: seq<byte>, frame: seq<byte>)
    requires Searching(before, taken, frame, [])
    ensures Receive([], before) == None
  {
    assert before == taken;
  }

  class HostReceiver {
    const port: Port
    /** The per-port `_port_buffers` entry, or the per-transport `_async_leftover` entry. */
    var leftover: seq<byte>

    constructor (port: Port)
      ensures this.port == port && leftover == []
    {
      this.port := port;
      leftover := [];
    }

    /** Every byte not yet handed out, in order. */
    ghost function Stream(): seq<byte>
      reads this, port
    {
      leftover + Join(port.chunks)
    }

    /** The next data: the leftover first, then the port. */
    method NextData() returns (data: seq<byte>)
      modifies this, port
      ensures old(Stream()) == data + Stream() && leftover == []
      ensures port.chunks == old(port.chunks) || |port.chunks| == |old(port.chunks)| - 1
      ensures old(leftover) == [] && old(port.chunks) != [] ==> |port.chunks| == |old(port.chunks)| - 1
    {
      if leftover != [] {
        data := leftover;
        leftover := [];
      } else {
        data := port.Read();
      }
      assert leftover + Join(port.chunks) == Join(port.chunks);
    }

    /** Scan `data`; keep what follows the packet's delimiter for the next call. */
    method Consume(start: seq<byte>, data: seq<byte>, ghost before: seq<byte>, ghost taken: seq<byte>)
      returns (got: Option<Message>, frame: seq<byte>)
      requires leftover == [] && Searching(before, taken, start, data + Join(port.chunks))
      modifies this
      ensures got.Some? ==> Receive([], before) == Some((got.value, Stream()))
      ensures got.None? ==> leftover == [] && Searching(before, taken + data, frame, Stream())
    {
      ghost var ahead := Join(port.chunks);
      var at;
      got, at, frame := ScanChunk(start, data);
      if got.Some? {
        SearchFinds(before, taken, start, data, ahead);
        leftover := data[at + 1..];
      } else {
        SearchFails(before, taken, start, data, ahead);
        assert leftover + ahead == ahead;
      }
    }

    lemma NothingLeft(before: seq<byte>, taken: seq<byte>, frame: seq<byte>)
      requires leftover == [] && port.chunks == [] && Searching(before, taken, frame, Stream())
      ensures Receive([], before) == None
    {
      assert Stream() == [];
      SearchEnds(before, taken, frame);
    }

    /** `_recv_packet_sync`; `quanta` turns of the loop pass before the deadline. */
    method RecvSync(quanta: nat) returns (got: Option<Message>)
      modifies this, port
      ensures Outcome(old(Stream()), got, Stream())
      ensures got.None? && quanta > 0 ==> leftover == []
      ensures |port.chunks| <= |old(port.chunks)|
      ensures quanta > |old(port.chunks)| && Receive([], old(Stream())).Some? ==> got.Some?
    {
      var frame: seq<byte> := [];
      var turn := 0;
      ghost var before, taken, n := Stream(), [], |port.chunks|;
      assert [] + before == before;
      while turn < quanta
        invariant 0 <= turn <= quanta && Searching(before, taken, frame, Stream())
        invariant turn > 0 ==> leftover == [] && (port.chunks == [] || |port.chunks| <= n - turn + 1)
        invariant |port.chunks| <= n
      {
        var data := NextData();
        assert Stream() == Join(port.chunks);
        got, frame := Consume(frame, data, before, taken);
        if got.Some? {
          return;
        }
        taken := taken + data;
        turn := turn + 1;
      }
      got := None;
      if quanta > n {
        NothingLeft(before, taken, frame);
      }
    }

    /** The leftover, if there is any, is searched first. */
    method ConsumeLeftover(ghost before: seq<byte>) returns (got: Option<Message>, frame: seq<byte>, ghost taken: seq<byte>)
      requires before == Stream()
      modifies this
      ensures got.Some? ==> Receive([], before) == Some((got.value, Stream()))
      ensures got.None? ==> leftover == [] && Searching(before, taken, frame, Stream())
    {
      var data := leftover;
      leftover := [];
      taken := data;
      assert [] + before == before && [] + data == data;
      assert Searching(before, [], [], data + Join(port.chunks));
      got, frame := Consume([], data, before, []);
    }

    /** The asynchronous `recv_packet`: the leftover is searched before the clock is looked at. */
    method RecvAsync(quanta: nat) returns (got: Option<Message>)
      modifies this, port
      ensures Outcome(old(Stream()), got, Stream())
      ensures got.None? ==> leftover == []
      ensures |port.chunks| <= |old(port.chunks)|
      ensures quanta >= |old(port.chunks)| && Receive([], old(Stream())).Some? ==> got.Some?
    {
      ghost var before, n := Stream(), |port.chunks|;
      var frame;
      ghost var taken;
      got, frame, taken := ConsumeLeftover(before);
      if got.Some? {
        return;
      }
      var turn := 0;
      while turn < quanta
        invariant 0 <= turn <= quanta && Searching(before, taken, frame, Stream()) && leftover == []
        invariant |port.chunks| <= n
        invariant port.chunks == [] || |port.chunks| <= n - turn
      {
        var data := NextData();
        assert Stream() == Join(port.chunks);
        got, frame := Consume(frame, data, before, taken);
        if got.Some? {
          return;
        }
        taken := taken + data;
        turn := turn + 1;
      }
      got := None;
      if quanta >= n {
        NothingLeft(before, taken, frame);
      }
    }

    /** Either receiver. */
    method Recv(sync: bool, quanta: nat) returns (got: Option<Message>)
      modifies this, port
      ensures Outcome(old(Stream()), got, Stream())
      ensures |port.chunks| <= |old(port.chunks)|
      ensures quanta > |old(port.chunks)| && Receive([], old(Stream())).Some? ==> got.Some?
      ensures got.Some? ==> |Stream()| < |old(Stream())|
    {
      ReceiveShorter([], Stream());
      if sync {
        got := RecvSync(quanta);
      } else {
        got := RecvAsync(quanta);
      }
    }

    /** Repeated receives: with time enough for each, exactly the packets of the stream, however it was cut. */
    method ReceiveAll(sync: bool) returns (ms: seq<Message>)
      modifies this, port
      ensures ms == Packets(old(Stream()))
    {
      ghost var want := Packets(Stream());
      ms := [];
      while true
        invariant ms + Packets(Stream()) == want
        decreases |Stream()|
      {
        ghost var before := Stream();
        var got := Recv(sync, |port.chunks| + 1);
        if got.None? {
          assert Packets(before) == [];
          return;
        }
        assert Packets(before) == [got.value] + Packets(Stream());
        assert ms + ([got.value] + Packets(Stream())) == ms + [got.value] + Packets(Stream());
        ms := ms + [got.value];
      }
    }

    /** `recv_response`: skips READY packets, each of which restarts the clock. */
    method RecvResponse(sync: bool, quanta: nat) returns (got: Option<Message>)
      modifies this, port
      ensures got.Some? ==> FirstResponse(Packets(old(Stream()))) == Some((got.value, Packets(Stream())))
      ensures quanta > |old(port.chunks)| && FirstResponse(Packets(old(Stream()))).Some? ==> got.Some?
    {
      ghost var want := FirstResponse(Packets(Stream()));
      while true
        invariant FirstResponse(Packets(Stream())) == want && |port.chunks| <= |old(port.chunks)|
        decreases |Stream()|
      {
        got := Recv(sync, quanta);
        if got.Some? {
          FirstResponseStep(got.value, Packets(Stream()));
        }
        if got.None? || got.value.cmd != RspReady {
          return;
        }
      }
    }
  }

  const RspReady: byte := 0x85

  /** The first packet that is not READY, and the packets behind it. */
  function FirstResponse(ms: seq<Message>): Option<(Message, seq<Message>)> {
    if ms == [] then None
    else if ms[0].cmd != RspReady then Some((ms[0], ms[1..]))
    else FirstResponse(ms[1..])
  }

  lemma FirstResponseStep(m: Message, ms: seq<Message>)
    ensures FirstResponse([m] + ms) == if m.cmd != RspReady then Some((m, ms)) else FirstResponse(ms)
  {
    assert ([m] + ms)[1..] == ms;
  }
}
