/**
  The agent's receive side (agent/protocol.c:62-91, 117-182): the software ring that empties the 16-byte hardware
  FIFO, and the packet receiver on top of it.
 */
module AgentRx {
  import opened Bytes
  import Cobs
  import Crc32
  import opened Packet

  /** `sizeof(soft_rx)`; one slot always stays free. */
  const RingSize: nat := 72 * 1024

  lemma Wrapped(i: nat, n: nat)
    requires i < n
    ensures (i + 1) % n == if i + 1 == n then 0 else i + 1
  {
    if i + 1 == n {
      DivModUnique(n, n, 1, 0);
    } else {
      DivModUnique(i + 1, n, 0, i + 1);
    }
  }

  /** The bytes held between `tail` and `head`. */
  function Held(buf: seq<byte>, head: nat, tail: nat): seq<byte>
    requires head < |buf| && tail < |buf|
  {
    if tail <= head then buf[tail..head] else buf[tail..] + buf[..head]
  }

  lemma HeldPut(buf: seq<byte>, head: nat, tail: nat, b: byte)
    requires head < |buf| && tail < |buf| && (head + 1) % |buf| != tail
    ensures (head + 1) % |buf| < |buf| && |Held(buf, head, tail)| < |buf| - 1
    ensures Held(buf[head := b], (head + 1) % |buf|, tail) == Held(buf, head, tail) + [b]
  {
    Wrapped(head, |buf|);
    var buf' := buf[head := b];
    if head + 1 == |buf| {
      assert buf'[tail..] + buf'[..0] == buf[tail..head] + [b];
    } else if tail <= head {
      assert buf'[tail..head + 1] == buf[tail..head] + [b];
    } else {
      assert buf'[tail..] + buf'[..head + 1] == buf[tail..] + buf[..head] + [b];
    }
  }

  lemma HeldFull(buf: seq<byte>, head: nat, tail: nat)
    requires head < |buf| && tail < |buf| && (head + 1) % |buf| == tail
    ensures |Held(buf, head, tail)| == |buf| - 1
  {
    Wrapped(head, |buf|);
  }

  lemma HeldGet(buf: seq<byte>, head: nat, tail: nat)
    requires head < |buf| && tail < |buf| && head != tail
    ensures (tail + 1) % |buf| < |buf|
    ensures Held(buf, head, tail) == [buf[tail]] + Held(buf, head, (tail + 1) % |buf|)
  {
    Wrapped(tail, |buf|);
    if tail < head {
      assert buf[tail..head] == [buf[tail]] + buf[tail + 1..head];
    } else if tail + 1 == |buf| {
      assert buf[tail..] + buf[..head] == [buf[tail]] + buf[0..head];
    } else {
      assert buf[tail..] + buf[..head] == [buf[tail]] + (buf[tail + 1..] + buf[..head]);
    }
  }

  /** `soft_rx`, `soft_rx_head` and `soft_rx_tail`: a FIFO of `RingSize - 1` bytes. */
  class SoftRx {
    const buf: array<byte>
    var head: nat
    var tail: nat

    ghost predicate Valid()
      reads this
    {
      buf.Length == RingSize && head < RingSize && tail < RingSize
    }

    ghost function Contents(): seq<byte>
      reads this, buf
      requires Valid()
    {
      Held(buf[..], head, tail)
    }

    constructor ()
      ensures Valid() && fresh(buf) && Contents() == []
    {
      buf := new byte[RingSize];
      head, tail := 0, 0;
    }

    /** The body of `soft_rx_drain`: a byte that finds the ring full is lost. */
    method Put(b: byte)
      requires Valid()
      modifies this, buf
      ensures Valid()
      ensures Contents() == old(Contents()) + (if |old(Contents())| < RingSize - 1 then [b] else [])
    {
      var next := (head + 1) % RingSize;
      if next != tail {
        HeldPut(buf[..], head, tail, b);
        ghost var want := buf[..][head := b];
        buf[head] := b;
        assert buf[..] == want;
        head := next;
      } else {
        HeldFull(buf[..], head, tail);
      }
    }

    /** `soft_rx_drain` when `arrived` is waiting in the hardware. */
    method Drain(arrived: seq<byte>)
      requires Valid()
      modifies this, buf
      ensures Valid()
      ensures Contents() == old(Contents()) + arrived[..Min(|arrived|, RingSize - 1 - |old(Contents())|)]
    {
      ghost var was := Contents();
      HeldBound(buf[..], head, tail);
      ghost var room := RingSize - 1 - |was|;
      assert was + arrived[..0] == was;
      for i := 0 to |arrived|
        invariant Valid() && Contents() == was + arrived[..Min(i, room)]
      {
        Put(arrived[i]);
        if i < room {
          assert arrived[..i + 1] == arrived[..i] + [arrived[i]];
        }
      }
    }

    /** The pop of `soft_rx_get` and `proto_recv`. */
    method Get() returns (b: byte)
      requires Valid() && Contents() != []
      modifies this
      ensures Valid() && old(Contents()) == [b] + Contents()
    {
      HeldGet(buf[..], head, tail);
      b := buf[tail];
      tail := (tail + 1) % RingSize;
    }

    method IsEmpty() returns (empty: bool)
      requires Valid()
      ensures empty == (Contents() == [])
    {
      empty := head == tail;
    }
  }

  lemma HeldBound(buf: seq<byte>, head: nat, tail: nat)
    requires head < |buf| && tail < |buf|
    ensures |Held(buf, head, tail)| <= |buf| - 1
  {
  }

  // ---------------------------------------------------------------- frames

  /** `sizeof(rx_cobs)` and `sizeof(rx_raw)` */
  const CobsSize: nat := MaxPayload + 32
  const RawSize: nat := MaxPayload + 16

  /** The frame `proto_recv` hands to the decoder, and the bytes behind it; `None` when the line falls silent first. */
  function NextFrame(frame: seq<byte>, s: seq<byte>): Option<(seq<byte>, seq<byte>)>
    decreases |s|
  {
    if |frame| >= CobsSize then Some((frame, s))
    else if s == [] then None
    else if s[0] != 0 then NextFrame(frame + [s[0]], s[1..])
    else if frame == [] then NextFrame([], s[1..])
    else Some((frame, s[1..]))
  }

  lemma {:induction false} NextFrameOf(frame: seq<byte>, f: seq<byte>, rest: seq<byte>)
    requires Cobs.NoZero(f) && frame + f != [] && |frame| + |f| < CobsSize
    ensures NextFrame(frame, f + [0x00] + rest) == Some((frame + f, rest))
    decreases |f|
  {
    var s := f + [0x00] + rest;
    if f == [] {
      assert s[0] == 0 && s[1..] == rest && frame + f == frame;
    } else {
      assert s[0] == f[0] && s[1..] == f[1..] + [0x00] + rest;
      NextFrameOf(frame + [f[0]], f[1..], rest);
      assert frame + [f[0]] + f[1..] == frame + f;
    }
  }

  lemma {:induction false} NextFrameShape(frame: seq<byte>, s: seq<byte>)
    requires |frame| <= CobsSize
    ensures match NextFrame(frame, s)
            case None => true
            case Some(r) => |r.0| <= CobsSize && |r.1| <= |s| && r.1 == s[|s| - |r.1|..]
    decreases |s|
  {
    if |frame| < CobsSize && s != [] {
      if s[0] != 0 {
        NextFrameShape(frame + [s[0]], s[1..]);
      } else if frame == [] {
        NextFrameShape([], s[1..]);
      }
    }
  }

  /** What the agent makes of a frame: a command byte of 0 stands for "nothing". */
  function Verdict(f: seq<byte>): Message {
    match Parse(f)
    case None => Message(0, [])
    case Some(m) => m
  }

  /** A packet in front is the packet the agent receives, inside its buffers, and everything behind it is left. */
  lemma AgentReceives(m: Message, rest: seq<byte>)
    requires |m.data| <= MaxPayload
    ensures NextFrame([], Build(m) + rest) == Some((Frame(m), rest))
    ensures |Frame(m)| <= RawSize && Verdict(Frame(m)) == m
  {
    FitsBuffers(m);
    BuildShape(m);
    ParseBuild(m);
    NextFrameOf([], Frame(m), rest);
    assert [] + Frame(m) == Frame(m);
  }

  /** `Check` on payload and CRC already apart. */
  lemma CheckSplit(d: seq<byte>, payload: seq<byte>, crc: seq<byte>)
    requires d == payload + crc && |crc| == 4 && payload != []
    ensures Check(d) == if Checksum(payload) != Word32(crc[0], crc[1], crc[2], crc[3]) then None
                        else Some(Message(payload[0], payload[1..]))
  {
    assert d[..|d| - 4] == payload && d[|d| - 4..] == crc;
  }

  // ---------------------------------------------------------------- proto_recv

  /** The line into the agent: the bytes that arrive before it falls silent for a whole timeout. */
  class Uart {
    var ahead: seq<byte>

    constructor (ahead: seq<byte>)
      ensures this.ahead == ahead
    {
      this.ahead := ahead;
    }

    /** The first `n` of them, or all. */
    method Take(n: nat) returns (b: seq<byte>)
      modifies this
      ensures old(ahead) == b + ahead
    {
      var k := Min(n, |ahead|);
      b := ahead[..k];
      ahead := ahead[k..];
    }
  }

  class Proto {
    const rx: SoftRx
    const uart: Uart
    const rxCobs: array<byte>
    const rxRaw: array<byte>

    ghost predicate Valid()
      reads this, rx
    {
      && rx.Valid() && rxCobs.Length == CobsSize && rxRaw.Length == RawSize
      && rxCobs != rxRaw && rxCobs != rx.buf && rxRaw != rx.buf
    }

    constructor (uart: Uart)
      ensures Valid() && this.uart == uart && rx.Contents() == [] && fresh(rx) && fresh(rx.buf)
    {
      this.uart := uart;
      rx := new SoftRx();
      rxCobs := new byte[CobsSize];
      rxRaw := new byte[RawSize];
    }

    /** Every byte not yet handed to the decoder, in order: first the ring, then the line. */
    ghost function Stream(): seq<byte>
      reads this, rx, rx.buf, uart
      requires Valid()
    {
      rx.Contents() + uart.ahead
    }

    /** `soft_rx_drain` when `n` more bytes have arrived. No byte is lost while the ring has room for all. */
    method Drain(n: nat)
      requires Valid()
      modifies rx, rx.buf, uart
      ensures Valid()
      ensures |old(Stream())| < RingSize ==> Stream() == old(Stream())
    {
      var arrived := uart.Take(n);
      ghost var held := rx.Contents();
      rx.Drain(arrived);
      if |old(Stream())| < RingSize {
        assert arrived[..|arrived|] == arrived;
        assert held + arrived + uart.ahead == held + (arrived + uart.ahead);
      }
    }

    /** One byte: from the ring if it holds any, otherwise from the hardware. */
    method NextByte() returns (b: Option<byte>)
      requires Valid()
      modifies rx, uart
      ensures Valid()
      ensures if old(Stream()) == [] then b == None && Stream() == []
              else b.Some? && old(Stream()) == [b.value] + Stream()
    {
      var empty := rx.IsEmpty();
      if !empty {
        ghost var held := rx.Contents();
        var v := rx.Get();
        b := Some(v);
        assert held + uart.ahead == [v] + (rx.Contents() + uart.ahead);
      } else if uart.ahead == [] {
        b := None;
      } else {
        b := Some(uart.ahead[0]);
        uart.ahead := uart.ahead[1..];
      }
    }

    /** The loop that fills `rx_cobs` up to the delimiter. */
    method Collect() returns (ok: bool, n: nat)
      requires Valid()
      modifies rx, uart, rxCobs
      ensures Valid() && n <= CobsSize
      ensures match NextFrame([], old(Stream()))
              case None => !ok && Stream() == []
              case Some(r) => ok && rxCobs[..n] == r.0 && Stream() == r.1
    {
      n := 0;
      while n < CobsSize
        invariant Valid() && n <= CobsSize
        invariant NextFrame([], old(Stream())) == NextFrame(rxCobs[..n], Stream())
        decreases |Stream()|
      {
        ghost var was := Stream();
        ghost var frame := rxCobs[..n];
        var b := NextByte();
        if b.None? {
          return false, n;
        }
        assert was[1..] == Stream();
        if b.value == 0x00 {
          if n == 0 {
            continue;
          }
          return true, n;
        }
        rxCobs[n] := b.value;
        assert rxCobs[..n + 1] == frame + [b.value];
        n := n + 1;
      }
      ok := true;
    }

    /** Length and CRC of the decoded packet, and the copy out of `rx_raw`. */
    method CheckRaw(rawLen: nat) returns (m: Message)
      requires Valid() && rawLen <= RawSize
      ensures m == match Check(rxRaw[..rawLen]) case None => Message(0, []) case Some(r) => r
    {
      if rawLen < 5 {
        return Message(0, []);
      }
      var len := rawLen - 4;
      CheckSplit(rxRaw[..rawLen], rxRaw[..len], rxRaw[len..rawLen]);
      assert rxRaw[..len][1..] == rxRaw[1..len];
      var expected := Word32(rxRaw[len], rxRaw[len + 1], rxRaw[len + 2], rxRaw[len + 3]);
      var actual := Crc32.CrcC(0, rxRaw[..len]);
      if actual != expected {
        return Message(0, []);
      }
      m := Message(rxRaw[0], rxRaw[1..len]);
    }

    method DecodeAndCheck(n: nat) returns (m: Message)
      requires Valid() && n <= RawSize
      modifies rxRaw
      ensures m == Verdict(rxCobs[..n])
    {
      var rawLen := Cobs.DecodeC(rxCobs[..n], rxRaw);
      assert rxRaw[..0] == [];
      m := CheckRaw(rawLen);
    }

    /** `proto_recv`, for a next frame that some `proto_send` or `build_packet` can have produced. `d1`, `d2`:
        how much arrives while the frame is being decoded and checked. */
    method ProtoRecv(d1: nat, d2: nat) returns (m: Message)
      requires Valid() && |Stream()| < RingSize
      requires match NextFrame([], Stream()) case None => true case Some(r) => |r.0| <= RawSize
      modifies rx, rx.buf, uart, rxCobs, rxRaw
      ensures Valid()
      ensures match NextFrame([], old(Stream()))
              case None => m.cmd == 0 && Stream() == []
              case Some(r) => m == Verdict(r.0) && Stream() == r.1
    {
      ghost var was := Stream();
      NextFrameShape([], was);
      var ok, n := Collect();
      if !ok {
        return Message(0, []);
      }
      Drain(d1);
      m := DecodeAndCheck(n);
      Drain(d2);
    }
  }
}
