/**
  Reading memory through the agent: `handle_read` (agent/main.c:99-140, 185-276) against `read_memory`
  (src/defib/agent/client.py:400-448) over a link that keeps packets in order and may lose any of them.
 */
module ReadProtocol {
  import opened Bytes
  import StreamTypes

  const MaxReadSize: nat := 32 * 1024 * 1024
  const Word: nat := 0x1_0000_0000
  const RamSize: nat := 128 * 1024 * 1024

  // ---------------------------------------------------------------- the agent

  /** RAM and the flash window; the register regions of the whitelist are not part of this model. */
  datatype Device = Device(ramBase: nat, ram: seq<byte>, flashMem: nat, flash: seq<byte>, flashReadable: bool) {
    predicate Valid() {
      |ram| == RamSize && ramBase + RamSize <= Word && flashMem + |flash| <= Word
    }

    predicate InFlash(addr: nat, size: nat) {
      flashReadable && addr >= flashMem && addr - flashMem + size <= |flash|
    }

    /** `addr_readable`, with its 32-bit sums. */
    predicate Readable(addr: nat, size: nat) {
      && size != 0 && (addr + size) % Word > addr
      && ((addr >= ramBase && (addr + size) % Word <= ramBase + RamSize) || InFlash(addr, size))
    }

    predicate Served(addr: nat, size: nat) {
      size != 0 && size <= MaxReadSize && Readable(addr, size)
    }

    /** The device bytes a served request names. */
    function Region(addr: nat, size: nat): (r: seq<byte>)
      requires Valid() && addr < Word && Served(addr, size)
      ensures |r| == size
    {
      if InFlash(addr, size) then flash[addr - flashMem..addr - flashMem + size]
      else ram[addr - ramBase..addr - ramBase + size]
    }
  }

  /** `Bad` is any packet `read_memory` has no branch for. */
  datatype Reply = Ready | Data(seqNo: nat, bytes: seq<byte>) | Ack(status: nat) | Bad

  /** What the agent sends for the bytes still to go, the next packet being the `n`-th. */
  function Transcript(rest: seq<byte>, chunk: nat, n: nat): seq<Reply>
    requires 0 < chunk
    decreases |rest|
  {
    if rest == [] then [Ack(StreamTypes.ACK_OK)]
    else
      var k := Min(chunk, |rest|);
      [Data(n % 0x10000, rest[..k])] + Transcript(rest[k..], chunk, n + 1)
  }

  function Answer(dev: Device, addr: nat, size: nat, chunk: nat): seq<Reply>
    requires 0 < chunk && dev.Valid() && addr < Word
  {
    if !dev.Served(addr, size) then [Ack(StreamTypes.ACK_FLASH_ERROR)]
    else Transcript(dev.Region(addr, size), chunk, 0)
  }

  /** `handle_read`; `chunk` is MAX_PAYLOAD - 2. */
  method HandleRead(dev: Device, addr: nat, size: nat, chunk: nat) returns (sent: seq<Reply>)
    requires 0 < chunk && dev.Valid() && addr < Word
    ensures sent == Answer(dev, addr, size, chunk)
  {
    if size == 0 || size > MaxReadSize || !dev.Readable(addr, size) {
      return [Ack(StreamTypes.ACK_FLASH_ERROR)];
    }
    ghost var region := dev.Region(addr, size);
    ghost var all := Transcript(region, chunk, 0);
    var seqNo, offset := 0, 0;
    ghost var n := 0;
    sent := [];
    assert region[0..] == region && [] + all == all;
    while offset < size
      invariant 0 <= offset <= size && seqNo == n % 0x10000
      invariant Owes(sent, region[offset..], chunk, n, all)
    {
      sent, offset := SendChunk(dev, addr, size, chunk, seqNo, offset, sent, n, all);
      seqNo := NextSeq(seqNo, n);
      n := n + 1;
    }
    assert region[offset..] == [];
    sent := sent + [Ack(StreamTypes.ACK_OK)];
  }

  /** One turn of the loop. */
  method SendChunk(dev: Device, addr: nat, size: nat, chunk: nat, seqNo: nat, offset: nat, sentBefore: seq<Reply>,
                   ghost n: nat, ghost all: seq<Reply>)
    returns (sent: seq<Reply>, offset': nat)
    requires 0 < chunk && dev.Valid() && addr < Word && dev.Served(addr, size) && offset < size && seqNo == n % 0x10000
    requires Owes(sentBefore, dev.Region(addr, size)[offset..], chunk, n, all)
    ensures offset < offset' <= size && Owes(sent, dev.Region(addr, size)[offset'..], chunk, n + 1, all)
  {
    ghost var rest := dev.Region(addr, size)[offset..];
    var k := size - offset;
    if k > chunk {
      k := chunk;
    }
    var pkt := ReadChunk(dev, addr, size, offset, k);
    Pays(sentBefore, rest, chunk, n, all);
    offset' := offset + k;
    assert rest[k..] == dev.Region(addr, size)[offset'..];
    sent := sentBefore + [Data(seqNo, pkt)];
  }

  /** `seq++` on 16 bits. */
  method NextSeq(seqNo: nat, ghost n: nat) returns (next: nat)
    requires seqNo == n % 0x10000
    ensures next == (n + 1) % 0x10000
  {
    next := (seqNo + 1) % 0x10000;
  }

  /** The flash path and the RAM path. */
  method ReadChunk(dev: Device, addr: nat, size: nat, offset: nat, k: nat) returns (pkt: seq<byte>)
    requires dev.Valid() && addr < Word && dev.Served(addr, size) && offset + k <= size
    ensures pkt == dev.Region(addr, size)[offset..][..k]
  {
    if dev.flashReadable && addr >= dev.flashMem && addr - dev.flashMem + size <= |dev.flash| {
      pkt := dev.flash[addr - dev.flashMem + offset..addr - dev.flashMem + offset + k];
      PartOf(dev.flash, addr - dev.flashMem, size, offset, k);
    } else {
      pkt := dev.ram[addr - dev.ramBase + offset..addr - dev.ramBase + offset + k];
      PartOf(dev.ram, addr - dev.ramBase, size, offset, k);
    }
  }

  lemma PartOf(s: seq<byte>, at: nat, size: nat, offset: nat, k: nat)
    requires at + size <= |s| && offset + k <= size
    ensures s[at..at + size][offset..][..k] == s[at + offset..at + offset + k]
  {
  }

  ghost predicate Owes(sent: seq<Reply>, rest: seq<byte>, chunk: nat, n: nat, all: seq<Reply>)
    requires 0 < chunk
  {
    sent + Transcript(rest, chunk, n) == all
  }

  lemma Pays(sent: seq<Reply>, rest: seq<byte>, chunk: nat, n: nat, all: seq<Reply>)
    requires 0 < chunk && rest != [] && Owes(sent, rest, chunk, n, all)
    ensures var k := Min(chunk, |rest|);
            Owes(sent + [Data(n % 0x10000, rest[..k])], rest[k..], chunk, n + 1, all)
  {
    var k := Min(chunk, |rest|);
    var d := Data(n % 0x10000, rest[..k]);
    assert sent + ([d] + Transcript(rest[k..], chunk, n + 1)) == sent + [d] + Transcript(rest[k..], chunk, n + 1);
  }

  // ---------------------------------------------------------------- the host

  datatype Status = Waiting | Raised | Returned(data: seq<byte>)

  datatype Host = Host(received: seq<byte>, expected: nat, status: Status)

  /** One packet in the loop of `read_memory`. */
  function Take(h: Host, size: nat, m: Reply): Host {
    if h.status != Waiting then h
    else match m
      case Ready => h
      case Data(seqNo, bytes) =>
        if bytes == [] || seqNo != h.expected then h.(status := Raised)
        else Host(h.received + bytes, (h.expected + 1) % 0x10000, Waiting)
      case Ack(status) =>
        if status != StreamTypes.ACK_OK || |h.received| != size then h.(status := Raised)
        else h.(status := Returned(h.received))
      case Bad => h.(status := Raised)
  }

  function TakeAll(h: Host, size: nat, ms: seq<Reply>): Host
    decreases |ms|
  {
    if ms == [] then h else TakeAll(Take(h, size, ms[0]), size, ms[1..])
  }

  const Start: Host := Host([], 0, Waiting)

  /** What `read_memory` has come to after the packets `ms`. */
  function Result(size: nat, ms: seq<Reply>): Status {
    TakeAll(Start, size, ms).status
  }

  /** `read_memory`, for the packets that come before `recv_packet` times out. */
  method ReadMemory(size: nat, ms: seq<Reply>) returns (status: Status)
    ensures status == Result(size, ms)
  {
    var received: seq<byte>, expected: nat := [], 0;
    assert ms[0..] == ms;
    for i := 0 to |ms|
      invariant TakeAll(Start, size, ms) == TakeAll(Host(received, expected, Waiting), size, ms[i..])
    {
      assert ms[i..][1..] == ms[i + 1..];
      ghost var rest := ms[i + 1..];
      match ms[i] {
        case Ready =>
        case Data(seqNo, bytes) =>
          if |bytes| == 0 || seqNo != expected {
            Settled(Host(received, expected, Raised), size, rest);
            return Raised;
          }
          received := received + bytes;
          expected := (expected + 1) % 0x10000;
        case Ack(s) =>
          if s != StreamTypes.ACK_OK || |received| != size {
            Settled(Host(received, expected, Raised), size, rest);
            return Raised;
          }
          Settled(Host(received, expected, Returned(received)), size, rest);
          return Returned(received);
        case Bad =>
          Settled(Host(received, expected, Raised), size, rest);
          return Raised;
      }
    }
    assert ms[|ms|..] == [];
    status := Waiting;
  }

  /** Nothing happens after a return or an exception. */
  lemma {:induction false} Settled(h: Host, size: nat, ms: seq<Reply>)
    requires h.status != Waiting
    ensures TakeAll(h, size, ms) == h
    decreases |ms|
  {
    if ms != [] {
      Settled(h, size, ms[1..]);
    }
  }

  // ---------------------------------------------------------------- the link

  /** `ms` is what has come out of a link fed `ts`: any packets lost, READYs anywhere, the order kept. */
  ghost predicate Delivered(ms: seq<Reply>, ts: seq<Reply>)
    decreases |ms| + |ts|
  {
    || ms == []
    || (ms[0].Ready? && Delivered(ms[1..], ts))
    || (ts != [] && ms[0] == ts[0] && Delivered(ms[1..], ts[1..]))
    || (ts != [] && Delivered(ms, ts[1..]))
  }

  /** The same without losses. */
  ghost predicate Complete(ms: seq<Reply>, ts: seq<Reply>)
    decreases |ms| + |ts|
  {
    if ms == [] then ts == []
    else
      || (ms[0].Ready? && Complete(ms[1..], ts))
      || (ts != [] && ms[0] == ts[0] && Complete(ms[1..], ts[1..]))
  }

  // ---------------------------------------------------------------- what a return means

  /** Once a byte is missing, the read cannot return. */
  lemma {:induction false} ShortNeverReturns(h: Host, size: nat, ms: seq<Reply>, rest: seq<byte>, chunk: nat, n: nat)
    requires 0 < chunk && h.status == Waiting && |h.received| + |rest| < size
    requires Delivered(ms, Transcript(rest, chunk, n))
    ensures !TakeAll(h, size, ms).status.Returned?
    decreases |ms| + |rest|
  {
    if ms != [] {
      var ts := Transcript(rest, chunk, n);
      if ms[0].Ready? && Delivered(ms[1..], ts) {
        ShortNeverReturns(h, size, ms[1..], rest, chunk, n);
      } else if rest == [] {
        OnlyAck(h, size, ms);
      } else {
        var k := Min(chunk, |rest|);
        assert ts[1..] == Transcript(rest[k..], chunk, n + 1);
        if Delivered(ms, ts[1..]) {
          ShortNeverReturns(h, size, ms, rest[k..], chunk, n + 1);
        } else {
          var h' := Take(h, size, ms[0]);
          if h'.status == Waiting {
            ShortNeverReturns(h', size, ms[1..], rest[k..], chunk, n + 1);
          } else {
            Settled(h', size, ms[1..]);
          }
        }
      }
    }
  }

  /** What the final ACK alone can bring about. */
  lemma {:induction false} OnlyAck(h: Host, size: nat, ms: seq<Reply>)
    requires h.status == Waiting && Delivered(ms, [Ack(StreamTypes.ACK_OK)])
    ensures TakeAll(h, size, ms).status.Returned? ==> |h.received| == size && TakeAll(h, size, ms).status.data == h.received
    decreases |ms|
  {
    if ms != [] {
      assert [Ack(StreamTypes.ACK_OK)][1..] == [];
      if ms[0].Ready? {
        OnlyAck(h, size, ms[1..]);
      } else {
        Settled(Take(h, size, ms[0]), size, ms[1..]);
      }
    }
  }

  lemma {:induction false} OnlyReady(h: Host, size: nat, ms: seq<Reply>)
    requires h.status == Waiting && Delivered(ms, [])
    ensures TakeAll(h, size, ms) == h
    decreases |ms|
  {
    if ms != [] {
      OnlyReady(h, size, ms[1..]);
    }
  }

  lemma {:induction false} ReturnIsWhole(h: Host, size: nat, ms: seq<Reply>, rest: seq<byte>, chunk: nat, n: nat)
    requires 0 < chunk && h.status == Waiting && |h.received| + |rest| == size
    requires Delivered(ms, Transcript(rest, chunk, n))
    ensures TakeAll(h, size, ms).status.Returned? ==> TakeAll(h, size, ms).status.data == h.received + rest
    decreases |ms| + |rest|
  {
    if ms != [] {
      var ts := Transcript(rest, chunk, n);
      if ms[0].Ready? && Delivered(ms[1..], ts) {
        ReturnIsWhole(h, size, ms[1..], rest, chunk, n);
      } else if rest == [] {
        OnlyAck(h, size, ms);
        assert h.received + rest == h.received;
      } else {
        var k := Min(chunk, |rest|);
        assert ts[1..] == Transcript(rest[k..], chunk, n + 1);
        if Delivered(ms, ts[1..]) {
          ShortNeverReturns(h, size, ms, rest[k..], chunk, n + 1);
        } else {
          var h' := Take(h, size, ms[0]);
          if h'.status == Waiting {
            assert h'.received + rest[k..] == h.received + rest;
            ReturnIsWhole(h', size, ms[1..], rest[k..], chunk, n + 1);
          } else {
            Settled(h', size, ms[1..]);
          }
        }
      }
    }
  }

  lemma RefusedNeverReturns(size: nat, ms: seq<Reply>)
    requires Delivered(ms, [Ack(StreamTypes.ACK_FLASH_ERROR)])
    ensures !TakeAll(Start, size, ms).status.Returned?
    decreases |ms|
  {
    if ms != [] {
      assert [Ack(StreamTypes.ACK_FLASH_ERROR)][1..] == [];
      if ms[0].Ready? {
        RefusedNeverReturns(size, ms[1..]);
      } else {
        Settled(Take(Start, size, ms[0]), size, ms[1..]);
      }
    }
  }

  /** Which requests are served: none that is empty, larger than 32 MiB, or ends outside RAM and the flash window. */
  lemma ServedIff(dev: Device, addr: nat, size: nat)
    requires dev.Valid() && addr < Word
    ensures dev.Served(addr, size)
            <==> 0 < size <= 0x200_0000 && addr + size < Word
                 && ((dev.ramBase <= addr && addr + size <= dev.ramBase + 0x800_0000)
                     || (dev.flashReadable && dev.flashMem <= addr && addr + size <= dev.flashMem + |dev.flash|))
  {
  }

  /** Byte for byte, what `data` is to a request: flash inside its window, RAM outside. */
  ghost predicate Names(dev: Device, addr: nat, size: nat, data: seq<byte>) {
    && |data| == size
    && if dev.flashReadable && dev.flashMem <= addr && addr + size <= dev.flashMem + |dev.flash| then
         forall i | 0 <= i < size :: data[i] == dev.flash[addr - dev.flashMem + i]
       else
         && dev.ramBase <= addr && addr + size <= dev.ramBase + |dev.ram|
         && forall i | 0 <= i < size :: data[i] == dev.ram[addr - dev.ramBase + i]
  }

  lemma RegionNames(dev: Device, addr: nat, size: nat)
    requires dev.Valid() && addr < Word && dev.Served(addr, size)
    ensures Names(dev, addr, size, dev.Region(addr, size))
  {
    ServedIff(dev, addr, size);
  }

  /** Whatever was lost: a read that returns, returns the device bytes it was asked for. */
  lemma ReadSafe(dev: Device, addr: nat, size: nat, chunk: nat, ms: seq<Reply>)
    requires 0 < chunk && dev.Valid() && addr < Word && Delivered(ms, Answer(dev, addr, size, chunk))
    ensures Result(size, ms).Returned? ==>
              && dev.Served(addr, size) && Result(size, ms).data == dev.Region(addr, size)
              && Names(dev, addr, size, Result(size, ms).data)
  {
    if dev.Served(addr, size) {
      var region := dev.Region(addr, size);
      ReturnIsWhole(Start, size, ms, region, chunk, 0);
      assert [] + region == region;
      RegionNames(dev, addr, size);
    } else {
      RefusedNeverReturns(size, ms);
    }
  }

  // ---------------------------------------------------------------- without losses

  /** Without losses the next packet, unless it is a READY, is the next piece of the region. */
  lemma WholeNext(h: Host, size: nat, ms: seq<Reply>, rest: seq<byte>, chunk: nat, n: nat)
    requires 0 < chunk && rest != [] && h.status == Waiting && h.expected == n % 0x10000
    requires Complete(ms, Transcript(rest, chunk, n)) && !ms[0].Ready?
    ensures var k := Min(chunk, |rest|);
            && Take(h, size, ms[0]) == Host(h.received + rest[..k], (n + 1) % 0x10000, Waiting)
            && Complete(ms[1..], Transcript(rest[k..], chunk, n + 1))
  {
    assert Transcript(rest, chunk, n)[1..] == Transcript(rest[Min(chunk, |rest|)..], chunk, n + 1);
  }

  lemma {:induction false} WholeReturns(h: Host, size: nat, ms: seq<Reply>, rest: seq<byte>, chunk: nat, n: nat)
    requires 0 < chunk && h.status == Waiting && |h.received| + |rest| == size && h.expected == n % 0x10000
    requires Complete(ms, Transcript(rest, chunk, n))
    ensures TakeAll(h, size, ms).status == Returned(h.received + rest)
    decreases |ms|
  {
    if ms[0].Ready? {
      WholeReturns(h, size, ms[1..], rest, chunk, n);
    } else if rest == [] {
      assert h.received + rest == h.received;
      Settled(Take(h, size, ms[0]), size, ms[1..]);
    } else {
      WholeNext(h, size, ms, rest, chunk, n);
      var h', later := Take(h, size, ms[0]), rest[Min(chunk, |rest|)..];
      assert h'.received + later == h.received + rest;
      WholeReturns(h', size, ms[1..], later, chunk, n + 1);
    }
  }

  /** On a link that loses nothing, every served read returns. */
  lemma ReadLive(dev: Device, addr: nat, size: nat, chunk: nat, ms: seq<Reply>)
    requires 0 < chunk && dev.Valid() && addr < Word && dev.Served(addr, size)
    requires Complete(ms, Answer(dev, addr, size, chunk))
    ensures Result(size, ms) == Returned(dev.Region(addr, size))
    ensures Names(dev, addr, size, Result(size, ms).data)
  {
    var region := dev.Region(addr, size);
    RegionNames(dev, addr, size);
    WholeReturns(Start, size, ms, region, chunk, 0);
    assert [] + region == region;
  }

  // ---------------------------------------------------------------- what the sequence numbers add

  /** Packets needed for `rest`. */
  function Packets(rest: seq<byte>, chunk: nat): nat
    requires 0 < chunk
    decreases |rest|
  {
    if rest == [] then 0 else 1 + Packets(rest[Min(chunk, |rest|)..], chunk)
  }

  /** Behind a gap, nothing is accepted any more. */
  lemma {:induction false} GapStops(h: Host, size: nat, ms: seq<Reply>, rest: seq<byte>, chunk: nat, n: nat)
    requires 0 < chunk && h.status == Waiting && h.expected < n && n + Packets(rest, chunk) <= 0x10000
    requires Delivered(ms, Transcript(rest, chunk, n))
    ensures TakeAll(h, size, ms).received == h.received
    decreases |ms| + |rest|
  {
    if ms != [] {
      var ts := Transcript(rest, chunk, n);
      if ms[0].Ready? && Delivered(ms[1..], ts) {
        GapStops(h, size, ms[1..], rest, chunk, n);
      } else if rest == [] {
        AckKeeps(h, size, ms);
      } else {
        var k := Min(chunk, |rest|);
        assert ts[1..] == Transcript(rest[k..], chunk, n + 1);
        if Delivered(ms, ts[1..]) {
          GapStops(h, size, ms, rest[k..], chunk, n + 1);
        } else {
          Settled(Take(h, size, ms[0]), size, ms[1..]);
        }
      }
    }
  }

  lemma {:induction false} AckKeeps(h: Host, size: nat, ms: seq<Reply>)
    requires h.status == Waiting && Delivered(ms, [Ack(StreamTypes.ACK_OK)])
    ensures TakeAll(h, size, ms).received == h.received
    decreases |ms|
  {
    if ms != [] {
      assert [Ack(StreamTypes.ACK_OK)][1..] == [];
      if ms[0].Ready? {
        AckKeeps(h, size, ms[1..]);
      } else {
        Settled(Take(h, size, ms[0]), size, ms[1..]);
      }
    }
  }

  lemma {:induction false} ReceivedIsPrefix(h: Host, size: nat, ms: seq<Reply>, rest: seq<byte>, chunk: nat, n: nat)
    requires 0 < chunk && h.status == Waiting && h.expected == n % 0x10000 && n + Packets(rest, chunk) <= 0x10000
    requires Delivered(ms, Transcript(rest, chunk, n))
    ensures TakeAll(h, size, ms).received <= h.received + rest
    decreases |ms| + |rest|
  {
    if ms != [] {
      var ts := Transcript(rest, chunk, n);
      if ms[0].Ready? && Delivered(ms[1..], ts) {
        ReceivedIsPrefix(h, size, ms[1..], rest, chunk, n);
      } else if rest == [] {
        AckKeeps(h, size, ms);
      } else {
        var k := Min(chunk, |rest|);
        assert ts[1..] == Transcript(rest[k..], chunk, n + 1);
        if Delivered(ms, ts[1..]) {
          GapStops(h, size, ms, rest[k..], chunk, n + 1);
        } else {
          var h' := Take(h, size, ms[0]);
          assert h'.received + rest[k..] == h.received + rest;
          ReceivedIsPrefix(h', size, ms[1..], rest[k..], chunk, n + 1);
        }
      }
    }
  }

  /** At every moment of every read of at most 65536 packets, what has been received is a prefix of the device bytes. */
  lemma ReadPrefix(dev: Device, addr: nat, size: nat, chunk: nat, ms: seq<Reply>)
    requires 0 < chunk && dev.Valid() && addr < Word && dev.Served(addr, size)
    requires Packets(dev.Region(addr, size), chunk) <= 0x10000
    requires Delivered(ms, Answer(dev, addr, size, chunk))
    ensures TakeAll(Start, size, ms).received <= dev.Region(addr, size)
  {
    var region := dev.Region(addr, size);
    ReceivedIsPrefix(Start, size, ms, region, chunk, 0);
    assert [] + region == region;
  }

  /** The size cap keeps every read that short, with a chunk of 512 bytes or more. */
  lemma {:induction false} CapSuffices(rest: seq<byte>, chunk: nat, k: nat)
    requires 512 <= chunk && |rest| <= 512 * k
    ensures Packets(rest, chunk) <= k
    decreases |rest|
  {
    if rest != [] {
      CapSuffices(rest[Min(chunk, |rest|)..], chunk, k - 1);
    }
  }

  lemma CapKeepsNumbersDistinct(dev: Device, addr: nat, size: nat)
    requires dev.Valid() && addr < Word && dev.Served(addr, size)
    ensures Packets(dev.Region(addr, size), 1022) <= 0x10000
  {
    CapSuffices(dev.Region(addr, size), 1022, 0x10000);
  }

  // ---------------------------------------------------------------- one packet more

  lemma DeliveredLater(ms: seq<Reply>, t: Reply, ts: seq<Reply>)
    requires Delivered(ms, ts)
    ensures Delivered(ms, [t] + ts)
  {
    assert ([t] + ts)[1..] == ts;
  }

  lemma DeliveredFirst(rest: seq<byte>, chunk: nat, n: nat)
    requires 0 < chunk && rest != []
    ensures Delivered([Data(n % 0x10000, rest[..Min(chunk, |rest|)])], Transcript(rest, chunk, n))
  {
    assert Delivered([], Transcript(rest, chunk, n)[1..]);
  }

  lemma OneChunkLess(i: nat, chunk: nat, at: nat)
    requires 0 < i && at == i * chunk
    ensures chunk <= at && at - chunk == (i - 1) * chunk
  {
    MulMono(1, i, chunk);
  }

  lemma SliceOfRest(rest: seq<byte>, cut: nat, at: nat, k: nat)
    requires cut <= at && at + k <= |rest|
    ensures rest[cut..][at - cut..at - cut + k] == rest[at..at + k]
  {
  }

  /** The transcript once the first `i` packets, `at` bytes, have gone. */
  lemma {:induction false} LateDelivery(rest: seq<byte>, chunk: nat, n: nat, i: nat, at: nat)
    requires 0 < chunk && at == i * chunk && |rest| > at
    ensures Delivered([Data((n + i) % 0x10000, rest[at..at + Min(chunk, |rest| - at)])], Transcript(rest, chunk, n))
    decreases i
  {
    if i == 0 {
      DeliveredFirst(rest, chunk, n);
    } else {
      OneChunkLess(i, chunk, at);
      var later, k := rest[chunk..], Min(chunk, |rest| - at);
      LateDelivery(later, chunk, n + 1, i - 1, at - chunk);
      SliceOfRest(rest, chunk, at, k);
      DeliveredLater([Data((n + i) % 0x10000, rest[at..at + k])], Data(n % 0x10000, rest[..chunk]),
                     Transcript(later, chunk, n + 1));
    }
  }

  lemma TakesFirst(d: seq<byte>, size: nat)
    requires d != []
    ensures TakeAll(Start, size, [Data(0, d)]) == Host(d, 1, Waiting)
  {
    assert [] + d == d && [Data(0, d)][1..] == [];
    assert TakeAll(Take(Start, size, Data(0, d)), size, []) == Host(d, 1, Waiting);
  }

  /** With a 65537th packet the numbers repeat: losing the first 65536 packets goes unnoticed until the size check. */
  lemma WrapGoesUnnoticed(rest: seq<byte>, chunk: nat, size: nat) returns (ms: seq<Reply>)
    requires 0 < chunk && |rest| > 0x10000 * chunk
    ensures Delivered(ms, Transcript(rest, chunk, 0))
    ensures var k := Min(chunk, |rest| - 0x10000 * chunk);
            TakeAll(Start, size, ms) == Host(rest[0x10000 * chunk..0x10000 * chunk + k], 1, Waiting)
  {
    var d;
    ms, d := LateAlone(rest, chunk, 0x10000, 0x10000 * chunk);
    TakesFirst(d, size);
  }

  /** A packet whose number is again 0 can arrive alone. */
  lemma LateAlone(rest: seq<byte>, chunk: nat, i: nat, at: nat) returns (ms: seq<Reply>, d: seq<byte>)
    requires 0 < chunk && |rest| > at && at == i * chunk && i % 0x10000 == 0
    ensures d == rest[at..at + Min(chunk, |rest| - at)] && d != []
    ensures ms == [Data(0, d)] && Delivered(ms, Transcript(rest, chunk, 0))
  {
    LateDelivery(rest, chunk, 0, i, at);
    d := rest[at..at + Min(chunk, |rest| - at)];
    ms := [Data(0, d)];
  }
}
