/**
  The TFTP server (src/defib/network/tftp_server.py:60-253), its clients, and a network that may lose, duplicate
  and reorder what they send. Block numbers follow section 2 of RFC 1350, options RFC 2347 and RFC 2348.
 */
module Tftp {
  import opened Bytes

  type Addr = nat

  const DefaultBlocksize: nat := 512
  const MaxBlock: nat := 0xFFFF
  const ErrFileNotFound: nat := 1

  datatype Transfer = Transfer(data: seq<byte>, blocksize: nat, blockNum: nat, complete: bool)

  datatype Stats = Stats(requests: nat, bytesSent: nat, transfersComplete: nat, errors: nat)

  datatype Server = Server(transfers: map<Addr, Transfer>, stats: Stats)

  /** What the server sends. */
  datatype ToClient = DataBlock(n: nat, payload: seq<byte>) | Oack(blksize: nat) | Refusal(code: nat)

  /** Block `n` of a file, counted from 1. */
  function Block(data: seq<byte>, bs: nat, n: nat): seq<byte>
    requires 0 < n
  {
    var from, to := (n - 1) * bs, (n - 1) * bs + bs;
    if from > |data| then [] else data[from..Min(to, |data|)]
  }

  /** `_send_data_block`; the block number has to fit 16 bits. */
  function SendDataBlock(t: Transfer): (Transfer, seq<ToClient>) {
    var n := t.blockNum + 1;
    if n > MaxBlock then (t.(blockNum := n), [])   // struct.pack raises
    else
      var payload := Block(t.data, t.blocksize, n);
      (t.(blockNum := n, complete := t.complete || |payload| < t.blocksize), [DataBlock(n, payload)])
  }

  function Blocksize(asked: Option<int>): nat {
    match asked
    case None => DefaultBlocksize
    case Some(b) => if b < 8 then 8 else if b > 65464 then 65464 else b
  }

  /** `_handle_rrq`, for a request whose file is `file`, and that asks for `asked` as its blksize. */
  function OnRrq(s: Server, a: Addr, file: Option<seq<byte>>, asked: Option<int>): (Server, seq<ToClient>) {
    var stats := s.stats.(requests := s.stats.requests + 1);
    match file
    case None => (Server(s.transfers, stats.(errors := stats.errors + 1)), [Refusal(ErrFileNotFound)])
    case Some(data) =>
      var t := Transfer(data, Blocksize(asked), 0, false);
      if t.blocksize != DefaultBlocksize then (Server(s.transfers[a := t], stats), [Oack(t.blocksize)])
      else
        var (t', out) := SendDataBlock(t);
        (Server(s.transfers[a := t'], stats), out)
  }

  /** A block size between 8 and 65464 is granted as asked; what lies outside is moved to the nearer end. The answer is
      an OACK with that size, or the first block if it is the default. */
  lemma AskGranted(s: Server, a: Addr, data: seq<byte>, asked: int)
    ensures var (s', out) := OnRrq(s, a, Some(data), Some(asked));
            && a in s'.transfers && s'.transfers[a].data == data
            && (8 <= asked <= 65464 ==> s'.transfers[a].blocksize == asked)
            && (asked < 8 ==> s'.transfers[a].blocksize == 8)
            && (asked > 65464 ==> s'.transfers[a].blocksize == 65464)
            && (asked == 512 ==> out == [DataBlock(1, data[..Min(512, |data|)])] && s'.transfers[a].blockNum == 1)
            && (asked != 512 ==> out == [Oack(s'.transfers[a].blocksize)] && s'.transfers[a].blockNum == 0)
  {
    assert Block(data, 512, 1) == data[..Min(512, |data|)];
  }

  /** A file that is not there costs one error packet with code 1, and starts nothing. */
  lemma NoSuchFile(s: Server, a: Addr, asked: Option<int>)
    ensures var (s', out) := OnRrq(s, a, None, asked);
            out == [Refusal(1)] && s'.transfers == s.transfers && s'.stats.errors == s.stats.errors + 1
  {
  }

  /** `_handle_ack` */
  function OnAck(s: Server, a: Addr, n: nat): (Server, seq<ToClient>) {
    if a !in s.transfers then (s, [])
    else
      var t := s.transfers[a];
      if n == 0 && t.blockNum == 0 then Proceed(s, a, t)
      else if n != t.blockNum then (s, [])
      else if t.complete then
        (Server(s.transfers - {a},
                s.stats.(transfersComplete := s.stats.transfersComplete + 1,
                         bytesSent := s.stats.bytesSent + |t.data|)), [])
      else Proceed(s, a, t)
  }

  function Proceed(s: Server, a: Addr, t: Transfer): (Server, seq<ToClient>) {
    var (t', out) := SendDataBlock(t);
    (s.(transfers := s.transfers[a := t']), out)
  }

  /** `_handle_error` */
  function OnError(s: Server, a: Addr): Server {
    Server(s.transfers - {a}, s.stats.(errors := s.stats.errors + 1))
  }

  // ---------------------------------------------------------------- the server object

  class TftpServerProtocol {
    var transfers: map<Addr, Transfer>
    var stats: Stats
    const doneCount: nat
    var done: bool

    constructor (doneCount: nat)
      ensures State() == Server(map[], Stats(0, 0, 0, 0)) && this.doneCount == doneCount && !done
    {
      this.doneCount := doneCount;
      transfers, stats, done := map[], Stats(0, 0, 0, 0), false;
    }

    function State(): Server
      reads this
    {
      Server(transfers, stats)
    }

    method SendData(a: Addr) returns (out: seq<ToClient>)
      requires a in transfers
      modifies this`transfers
      ensures transfers == old(transfers)[a := SendDataBlock(old(transfers)[a]).0]
      ensures out == SendDataBlock(old(transfers)[a]).1
    {
      var t := transfers[a];
      t := t.(blockNum := t.blockNum + 1);
      transfers := transfers[a := t];
      var offset := (t.blockNum - 1) * t.blocksize;
      var blockData := if offset > |t.data| then [] else t.data[offset..Min(offset + t.blocksize, |t.data|)];
      assert blockData == Block(t.data, t.blocksize, t.blockNum);
      if t.blockNum > MaxBlock {
        return [];
      }
      out := [DataBlock(t.blockNum, blockData)];
      if |blockData| < t.blocksize {
        transfers := transfers[a := t.(complete := true)];
      }
    }

    method HandleRrq(a: Addr, file: Option<seq<byte>>, asked: Option<int>) returns (out: seq<ToClient>)
      modifies this
      ensures (State(), out) == OnRrq(old(State()), a, file, asked) && done == old(done)
    {
      stats := stats.(requests := stats.requests + 1);
      if file.None? {
        stats := stats.(errors := stats.errors + 1);
        return [Refusal(ErrFileNotFound)];
      }
      var blocksize := DefaultBlocksize;
      if asked.Some? {
        blocksize := if asked.value > 65464 then 65464 else if asked.value < 8 then 8 else asked.value;
      }
      transfers := transfers[a := Transfer(file.value, blocksize, 0, false)];
      if blocksize != DefaultBlocksize {
        out := [Oack(blocksize)];
      } else {
        out := SendData(a);
        assert transfers == old(transfers)[a := transfers[a]];
      }
    }

    method HandleAck(a: Addr, n: nat) returns (out: seq<ToClient>)
      modifies this
      ensures (State(), out) == OnAck(old(State()), a, n)
      ensures done == (old(done) || (stats.transfersComplete > old(stats).transfersComplete
                                     && stats.transfersComplete >= doneCount))
    {
      if a !in transfers {
        return [];
      }
      var t := transfers[a];
      if n == 0 && t.blockNum == 0 {
        out := SendData(a);
        return;
      }
      out := [];
      if n == t.blockNum {
        if t.complete {
          stats := stats.(transfersComplete := stats.transfersComplete + 1, bytesSent := stats.bytesSent + |t.data|);
          transfers := transfers - {a};
          if stats.transfersComplete >= doneCount {
            done := true;
          }
          return;
        }
        out := SendData(a);
      }
    }

    method HandleError(a: Addr)
      modifies this
      ensures State() == OnError(old(State()), a) && done == old(done)
    {
      stats := stats.(errors := stats.errors + 1);
      if a in transfers {
        transfers := transfers - {a};
      }
    }
  }

  // ---------------------------------------------------------------- a conforming client

  datatype ToServer = AckPkt(n: nat) | ErrorPkt

  datatype Client =
    | Asking(asked: Option<int>)
    | Receiving(bs: nat, got: seq<byte>, next: nat)
    | Done(got: seq<byte>, last: nat)
    | Gone

  /** One datagram at the client: blocks are taken in order, the last one taken is acknowledged again. */
  function OnDatagram(c: Client, m: ToClient): (Client, seq<ToServer>) {
    match (c, m)
    case (Asking(asked), Oack(b)) =>
      if asked.Some? && 8 <= b <= asked.value then (Receiving(b, [], 1), [AckPkt(0)]) else (Gone, [ErrorPkt])
    case (Asking(_), DataBlock(n, _)) => if n == 1 then TakeBlock(DefaultBlocksize, [], 1, m) else (c, [])
    case (Receiving(bs, got, next), DataBlock(n, _)) =>
      if n + 1 == next then (c, [AckPkt(n)]) else TakeBlock(bs, got, next, m)
    case (Receiving(_, _, next), Oack(_)) => if next == 1 then (c, [AckPkt(0)]) else (c, [])
    case (Done(_, last), DataBlock(n, _)) => if n == last then (c, [AckPkt(n)]) else (c, [])
    case (Gone, _) => (c, [])
    case (_, Refusal(_)) => (Gone, [])
    case _ => (c, [])
  }

  function TakeBlock(bs: nat, got: seq<byte>, next: nat, m: ToClient): (Client, seq<ToServer>)
    requires m.DataBlock?
  {
    if m.n != next then (Receiving(bs, got, next), [])
    else if |m.payload| < bs then (Done(got + m.payload, next), [AckPkt(next)])
    else (Receiving(bs, got + m.payload, next + 1), [AckPkt(next)])
  }
}
