/**
  Every run of the TFTP server with any number of conforming clients, one request each, over a network that
  delivers any datagram ever sent, any number of times, in any order, or never.
 */
module TftpSafety {
  import opened Bytes
  import opened Tftp

  /** `files`: what each client's file name resolves to; `asks`: the blksize it asks for. */
  datatype Config = Config(files: map<Addr, seq<byte>>, asks: map<Addr, Option<int>>) {
    predicate Valid() {
      files.Keys == asks.Keys
    }
  }

  /** One client and its two directions; `bs` and `sent` (the data blocks sent to it) are history. */
  datatype Link = Link(rrqPending: bool, client: Client, toClient: set<ToClient>, toServer: set<ToServer>,
                       bs: nat, sent: seq<ToClient>)

  /** `finished`: the addresses whose transfer the server has counted. */
  datatype Sys = Sys(server: Server, links: map<Addr, Link>, finished: set<Addr>)

  datatype Event =
    | Request(a: Addr)                     // the client's RRQ arrives
    | ServerGets(a: Addr, up: ToServer)
    | ClientGets(a: Addr, down: ToClient)

  function Initial(c: Config): Sys
    requires c.Valid()
  {
    Sys(Server(map[], Stats(0, 0, 0, 0)),
        map a | a in c.files :: Link(true, Asking(c.asks[a]), {}, {}, 0, []), {})
  }

  function DataOf(out: seq<ToClient>): seq<ToClient> {
    if out == [] then [] else (if out[0].DataBlock? then [out[0]] else []) + DataOf(out[1..])
  }

  function Sends(l: Link, out: seq<ToClient>): Link {
    l.(toClient := l.toClient + (set m | m in out), sent := l.sent + DataOf(out))
  }

  function Step(c: Config, st: Sys, e: Event): (st': Sys)
    requires c.Valid()
    ensures st'.links.Keys == st.links.Keys
  {
    if e.a !in st.links || e.a !in c.files then st
    else
      var l := st.links[e.a];
      match e
      case Request(a) =>
        if !l.rrqPending then st
        else
          var (server, out) := OnRrq(st.server, a, Some(c.files[a]), c.asks[a]);
          st.(server := server, links := st.links[a := Sends(l.(rrqPending := false, bs := Blocksize(c.asks[a])), out)])
      case ServerGets(a, up) =>
        if up !in l.toServer then st
        else if up.ErrorPkt? then st.(server := OnError(st.server, a))
        else
          var (server, out) := OnAck(st.server, a, up.n);
          var counted := server.stats.transfersComplete > st.server.stats.transfersComplete;
          Sys(server, st.links[a := Sends(l, out)], if counted then st.finished + {a} else st.finished)
      case ClientGets(a, down) =>
        if down !in l.toClient then st
        else
          var (client, out) := OnDatagram(l.client, down);
          st.(links := st.links[a := l.(client := client, toServer := l.toServer + (set m | m in out))])
  }

  function Run(c: Config, es: seq<Event>): (st: Sys)
    requires c.Valid()
    ensures st.links.Keys == c.files.Keys
  {
    if es == [] then Initial(c) else Step(c, Run(c, es[..|es| - 1]), es[|es| - 1])
  }

  // ---------------------------------------------------------------- blocks

  lemma BlockShape(file: seq<byte>, bs: nat, n: nat)
    requires 0 < n && 0 < bs && (n - 1) * bs <= |file|
    ensures |Block(file, bs, n)| < bs <==> n * bs > |file|
    ensures file[..(n - 1) * bs] + Block(file, bs, n) == file[..Min(n * bs, |file|)]
    ensures n * bs <= |file| ==> |Block(file, bs, n)| == bs
  {
    assert n * bs == (n - 1) * bs + bs;
  }

  // ---------------------------------------------------------------- the invariant, one link at a time

  ghost predicate SentOk(file: seq<byte>, l: Link) {
    && |l.sent| <= MaxBlock
    && (forall i | 0 <= i < |l.sent| :: l.sent[i] == DataBlock(i + 1, Block(file, l.bs, i + 1)))
    && (|l.sent| > 0 ==> (|l.sent| - 1) * l.bs <= |file|)
  }

  ghost predicate DownOk(l: Link, m: ToClient) {
    match m
    case DataBlock(n, _) => 1 <= n <= |l.sent| && m == l.sent[n - 1]
    case Oack(b) => b == l.bs
    case Refusal(_) => false
  }

  ghost predicate ClientOk(file: seq<byte>, l: Link) {
    match l.client
    case Asking(_) => (|l.sent| > 0 ==> l.bs == DefaultBlocksize) && forall n: nat :: AckPkt(n) !in l.toServer
    case Receiving(bs, got, next) =>
      && bs == l.bs && 1 <= next <= |l.sent| + 1 && (next - 1) * bs <= |file| && got == file[..(next - 1) * bs]
      && forall n: nat | AckPkt(n) in l.toServer :: n < next
    case Done(got, last) =>
      got == file && 1 <= last <= |l.sent| && forall n: nat | AckPkt(n) in l.toServer :: n <= last
    case Gone => forall n: nat :: AckPkt(n) !in l.toServer
  }

  /** The last block sent is the short one. */
  ghost predicate AllSent(file: seq<byte>, l: Link) {
    |l.sent| > 0 && |l.sent| * l.bs > |file|
  }

  ghost predicate TransferOk(file: seq<byte>, l: Link, t: Option<Transfer>) {
    t.Some? ==>
      && t.value.data == file && t.value.blocksize == l.bs
      && (t.value.blockNum == |l.sent| || t.value.blockNum > MaxBlock)
      && (t.value.complete <==> AllSent(file, l))
  }

  ghost predicate LinkOk(file: seq<byte>, l: Link, t: Option<Transfer>, fin: bool) {
    if l.rrqPending then
      t.None? && l.client.Asking? && l.toClient == {} && l.toServer == {} && l.sent == [] && !fin
    else
      && 8 <= l.bs && SentOk(file, l) && (forall m | m in l.toClient :: DownOk(l, m))
      && ClientOk(file, l) && TransferOk(file, l, t)
      && (fin ==> t.None? && l.client.Done? && AllSent(file, l))
  }

  function TransferOf(s: Server, a: Addr): Option<Transfer> {
    if a in s.transfers then Some(s.transfers[a]) else None
  }

  ghost predicate AddrOk(c: Config, st: Sys, a: Addr)
    requires a in c.files && a in st.links
  {
    LinkOk(c.files[a], st.links[a], TransferOf(st.server, a), a in st.finished)
  }

  ghost predicate Inv(c: Config, st: Sys) {
    && c.Valid() && st.links.Keys == c.files.Keys && st.finished <= st.links.Keys
    && |st.finished| == st.server.stats.transfersComplete
    && forall a | a in c.files :: AddrOk(c, st, a)
  }

  // ---------------------------------------------------------------- sending a block

  lemma DataOfOne(m: ToClient)
    ensures DataOf([m]) == if m.DataBlock? then [m] else []
  {
    assert [m][1..] == [];
  }

  /** The next block goes out, once, unless its number no longer fits. */
  lemma BlockSent(file: seq<byte>, l: Link, t: Transfer)
    requires !l.rrqPending && LinkOk(file, l, Some(t), false) && !t.complete
    requires l.client.Asking? ==> l.bs == DefaultBlocksize
    ensures var (t', out) := SendDataBlock(t);
            LinkOk(file, Sends(l, out), Some(t'), false)
  {
    var n := t.blockNum + 1;
    if n <= MaxBlock {
      var m := DataBlock(n, Block(file, l.bs, n));
      DataOfOne(m);
      FullSoFar(file, l);
      BlockShape(file, l.bs, n);
      assert SentOk(file, Sends(l, [m]));
      DownStays(l, m);
    } else {
      assert l.sent + [] == l.sent && l.toClient + (set m | m in []) == l.toClient;
      assert Sends(l, []) == l;
    }
  }

  lemma FullSoFar(file: seq<byte>, l: Link)
    requires 0 < l.bs && !AllSent(file, l)
    ensures |l.sent| * l.bs <= |file|
  {
  }

  lemma DownStays(l: Link, m: ToClient)
    requires m.DataBlock? && m.n == |l.sent| + 1 && forall d | d in l.toClient :: DownOk(l, d)
    ensures forall d | d in Sends(l, [m]).toClient :: DownOk(Sends(l, [m]), d)
  {
    DataOfOne(m);
  }

  lemma OackSent(file: seq<byte>, l: Link, t: Transfer)
    requires !l.rrqPending && l.sent == [] && LinkOk(file, l, Some(t), false)
    ensures LinkOk(file, Sends(l, [Oack(l.bs)]), Some(t), false)
  {
    DataOfOne(Oack(l.bs));
    assert l.sent + [] == l.sent;
  }

  // ---------------------------------------------------------------- one event on one link

  lemma RequestOk(file: seq<byte>, l: Link, s: Server, a: Addr, asked: Option<int>)
    requires l.rrqPending && LinkOk(file, l, TransferOf(s, a), false)
    ensures var (s', out) := OnRrq(s, a, Some(file), asked);
            && LinkOk(file, Sends(l.(rrqPending := false, bs := Blocksize(asked)), out), TransferOf(s', a), false)
            && s'.stats.transfersComplete == s.stats.transfersComplete
            && forall b | b != a :: TransferOf(s', b) == TransferOf(s, b)
  {
    var t := Transfer(file, Blocksize(asked), 0, false);
    var l' := l.(rrqPending := false, bs := Blocksize(asked));
    assert LinkOk(file, l', Some(t), false);
    if t.blocksize != DefaultBlocksize {
      OackSent(file, l', t);
    } else {
      BlockSent(file, l', t);
    }
  }

  /** An acknowledgement of the last block can only come from a client that has the whole file. */
  lemma LastAck(file: seq<byte>, l: Link, t: Transfer, n: nat)
    requires !l.rrqPending && LinkOk(file, l, Some(t), false) && AckPkt(n) in l.toServer && n == t.blockNum && t.complete
    ensures l.client.Done? && AllSent(file, l)
  {
  }

  /** The client, if it still awaits a first block, cannot have acknowledged anything. */
  lemma NotAsking(file: seq<byte>, l: Link, n: nat)
    requires !l.rrqPending && ClientOk(file, l) && AckPkt(n) in l.toServer
    ensures !l.client.Asking? && !l.client.Gone?
  {
  }

  lemma NothingSent(l: Link)
    ensures Sends(l, []) == l
  {
    assert l.sent + [] == l.sent && l.toClient + (set m | m in []) == l.toClient;
  }

  lemma AckOk(file: seq<byte>, l: Link, s: Server, a: Addr, n: nat, fin: bool)
    requires LinkOk(file, l, TransferOf(s, a), fin) && AckPkt(n) in l.toServer
    ensures var (s', out) := OnAck(s, a, n);
            var counted := s'.stats.transfersComplete > s.stats.transfersComplete;
            && LinkOk(file, Sends(l, out), TransferOf(s', a), fin || counted)
            && (counted ==> !fin && s'.stats.transfersComplete == s.stats.transfersComplete + 1)
            && (!counted ==> s'.stats.transfersComplete == s.stats.transfersComplete)
            && forall b | b != a :: TransferOf(s', b) == TransferOf(s, b)
  {
    NothingSent(l);
    if a in s.transfers {
      var t := s.transfers[a];
      NotAsking(file, l, n);
      if n == t.blockNum && t.complete && !(n == 0 && t.blockNum == 0) {
        LastAck(file, l, t, n);
      } else if n == t.blockNum {
        BlockSent(file, l, t);
      }
    }
  }

  lemma ErrorOk(file: seq<byte>, l: Link, s: Server, a: Addr, fin: bool)
    requires LinkOk(file, l, TransferOf(s, a), fin)
    ensures LinkOk(file, l, TransferOf(OnError(s, a), a), fin)
    ensures forall b | b != a :: TransferOf(OnError(s, a), b) == TransferOf(s, b)
  {
  }

  function Gets(l: Link, down: ToClient): Link {
    var (client, out) := OnDatagram(l.client, down);
    l.(client := client, toServer := l.toServer + (set m | m in out))
  }

  /** The next block joined to what the client has. */
  lemma BlockTaken(file: seq<byte>, l: Link, next: nat)
    requires 8 <= l.bs && SentOk(file, l) && 1 <= next <= |l.sent| && (next - 1) * l.bs <= |file|
    ensures var got := file[..(next - 1) * l.bs] + Block(file, l.bs, next);
            if |Block(file, l.bs, next)| < l.bs then got == file
            else next * l.bs <= |file| && got == file[..next * l.bs]
  {
    BlockShape(file, l.bs, next);
    assert file[..|file|] == file;
  }

  lemma ReceiverTakes(file: seq<byte>, l: Link, down: ToClient)
    requires !l.rrqPending && 8 <= l.bs && SentOk(file, l) && ClientOk(file, l) && l.client.Receiving?
    requires DownOk(l, down) && down.DataBlock?
    ensures ClientOk(file, Gets(l, down))
  {
    var next := l.client.next;
    if down.n == next {
      BlockTaken(file, l, next);
    }
  }

  /** A client whose first sign of life is block 1 got the default block size. */
  lemma AskerTakes(file: seq<byte>, l: Link, down: ToClient)
    requires !l.rrqPending && 8 <= l.bs && SentOk(file, l) && ClientOk(file, l) && l.client.Asking?
    requires DownOk(l, down) && down.DataBlock?
    ensures ClientOk(file, Gets(l, down))
  {
    if down.n == 1 {
      BlockTaken(file, l, 1);
      assert file[..0] == [];
    }
  }

  lemma OackTaken(file: seq<byte>, l: Link, down: ToClient)
    requires !l.rrqPending && 8 <= l.bs && SentOk(file, l) && ClientOk(file, l) && DownOk(l, down) && down.Oack?
    ensures ClientOk(file, Gets(l, down))
  {
    assert file[..0] == [];
  }

  lemma ClientGetsOk(file: seq<byte>, l: Link, down: ToClient, t: Option<Transfer>, fin: bool)
    requires LinkOk(file, l, t, fin) && down in l.toClient
    ensures LinkOk(file, Gets(l, down), t, fin)
  {
    match down {
      case Oack(_) => OackTaken(file, l, down);
      case DataBlock(_, _) =>
        match l.client {
          case Asking(_) => AskerTakes(file, l, down);
          case Receiving(_, _, _) => ReceiverTakes(file, l, down);
          case Done(_, _) =>
          case Gone =>
        }
    }
  }

  // ---------------------------------------------------------------- every run

  lemma InvRequest(c: Config, st: Sys, a: Addr)
    requires Inv(c, st)
    ensures Inv(c, Step(c, st, Request(a)))
  {
    if a in c.files && st.links[a].rrqPending {
      assert AddrOk(c, st, a);
      RequestOk(c.files[a], st.links[a], st.server, a, c.asks[a]);
      OthersStay(c, st, Step(c, st, Request(a)), a);
    }
  }

  lemma InvServerGets(c: Config, st: Sys, a: Addr, up: ToServer)
    requires Inv(c, st)
    ensures Inv(c, Step(c, st, ServerGets(a, up)))
  {
    if a in c.files && up in st.links[a].toServer {
      assert AddrOk(c, st, a);
      if up.ErrorPkt? {
        ErrorOk(c.files[a], st.links[a], st.server, a, a in st.finished);
        OthersStay(c, st, Step(c, st, ServerGets(a, up)), a);
      } else {
        InvAckGets(c, st, a, up.n);
      }
    }
  }

  lemma InvAckGets(c: Config, st: Sys, a: Addr, n: nat)
    requires Inv(c, st) && a in c.files && AckPkt(n) in st.links[a].toServer && AddrOk(c, st, a)
    ensures Inv(c, Step(c, st, ServerGets(a, AckPkt(n))))
  {
    AckOk(c.files[a], st.links[a], st.server, a, n, a in st.finished);
    OthersStay(c, st, Step(c, st, ServerGets(a, AckPkt(n))), a);
  }

  lemma InvClientGets(c: Config, st: Sys, a: Addr, down: ToClient)
    requires Inv(c, st)
    ensures Inv(c, Step(c, st, ClientGets(a, down)))
  {
    if a in c.files && down in st.links[a].toClient {
      assert AddrOk(c, st, a);
      ClientGetsOk(c.files[a], st.links[a], down, TransferOf(st.server, a), a in st.finished);
      OthersStay(c, st, Step(c, st, ClientGets(a, down)), a);
    }
  }

  lemma InvStep(c: Config, st: Sys, e: Event)
    requires Inv(c, st)
    ensures Inv(c, Step(c, st, e))
  {
    match e
    case Request(a) => InvRequest(c, st, a);
    case ServerGets(a, up) => InvServerGets(c, st, a, up);
    case ClientGets(a, down) => InvClientGets(c, st, a, down);
  }

  lemma OthersStay(c: Config, st: Sys, st': Sys, a: Addr)
    requires Inv(c, st) && a in c.files && st'.links.Keys == st.links.Keys
    requires AddrOk(c, st', a)
    requires forall b | b in c.files && b != a ::
               && st'.links[b] == st.links[b] && TransferOf(st'.server, b) == TransferOf(st.server, b)
               && (b in st'.finished <==> b in st.finished)
    ensures forall b | b in c.files :: AddrOk(c, st', b)
  {
    forall b | b in c.files
      ensures AddrOk(c, st', b)
    {
      if b != a {
        assert AddrOk(c, st, b);
      }
    }
  }

  lemma {:induction false} InvRun(c: Config, es: seq<Event>)
    requires c.Valid()
    ensures Inv(c, Run(c, es))
  {
    if es != [] {
      InvRun(c, es[..|es| - 1]);
      InvStep(c, Run(c, es[..|es| - 1]), es[|es| - 1]);
    }
  }

  // ---------------------------------------------------------------- main results

  function Payloads(sent: seq<ToClient>): seq<seq<byte>> {
    seq(|sent|, i requires 0 <= i < |sent| => if sent[i].DataBlock? then sent[i].payload else [])
  }

  /** A transfer is counted only once its client holds the whole file, and each is counted once. */
  lemma CountedMeansDelivered(c: Config, es: seq<Event>)
    requires c.Valid()
    ensures var st := Run(c, es);
            && st.server.stats.transfersComplete == |st.finished| && st.finished <= c.files.Keys
            && forall a | a in st.finished :: st.links[a].client.Done? && st.links[a].client.got == c.files[a]
  {
    InvRun(c, es);
    var st := Run(c, es);
    forall a | a in st.finished
      ensures st.links[a].client.Done? && st.links[a].client.got == c.files[a]
    {
      assert AddrOk(c, st, a);
    }
  }

  /** A client that is done holds the file, counted or not. */
  lemma DoneMeansDelivered(c: Config, es: seq<Event>, a: Addr)
    requires c.Valid() && a in c.files && Run(c, es).links[a].client.Done?
    ensures Run(c, es).links[a].client.got == c.files[a]
  {
    InvRun(c, es);
    assert AddrOk(c, Run(c, es), a);
  }

  /** Whatever the network does, the data blocks sent to an address are numbered 1, 2, 3, ... without repetition. */
  lemma EachBlockOnce(c: Config, es: seq<Event>, a: Addr, i: nat)
    requires c.Valid() && a in c.files && i < |Run(c, es).links[a].sent|
    ensures var l := Run(c, es).links[a];
            l.sent[i] == DataBlock(i + 1, Block(c.files[a], l.bs, i + 1))
  {
    InvRun(c, es);
    assert AddrOk(c, Run(c, es), a);
  }

  lemma {:induction false} BlocksJoin(file: seq<byte>, l: Link, n: nat)
    requires 8 <= l.bs && SentOk(file, l) && n <= |l.sent|
    ensures Join(Payloads(l.sent[..n])) == file[..Min(n * l.bs, |file|)]
  {
    if n == 0 {
      assert Payloads(l.sent[..0]) == [] && file[..0] == [];
    } else {
      MulMono(n - 1, |l.sent| - 1, l.bs);
      BlocksJoin(file, l, n - 1);
      BlockShape(file, l.bs, n);
      var p := Block(file, l.bs, n);
      assert Payloads(l.sent[..n]) == Payloads(l.sent[..n - 1]) + [p];
      JoinAppend(Payloads(l.sent[..n - 1]), [p]);
      JoinOne(p);
    }
  }

  lemma JoinOne(p: seq<byte>)
    ensures Join([p]) == p
  {
    assert [p][1..] == [] && p + [] == p;
  }

  /** Once a transfer is counted, the blocks sent add up to the file, and only the last is short; it is empty when the
      block size divides the file. */
  lemma BlocksAreTheFile(c: Config, es: seq<Event>, a: Addr)
    requires c.Valid() && a in c.files && a in Run(c, es).finished
    ensures var l := Run(c, es).links[a];
            && Join(Payloads(l.sent)) == c.files[a]
            && |l.sent| > 0 && |Payloads(l.sent)[|l.sent| - 1]| < l.bs
            && forall i | 0 <= i < |l.sent| - 1 :: |Payloads(l.sent)[i]| == l.bs
  {
    InvRun(c, es);
    var st := Run(c, es);
    assert AddrOk(c, st, a);
    FinishedBlocks(c.files[a], st.links[a]);
  }

  lemma FinishedBlocks(file: seq<byte>, l: Link)
    requires 8 <= l.bs && SentOk(file, l) && AllSent(file, l)
    ensures Join(Payloads(l.sent)) == file
    ensures |Payloads(l.sent)[|l.sent| - 1]| < l.bs
    ensures forall i | 0 <= i < |l.sent| - 1 :: |Payloads(l.sent)[i]| == l.bs
  {
    var n := |l.sent|;
    BlocksJoin(file, l, n);
    assert l.sent[..n] == l.sent && file[..|file|] == file;
    BlockShape(file, l.bs, n);
    forall i | 0 <= i < n - 1
      ensures |Payloads(l.sent)[i]| == l.bs
    {
      FullBlock(file, l, i);
    }
  }

  lemma FullBlock(file: seq<byte>, l: Link, i: nat)
    requires 8 <= l.bs && SentOk(file, l) && i < |l.sent| - 1
    ensures |Payloads(l.sent)[i]| == l.bs
  {
    MulMono(i + 1, |l.sent| - 1, l.bs);
    MulMono(i, |l.sent| - 1, l.bs);
    BlockShape(file, l.bs, i + 1);
  }
}
