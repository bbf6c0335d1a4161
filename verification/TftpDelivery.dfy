/**
  Which files the TFTP server delivers: from every reachable state of any number of transfers, a client that has not
  given up can still be served to the end, exactly when the number of its blocks fits 16 bits.
 */
module TftpDelivery {
  import opened Bytes
  import opened Tftp
  import opened TftpSafety

  /** The client can accept the block size it will be offered. */
  predicate Acceptable(asked: Option<int>) {
    asked.Some? ==> 8 <= asked.value
  }

  /** What was sent stays on the network, and each side is at most one block ahead of what it has heard. */
  ghost predicate ClientLive(file: seq<byte>, l: Link, asked: Option<int>) {
    match l.client
    case Asking(a) => a == asked && |l.sent| <= 1 && (l.sent == [] ==> Oack(l.bs) in l.toClient && l.bs != DefaultBlocksize)
    case Receiving(_, _, next) => next >= |l.sent| && next >= 1 && AckPkt(next - 1) in l.toServer && Acceptable(asked)
    case Done(_, last) => last == |l.sent| && AckPkt(last) in l.toServer && AllSent(file, l) && Acceptable(asked)
    case Gone => true
  }

  ghost predicate LiveOk(file: seq<byte>, l: Link, t: Option<Transfer>, fin: bool, asked: Option<int>) {
    if l.rrqPending then l.client == Asking(asked)
    else
      && l.bs == Blocksize(asked)
      && (ErrorPkt in l.toServer ==> l.client.Gone?)
      && (forall i | 0 <= i < |l.sent| :: l.sent[i] in l.toClient)
      && (t.None? ==> fin || l.client.Gone?)
      && (t.Some? ==> t.value.blockNum == |l.sent| || (|l.sent| == MaxBlock && !AllSent(file, l)))
      && ClientLive(file, l, asked)
  }

  ghost predicate BothOk(file: seq<byte>, l: Link, t: Option<Transfer>, fin: bool, asked: Option<int>) {
    LinkOk(file, l, t, fin) && LiveOk(file, l, t, fin, asked)
  }

  // ---------------------------------------------------------------- one link

  /** One more block keeps everything, if every client that still listens has acknowledged the last. */
  lemma LiveSends(file: seq<byte>, l: Link, t: Transfer, asked: Option<int>)
    requires !l.rrqPending && BothOk(file, l, Some(t), false, asked) && !t.complete
    requires match l.client
             case Asking(_) => l.bs == DefaultBlocksize && l.sent == []
             case Receiving(_, _, next) => next > |l.sent|
             case Done(_, _) => false
             case Gone => true
    ensures var (t', out) := SendDataBlock(t);
            LiveOk(file, Sends(l, out), Some(t'), false, asked)
  {
    var n := t.blockNum + 1;
    if n <= MaxBlock {
      var m := DataBlock(n, Block(file, l.bs, n));
      DataOfOne(m);
      LiveBlock(l, m);
    } else {
      NothingSent(l);
    }
  }

  lemma LiveBlock(l: Link, m: ToClient)
    requires m.DataBlock? && forall i | 0 <= i < |l.sent| :: l.sent[i] in l.toClient
    ensures Sends(l, [m]).sent == l.sent + [m] && Sends(l, [m]).toServer == l.toServer
    ensures Sends(l, [m]).client == l.client && Sends(l, [m]).bs == l.bs && !l.rrqPending ==> !Sends(l, [m]).rrqPending
    ensures forall i | 0 <= i < |l.sent| + 1 :: Sends(l, [m]).sent[i] in Sends(l, [m]).toClient
  {
    DataOfOne(m);
    assert m in [m];
  }

  lemma LiveRequest(file: seq<byte>, l: Link, s: Server, a: Addr, asked: Option<int>)
    requires l.rrqPending && BothOk(file, l, TransferOf(s, a), false, asked)
    ensures var (s', out) := OnRrq(s, a, Some(file), asked);
            LiveOk(file, Sends(l.(rrqPending := false, bs := Blocksize(asked)), out), TransferOf(s', a), false, asked)
  {
    var l' := l.(rrqPending := false, bs := Blocksize(asked));
    var m := if l'.bs != DefaultBlocksize then Oack(l'.bs) else DataBlock(1, Block(file, l'.bs, 1));
    assert OnRrq(s, a, Some(file), asked).1 == [m];
    DataOfOne(m);
    assert m in [m];
  }

  lemma LiveAck(file: seq<byte>, l: Link, s: Server, a: Addr, n: nat, fin: bool, asked: Option<int>)
    requires BothOk(file, l, TransferOf(s, a), fin, asked) && AckPkt(n) in l.toServer
    ensures var (s', out) := OnAck(s, a, n);
            var counted := s'.stats.transfersComplete > s.stats.transfersComplete;
            LiveOk(file, Sends(l, out), TransferOf(s', a), fin || counted, asked)
  {
    NothingSent(l);
    if a in s.transfers {
      var t := s.transfers[a];
      NotAsking(file, l, n);
      if n == t.blockNum && !(t.complete && t.blockNum != 0) {
        LiveSends(file, l, t, asked);
      }
    }
  }

  lemma LiveClient(file: seq<byte>, l: Link, down: ToClient, t: Option<Transfer>, fin: bool, asked: Option<int>)
    requires BothOk(file, l, t, fin, asked) && down in l.toClient
    ensures LiveOk(file, Gets(l, down), t, fin, asked)
  {
    match down {
      case Oack(_) => LiveOack(file, l, down, t, fin, asked);
      case DataBlock(n, _) => LiveData(file, l, down, t, fin, asked);
    }
  }

  lemma LiveOack(file: seq<byte>, l: Link, down: ToClient, t: Option<Transfer>, fin: bool, asked: Option<int>)
    requires BothOk(file, l, t, fin, asked) && down in l.toClient && down.Oack?
    ensures LiveOk(file, Gets(l, down), t, fin, asked)
  {
    var out := OnDatagram(l.client, down).1;
    if out != [] {
      assert out[0] in out;
    }
  }

  lemma LiveData(file: seq<byte>, l: Link, down: ToClient, t: Option<Transfer>, fin: bool, asked: Option<int>)
    requires BothOk(file, l, t, fin, asked) && down in l.toClient && down.DataBlock?
    ensures LiveOk(file, Gets(l, down), t, fin, asked)
  {
    var out := OnDatagram(l.client, down).1;
    if out != [] {
      assert out[0] in out;
    }
    if (l.client.Asking? && down.n == 1) || (l.client.Receiving? && down.n == l.client.next) {
      BlockShape(file, l.bs, down.n);
    }
  }

  // ---------------------------------------------------------------- every run

  ghost predicate LiveAt(c: Config, st: Sys, a: Addr)
    requires a in c.files && a in c.asks && a in st.links
  {
    BothOk(c.files[a], st.links[a], TransferOf(st.server, a), a in st.finished, c.asks[a])
  }

  lemma OthersRrq(s: Server, b: Addr, file: seq<byte>, asked: Option<int>, a: Addr)
    requires a != b
    ensures TransferOf(OnRrq(s, b, Some(file), asked).0, a) == TransferOf(s, a)
  {
  }

  lemma OthersAck(s: Server, b: Addr, n: nat, a: Addr)
    requires a != b
    ensures TransferOf(OnAck(s, b, n).0, a) == TransferOf(s, a)
  {
  }

  /** Events of other addresses change nothing here. */
  lemma OtherAddress(c: Config, st: Sys, e: Event, a: Addr)
    requires c.Valid() && a in st.links && e.a != a
    ensures Step(c, st, e).links[a] == st.links[a]
    ensures TransferOf(Step(c, st, e).server, a) == TransferOf(st.server, a)
    ensures a in Step(c, st, e).finished <==> a in st.finished
  {
    if e.a in c.files {
      match e
      case Request(b) => OthersRrq(st.server, b, c.files[b], c.asks[b], a);
      case ServerGets(b, up) => if up.AckPkt? { OthersAck(st.server, b, up.n, a); }
      case ClientGets(_, _) =>
    }
  }

  lemma LiveStep(c: Config, st: Sys, e: Event, a: Addr)
    requires Inv(c, st) && a in c.files && LiveAt(c, st, a)
    ensures LiveAt(c, Step(c, st, e), a)
  {
    InvStep(c, st, e);
    assert AddrOk(c, Step(c, st, e), a);
    if e.a != a {
      OtherAddress(c, st, e, a);
    } else {
      var l, file := st.links[a], c.files[a];
      match e {
        case Request(_) => if l.rrqPending { LiveRequest(file, l, st.server, a, c.asks[a]); }
        case ServerGets(_, up) =>
          if up in l.toServer && up.AckPkt? {
            LiveAck(file, l, st.server, a, up.n, a in st.finished, c.asks[a]);
          }
        case ClientGets(_, down) =>
          if down in l.toClient {
            LiveClient(file, l, down, TransferOf(st.server, a), a in st.finished, c.asks[a]);
          }
      }
    }
  }

  lemma {:induction false} LiveRun(c: Config, es: seq<Event>, a: Addr)
    requires c.Valid() && a in c.files
    ensures Inv(c, Run(c, es)) && LiveAt(c, Run(c, es), a)
  {
    InvRun(c, es);
    if es != [] {
      LiveRun(c, es[..|es| - 1], a);
      LiveStep(c, Run(c, es[..|es| - 1]), es[|es| - 1], a);
    }
  }

  // ---------------------------------------------------------------- some event always brings the end nearer

  predicate Fits(c: Config, a: Addr)
    requires a in c.files && a in c.asks
  {
    Acceptable(c.asks[a]) && |c.files[a]| < MaxBlock * Blocksize(c.asks[a])
  }

  /** Blocks still to come, thrice, and where between two blocks the exchange stands. */
  function Rank(l: Link, fin: bool): int {
    if fin then 0
    else if l.rrqPending then 3 * MaxBlock + 10
    else
      3 * (MaxBlock - |l.sent|)
      + match l.client
        case Asking(_) => 3
        case Receiving(_, _, next) => if next == |l.sent| then 2 else 1
        case Done(_, _) => 1
        case Gone => 0
  }

  lemma RankBound(c: Config, st: Sys, a: Addr)
    requires Inv(c, st) && a in c.files && LiveAt(c, st, a)
    ensures Rank(st.links[a], a in st.finished) >= 0
  {
    assert AddrOk(c, st, a);
  }

  /** What is done next for a client that still listens. */
  function NextEvent(l: Link, a: Addr): Event {
    if l.rrqPending then Request(a)
    else match l.client
      case Asking(_) => if l.sent == [] then ClientGets(a, Oack(l.bs)) else ClientGets(a, l.sent[0])
      case Receiving(_, _, next) =>
        if 0 < next == |l.sent| then ClientGets(a, l.sent[next - 1])
        else ServerGets(a, AckPkt(if next > 0 then next - 1 else 0))
      case Done(_, last) => ServerGets(a, AckPkt(last))
      case Gone => Request(a)
  }

  lemma RequestNearer(c: Config, st: Sys, a: Addr)
    requires Inv(c, st) && a in c.files && LiveAt(c, st, a) && st.links[a].rrqPending
    ensures var l' := Step(c, st, Request(a)).links[a];
            !l'.rrqPending && l'.client == st.links[a].client
  {
  }

  lemma OfferNearer(file: seq<byte>, l: Link, t: Option<Transfer>, asked: Option<int>)
    requires !l.rrqPending && BothOk(file, l, t, false, asked) && Acceptable(asked)
    requires l.client.Asking? && l.sent == []
    ensures Oack(l.bs) in l.toClient
    ensures !Gets(l, Oack(l.bs)).client.Gone? && Rank(Gets(l, Oack(l.bs)), false) < Rank(l, false)
  {
  }

  lemma BlockNearer(file: seq<byte>, l: Link, t: Option<Transfer>, asked: Option<int>, n: nat)
    requires !l.rrqPending && BothOk(file, l, t, false, asked) && n == |l.sent| > 0
    requires l.client.Asking? || (l.client.Receiving? && l.client.next == n)
    ensures l.sent[n - 1] in l.toClient
    ensures !Gets(l, l.sent[n - 1]).client.Gone? && Rank(Gets(l, l.sent[n - 1]), false) < Rank(l, false)
  {
    var m := l.sent[n - 1];
    assert m == DataBlock(n, Block(file, l.bs, n)) && m in l.toClient;
    assert DownOk(l, m);
  }

  /** The file fits, so the next block number does. */
  lemma RoomForBlock(file: seq<byte>, bs: nat, n: nat)
    requires |file| < MaxBlock * bs && n * bs <= |file|
    ensures n < MaxBlock
  {
    if n >= MaxBlock {
      MulMono(MaxBlock, n, bs);
    }
  }

  lemma ServerNearer(file: seq<byte>, l: Link, s: Server, a: Addr, n: nat, asked: Option<int>)
    requires !l.rrqPending && BothOk(file, l, TransferOf(s, a), false, asked) && |file| < MaxBlock * l.bs
    requires (l.client.Receiving? && l.client.next == |l.sent| + 1 && n == |l.sent|) || (l.client.Done? && n == l.client.last)
    ensures var (s', out) := OnAck(s, a, n);
            && AckPkt(n) in l.toServer
            && (if l.client.Done? then s'.stats.transfersComplete > s.stats.transfersComplete
                else s'.stats == s.stats && DataOf(out) == [DataBlock(n + 1, Block(file, l.bs, n + 1))])
  {
    var t := s.transfers[a];
    if l.client.Receiving? {
      RoomForBlock(file, l.bs, n);
      DataOfOne(DataBlock(n + 1, Block(file, l.bs, n + 1)));
    } else {
      RoomForLast(file, l);
    }
  }

  lemma RoomForLast(file: seq<byte>, l: Link)
    requires AllSent(file, l)
    ensures |l.sent| > 0
  {
  }

  /** The event does happen, and brings the end nearer. */
  lemma Nearer(c: Config, st: Sys, a: Addr)
    requires Inv(c, st) && a in c.files && LiveAt(c, st, a) && Fits(c, a)
    requires a !in st.finished && !st.links[a].client.Gone?
    ensures var st' := Step(c, st, NextEvent(st.links[a], a));
            && (a in st'.finished || !st'.links[a].client.Gone?)
            && Rank(st'.links[a], a in st'.finished) < Rank(st.links[a], false)
  {
    var l, file, t := st.links[a], c.files[a], TransferOf(st.server, a);
    assert AddrOk(c, st, a);
    if l.rrqPending {
      RequestNearer(c, st, a);
      InvStep(c, st, Request(a));
      assert AddrOk(c, Step(c, st, Request(a)), a);
    } else if l.client.Asking? && l.sent == [] {
      OfferNearer(file, l, t, c.asks[a]);
    } else if l.client.Asking? {
      BlockNearer(file, l, t, c.asks[a], 1);
    } else if l.client.Receiving? && l.client.next == |l.sent| {
      BlockNearer(file, l, t, c.asks[a], |l.sent|);
    } else {
      ServedNearer(c, st, a);
    }
  }

  lemma ServedNearer(c: Config, st: Sys, a: Addr)
    requires Inv(c, st) && a in c.files && LiveAt(c, st, a) && Fits(c, a) && !st.links[a].rrqPending
    requires a !in st.finished
    requires st.links[a].client.Done? || (st.links[a].client.Receiving? && st.links[a].client.next != |st.links[a].sent|)
    ensures var st' := Step(c, st, NextEvent(st.links[a], a));
            && (a in st'.finished || !st'.links[a].client.Gone?)
            && Rank(st'.links[a], a in st'.finished) < Rank(st.links[a], false)
  {
    var l := st.links[a];
    assert AddrOk(c, st, a);
    var n := if l.client.Done? then l.client.last else |l.sent|;
    assert NextEvent(l, a) == ServerGets(a, AckPkt(n));
    ServerNearer(c.files[a], l, st.server, a, n, c.asks[a]);
  }

  // ---------------------------------------------------------------- main results

  lemma RunAppend(c: Config, es: seq<Event>, e: Event)
    requires c.Valid()
    ensures Run(c, es + [e]) == Step(c, Run(c, es), e)
  {
    assert (es + [e])[..|es|] == es;
  }

  /** The run `es`, and that the client at `a` can still be served in it. */
  ghost predicate Servable(c: Config, es: seq<Event>, a: Addr)
    requires c.Valid() && a in c.files
  {
    a in Run(c, es).finished || !Run(c, es).links[a].client.Gone?
  }

  function RankOf(c: Config, es: seq<Event>, a: Addr): int
    requires c.Valid() && a in c.files
  {
    Rank(Run(c, es).links[a], a in Run(c, es).finished)
  }

  lemma OneNearer(c: Config, es: seq<Event>, a: Addr) returns (e: Event)
    requires c.Valid() && a in c.files && Fits(c, a) && Servable(c, es, a) && a !in Run(c, es).finished
    ensures Servable(c, es + [e], a) && 0 <= RankOf(c, es + [e], a) < RankOf(c, es, a)
  {
    var st := Run(c, es);
    LiveRun(c, es, a);
    e := NextEvent(st.links[a], a);
    Nearer(c, st, a);
    RunAppend(c, es, e);
    LiveRun(c, es + [e], a);
    RankBound(c, Run(c, es + [e]), a);
  }

  /** Every reachable run, whatever the other clients have done, can be carried on until this one is counted, if it
      has not given up and its file fits. */
  lemma {:induction false} CanFinish(c: Config, es: seq<Event>, a: Addr) returns (more: seq<Event>)
    requires c.Valid() && a in c.files && Fits(c, a) && Servable(c, es, a)
    ensures a in Run(c, es + more).finished
    decreases RankOf(c, es, a)
  {
    if a in Run(c, es).finished {
      more := [];
      assert es + more == es;
    } else {
      var e := OneNearer(c, es, a);
      var rest := CanFinish(c, es + [e], a);
      more := [e] + rest;
      assert es + more == es + [e] + rest;
    }
  }

  lemma CountedFits(c: Config, es: seq<Event>, a: Addr)
    requires c.Valid() && a in c.files && a in Run(c, es).finished
    ensures Fits(c, a)
  {
    LiveRun(c, es, a);
    var l := Run(c, es).links[a];
    assert AddrOk(c, Run(c, es), a);
    MulMono(|l.sent|, MaxBlock, l.bs);
  }

  /** A transfer can be counted in some run exactly when the client can accept the block size and the file has fewer
      than 65535 full blocks of that size. */
  lemma CountedIff(c: Config, a: Addr)
    requires c.Valid() && a in c.files
    ensures (exists es :: a in Run(c, es).finished) <==> Fits(c, a)
  {
    if Fits(c, a) {
      var es := CanFinish(c, [], a);
      assert a in Run(c, [] + es).finished;
    } else if es :| a in Run(c, es).finished {
      CountedFits(c, es, a);
    }
  }
}
