/**
  What `write_flash` returns for every series of packets and timeouts it can receive, whoever sent them
  (src/defib/agent/client.py:682-740).
 */
module StreamAnswers {
  import opened Bytes
  import opened Flash
  import opened StreamTypes
  import opened StreamHost
  import opened StreamClient
  import StreamLiveness

  /** The packets that come before the first timeout, READYs aside. */
  function Heard(inputs: Inputs): seq<ToHost> {
    if inputs == [] || inputs[0].None? then []
    else (if inputs[0].value.Ready? then [] else [inputs[0].value]) + Heard(inputs[1..])
  }

  /** Acceptance, any number of progress packets, and then an ACK with `status`. */
  ghost predicate Ends(ms: seq<ToHost>, k: nat, status: nat) {
    |ms| >= k + 2 && ms[0] == Ack(ACK_OK) && (forall i | 1 <= i <= k :: ms[i].Progress?) && ms[k + 1] == Ack(status)
  }

  /** The answer in `ms`, once the request has been accepted. */
  function AfterAcceptance(ms: seq<ToHost>): Pc {
    if ms == [] then Raised
    else match ms[0]
      case Ack(status) => Returned(status == ACK_OK)
      case Progress(_, _) => AfterAcceptance(ms[1..])
      case Ready => Raised
  }

  function Answer(ms: seq<ToHost>): Pc {
    if ms == [] then Raised
    else if ms[0] == Ack(ACK_OK) then AfterAcceptance(ms[1..])
    else Returned(false)
  }

  // ---------------------------------------------------------------- the loops

  /** What the loops keep of their counters. */
  ghost predicate Placed(q: Request, h: Host)
    requires 0 < q.g.sector
  {
    && (h.pc.SectorTop? ==> h.s <= NumSectors(q.g, |q.image|) && h.sent == 0)
    && (h.pc.Sending? ==> h.s < NumSectors(q.g, |q.image|) && h.sent <= SectorBytes(q.g, |q.image|, h.s))
    && (h.pc.AwaitAccept? ==> h.s == 0 && h.sent == 0)
    && (h.pc.AwaitProgress? ==> h.s < NumSectors(q.g, |q.image|))
    && !h.pc.Start? && !h.pc.Returned? && !h.pc.Raised?
  }

  /** The number of the next packet fits, while something of the sector remains. */
  lemma NumberFits(q: Request, h: Host)
    requires 0 < q.g.sector && 0 < q.chunk && |q.image| <= 0x10000 * q.chunk
    requires h.s < NumSectors(q.g, |q.image|) && h.sent < SectorBytes(q.g, |q.image|, h.s)
    ensures SeqNo(q, h) <= 0xFFFF
  {
    SectorFacts(q.g, |q.image|, h.s);
    StreamLiveness.QuotientSum(h.s * q.g.sector, h.sent, q.chunk, 0x10000);
  }

  lemma SendingPlaced(q: Request, h: Host)
    requires 0 < q.g.sector && 0 < q.chunk && h.pc.Sending? && Placed(q, h)
    requires h.sent < SectorBytes(q.g, |q.image|, h.s) ==> SeqNo(q, h) <= 0xFFFF
    ensures Placed(q, Advance(q, h).0) && !Advance(q, h).0.pc.AwaitAccept?
  {
  }

  lemma SectorTopPlaced(q: Request, h: Host)
    requires 0 < q.g.sector && 0 < q.chunk && h.pc.SectorTop? && Placed(q, h)
    ensures Placed(q, Advance(q, h).0) && !Advance(q, h).0.pc.AwaitAccept?
  {
    if h.s < NumSectors(q.g, |q.image|) {
      SectorFacts(q.g, |q.image|, h.s);
    }
  }

  lemma AdvancePlaced(q: Request, h: Host)
    requires 0 < q.g.sector && 0 < q.chunk && |q.image| <= 0x10000 * q.chunk && Placed(q, h) && !Waiting(h.pc)
    ensures Placed(q, Advance(q, h).0) && !Advance(q, h).0.pc.AwaitAccept?
  {
    if h.pc.Sending? {
      assert h.sent < SectorBytes(q.g, |q.image|, h.s) ==> SeqNo(q, h) <= 0xFFFF by {
        if h.sent < SectorBytes(q.g, |q.image|, h.s) {
          NumberFits(q, h);
        }
      }
      SendingPlaced(q, h);
    } else {
      SectorTopPlaced(q, h);
    }
  }

  lemma PacketPlaced(q: Request, h: Host, m: ToHost)
    requires 0 < q.g.sector && Placed(q, h) && Waiting(h.pc)
    ensures var h' := OnPacket(h, m); h'.pc.Returned? || Placed(q, h')
    ensures OnPacket(h, m).pc.AwaitAccept? ==> m.Ready? && h.pc.AwaitAccept?
  {
  }

  /** The answer still to come. */
  function Rest(h: Host, inputs: Inputs): Pc {
    if h.pc.AwaitAccept? then Answer(Heard(inputs)) else AfterAcceptance(Heard(inputs))
  }

  lemma HeardFirst(inputs: Inputs)
    requires inputs != [] && inputs[0].Some?
    ensures Heard(inputs) == (if inputs[0].value.Ready? then [] else [inputs[0].value]) + Heard(inputs[1..])
  {
  }

  lemma FirstOf(m: ToHost, ms: seq<ToHost>)
    ensures Answer([m] + ms) == if m == Ack(ACK_OK) then AfterAcceptance(ms) else Returned(false)
    ensures m.Progress? ==> AfterAcceptance([m] + ms) == AfterAcceptance(ms)
    ensures m.Ack? ==> AfterAcceptance([m] + ms) == Returned(m.status == ACK_OK)
  {
    assert ([m] + ms)[1..] == ms;
  }

  /** Taking a packet leaves the answer, or is it. */
  lemma PacketAnswers(q: Request, h: Host, inputs: Inputs)
    requires 0 < q.g.sector && Placed(q, h) && Waiting(h.pc) && inputs != [] && inputs[0].Some?
    ensures var h' := OnPacket(h, inputs[0].value);
            if h'.pc.Returned? then Rest(h, inputs) == h'.pc else Rest(h', inputs[1..]) == Rest(h, inputs)
  {
    var m := inputs[0].value;
    HeardFirst(inputs);
    if m.Ready? {
      assert [] + Heard(inputs[1..]) == Heard(inputs[1..]);
    } else {
      FirstOf(m, Heard(inputs[1..]));
    }
  }

  lemma DriveEnded(q: Request, x: StreamClient.Rest)
    requires 0 < q.g.sector && 0 < q.chunk && (x.host.pc.Returned? || x.host.pc.Raised?)
    ensures Drive(q, x) == x
  {
  }

  lemma {:induction false} DriveAnswers(q: Request, x: StreamClient.Rest)
    requires 0 < q.g.sector && 0 < q.chunk && |q.image| <= 0x10000 * q.chunk && Placed(q, x.host)
    ensures Drive(q, x).host.pc == Rest(x.host, x.inputs)
    decreases |x.inputs|, Effort(q, x.host)
  {
    if !Waiting(x.host.pc) {
      var (h, out) := Advance(q, x.host);
      AdvancePlaced(q, x.host);
      DriveAnswers(q, StreamClient.Rest(h, x.inputs, x.sent + out));
    } else if x.inputs != [] && x.inputs[0].Some? {
      var y := StreamClient.Rest(OnPacket(x.host, x.inputs[0].value), x.inputs[1..], x.sent);
      PacketPlaced(q, x.host, x.inputs[0].value);
      PacketAnswers(q, x.host, x.inputs);
      if y.host.pc.Returned? {
        DriveEnded(q, y);
      } else {
        DriveAnswers(q, y);
      }
    }
  }

  // ---------------------------------------------------------------- main results

  lemma {:induction false} AcceptedEnds(ms: seq<ToHost>, ok: bool)
    requires forall i | 0 <= i < |ms| :: !ms[i].Ready?
    ensures AfterAcceptance(ms) == Returned(ok)
            <==> exists k: nat, status: nat :: Ends([Ack(ACK_OK)] + ms, k, status) && (ok <==> status == ACK_OK)
  {
    var all := [Ack(ACK_OK)] + ms;
    if ms != [] {
      if ms[0].Progress? {
        AcceptedEnds(ms[1..], ok);
        OneMore(ms, ok);
      } else {
        assert all[1] == ms[0];
        if ok <==> ms[0].status == ACK_OK {
          assert Ends(all, 0, ms[0].status);
        }
        forall k: nat, status: nat | Ends(all, k, status)
          ensures k == 0 && status == ms[0].status
        {
        }
      }
    }
  }

  /** A progress packet in front moves the end by one. */
  lemma OneMore(ms: seq<ToHost>, ok: bool)
    requires ms != [] && ms[0].Progress?
    ensures (exists k: nat, status: nat :: Ends([Ack(ACK_OK)] + ms[1..], k, status) && (ok <==> status == ACK_OK))
            <==> exists k: nat, status: nat :: Ends([Ack(ACK_OK)] + ms, k, status) && (ok <==> status == ACK_OK)
  {
    var less, all := [Ack(ACK_OK)] + ms[1..], [Ack(ACK_OK)] + ms;
    assert forall i | 1 <= i < |less| :: less[i] == all[i + 1];
    assert all[1] == ms[0];
    forall k: nat, status: nat | Ends(less, k, status)
      ensures Ends(all, k + 1, status)
    {
      assert forall i | 2 <= i <= k + 1 :: all[i] == less[i - 1];
    }
    forall k: nat, status: nat | Ends(all, k, status)
      ensures 0 < k && Ends(less, k - 1, status)
    {
      assert forall i | 1 <= i <= k - 1 :: less[i] == all[i + 1];
    }
  }

  lemma {:induction false} HeardNoReady(inputs: Inputs)
    ensures forall i | 0 <= i < |Heard(inputs)| :: !Heard(inputs)[i].Ready?
  {
    if inputs != [] && inputs[0].Some? {
      HeardNoReady(inputs[1..]);
    }
  }

  /** An ACK_OK, progress packets alone, and an ACK_OK. */
  ghost predicate Confirms(ms: seq<ToHost>) {
    exists k: nat :: Ends(ms, k, ACK_OK)
  }

  /** The first answer is anything but an ACK_OK, or an ACK that is not OK follows. */
  ghost predicate Denies(ms: seq<ToHost>) {
    (ms != [] && ms[0] != Ack(ACK_OK)) || exists k: nat, status: nat :: Ends(ms, k, status) && status != ACK_OK
  }

  lemma AnswerIs(ms: seq<ToHost>)
    requires forall i | 0 <= i < |ms| :: !ms[i].Ready?
    ensures Answer(ms) == Returned(true) <==> Confirms(ms)
    ensures Answer(ms) == Returned(false) <==> Denies(ms)
  {
    if ms != [] && ms[0] == Ack(ACK_OK) {
      assert [Ack(ACK_OK)] + ms[1..] == ms;
      AcceptedEnds(ms[1..], true);
      AcceptedEnds(ms[1..], false);
    }
  }

  /** Where `write_flash` ends on a request and the packets and timeouts to come. */
  function Outcome(q: Request, inputs: Inputs): Pc
    requires 0 < q.g.sector && 0 < q.chunk
  {
    Drive(q, StreamClient.Rest(Host(Start, 0, 0), inputs, [])).host.pc
  }

  lemma DriveStarts(q: Request, inputs: Inputs) returns (x: StreamClient.Rest)
    requires 0 < q.g.sector && 0 < q.chunk
    ensures x.host == Host(AwaitAccept, 0, 0) && x.inputs == inputs
    ensures Drive(q, StreamClient.Rest(Host(Start, 0, 0), inputs, [])) == Drive(q, x)
  {
    var start := StreamClient.Rest(Host(Start, 0, 0), inputs, []);
    var (h, out) := Advance(q, start.host);
    x := StreamClient.Rest(h, inputs, [] + out);
    DrivesToIs(q, start, Drive(q, start));
    DrivesAdvance(q, start, Drive(q, start));
    DrivesToIs(q, x, Drive(q, start));
  }

  /** `write_flash` returns True exactly when, before any timeout, it gets an ACK_OK, then progress packets alone, then
      an ACK_OK; and False exactly when the first answer is anything else, or an ACK that is not OK follows. READY
      packets never count. In all other cases it raises. */
  lemma ReturnsIff(q: Request, inputs: Inputs)
    requires 0 < q.g.sector && 0 < q.chunk && |q.image| <= 0x10000 * q.chunk
    ensures Outcome(q, inputs) == Returned(true) <==> Confirms(Heard(inputs))
    ensures Outcome(q, inputs) == Returned(false) <==> Denies(Heard(inputs))
  {
    var x := DriveStarts(q, inputs);
    DriveAnswers(q, x);
    HeardNoReady(inputs);
    AnswerIs(Heard(inputs));
  }
}
