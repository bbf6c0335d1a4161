/**
  The agent's baud rate: divisors scaled from the one the boot ROM left behind (agent/uart.c:58-71, 87-139), and
  the command loop that changes it and falls back (agent/main.c:1292-1328, 1363-1390).
 */
module UartBaud {
  import opened Bytes

  const BootBaud: nat := 115200
  const MaxDivisor: nat := 0xFFFF

  /** IBRD and FBRD. */
  datatype Divisor = Divisor(ibrd: nat, fbrd: nat) {
    predicate Legal() {
      1 <= ibrd <= MaxDivisor && fbrd < 64
    }

    /** IBRD * 64 + FBRD, in which the baud rate is inversely proportional. */
    function Brd64(): nat {
      ibrd * 64 + fbrd
    }
  }

  function Split(brd64: nat): Divisor {
    Divisor(brd64 / 64, brd64 % 64)
  }

  /** The rescaled divisor, rounded to nearest. */
  function Scaled(boot: nat, baud: nat): nat
    requires 0 < baud
  {
    (boot * BootBaud + baud / 2) / baud
  }

  /** `uart_set_baud`, once a boot divisor is known: an impossible divisor leaves the registers alone. */
  function SetBaud(now: Divisor, boot: Divisor, baud: nat): Divisor
    requires 0 < baud
  {
    var d := Split(Scaled(boot.Brd64(), baud));
    if d.ibrd < 1 || d.ibrd > MaxDivisor then now else d
  }

  // ---------------------------------------------------------------- the arithmetic

  function Distance(x: nat, y: nat): nat {
    if x <= y then y - x else x - y
  }

  /** `boot * 115200` and the scaled divisor times `baud` differ by at most half of `baud`. */
  lemma ScaledIsNearest(boot: nat, baud: nat)
    requires 0 < baud
    ensures 2 * Distance(boot * BootBaud, Scaled(boot, baud) * baud) <= baud
  {
    var t := boot * BootBaud + baud / 2;
    assert t == Scaled(boot, baud) * baud + t % baud;
  }

  lemma SplitIs(brd64: nat)
    ensures Split(brd64).Brd64() == brd64
  {
  }

  /** At the boot rate, scaling is the identity. */
  lemma BootRateIsBoot(boot: Divisor)
    requires boot.Legal()
    ensures Scaled(boot.Brd64(), BootBaud) == boot.Brd64()
    ensures forall now :: SetBaud(now, boot, BootBaud) == boot
  {
    var b := boot.Brd64();
    DivModUnique(b * BootBaud + BootBaud / 2, BootBaud, b, BootBaud / 2);
  }

  /** 64 bits are enough for the product. */
  lemma NoOverflow(boot: Divisor, baud: nat)
    requires boot.Legal() && 9600 <= baud <= 3000000
    ensures boot.Brd64() * BootBaud + baud / 2 < 0x1_0000_0000_0000_0000
    ensures Scaled(boot.Brd64(), baud) / 64 < 0x1_0000_0000
  {
    var t := boot.Brd64() * BootBaud + baud / 2;
    assert t < 483_200_000_000 + 1_500_000;
    MulMono(9600, baud, Scaled(boot.Brd64(), baud));
    assert Scaled(boot.Brd64(), baud) * baud <= t;
  }

  // ---------------------------------------------------------------- the command loop

  datatype Packet = SetBaudPacket(baud: nat) | ShortSetBaud | OtherPacket

  datatype Sent = Ready | AckOk | AckCrcError | AckFlashError

  datatype Loop = Loop(regs: Divisor, boot: Divisor, atDefault: bool, idleCount: nat, baudIdle: nat)

  /** `uart_init` with a divisor in the registers, and the first lines of `main`. */
  function Boot(boot: Divisor): Loop {
    Loop(boot, boot, true, 0, 0)
  }

  /** `proto_recv` came back empty. */
  function OnSilence(l: Loop): (Loop, seq<Sent>) {
    var out := if l.idleCount + 1 >= 4 then [Ready] else [];
    var l1 := l.(idleCount := if l.idleCount + 1 >= 4 then 0 else l.idleCount + 1);
    if l.atDefault then (l1, out)
    else if l.baudIdle + 1 >= 60 then
      (l1.(regs := SetBaud(l.regs, l.boot, BootBaud), atDefault := true, baudIdle := 0), out)
    else (l1.(baudIdle := l.baudIdle + 1), out)
  }

  function OnPacket(l: Loop, p: Packet): (Loop, seq<Sent>) {
    var l1 := l.(idleCount := 0, baudIdle := 0);
    match p
    case OtherPacket => (l1, [])
    case ShortSetBaud => (l1, [AckCrcError])
    case SetBaudPacket(baud) =>
      if baud < 9600 || baud > 3000000 then (l1, [AckFlashError])
      else (l1.(regs := SetBaud(l.regs, l.boot, baud), atDefault := baud == BootBaud), [AckOk])
  }

  function Turn(l: Loop, p: Option<Packet>): (Loop, seq<Sent>) {
    match p
    case None => OnSilence(l)
    case Some(packet) => OnPacket(l, packet)
  }

  function Run(l: Loop, ps: seq<Option<Packet>>): Loop {
    if ps == [] then l else Turn(Run(l, ps[..|ps| - 1]), ps[|ps| - 1]).0
  }

  // ---------------------------------------------------------------- the C code

  class Agent {
    var ibrd: nat
    var fbrd: nat
    var bootBrd64: nat
    var atDefaultBaud: bool
    var idleCount: nat
    var baudIdle: nat
    /** Whether the UART is enabled. */
    var enabled: bool

    /** `uart_init` keeps the divisor it finds, and `main` starts the loop. */
    constructor (ibrd: nat, fbrd: nat)
      requires Divisor(ibrd, fbrd).Legal()
      ensures Valid(Divisor(ibrd, fbrd)) && State(Divisor(ibrd, fbrd)) == Boot(Divisor(ibrd, fbrd))
    {
      this.ibrd, this.fbrd := ibrd, fbrd;
      bootBrd64 := ibrd * 64 + fbrd % 64;
      atDefaultBaud, idleCount, baudIdle, enabled := true, 0, 0, true;
    }

    predicate Valid(boot: Divisor)
      reads this
    {
      boot.Legal() && bootBrd64 == boot.Brd64() && enabled
    }

    function State(boot: Divisor): Loop
      reads this
    {
      Loop(Divisor(ibrd, fbrd), boot, atDefaultBaud, idleCount, baudIdle)
    }

    /** `uart_set_baud` */
    method UartSetBaud(baud: nat, ghost boot: Divisor)
      requires Valid(boot) && 9600 <= baud <= 3000000
      modifies this`ibrd, this`fbrd, this`enabled
      ensures Valid(boot) && Divisor(ibrd, fbrd) == SetBaud(Divisor(old(ibrd), old(fbrd)), boot, baud)
    {
      enabled := false;
      var newBrd64 := (bootBrd64 * BootBaud + baud / 2) / baud;
      var divisor, frac := newBrd64 / 64, newBrd64 % 64;
      if divisor < 1 || divisor > MaxDivisor {
        enabled := true;
        return;
      }
      ibrd, fbrd := divisor, frac;
      enabled := true;
    }

    /** `handle_set_baud` */
    method HandleSetBaud(p: Packet, ghost boot: Divisor) returns (out: seq<Sent>)
      requires Valid(boot) && !p.OtherPacket?
      modifies this
      ensures Valid(boot)
      ensures var l := old(State(boot));
              (State(boot).(idleCount := 0, baudIdle := 0), out) == OnPacket(l, p)
      ensures idleCount == old(idleCount) && baudIdle == old(baudIdle)
    {
      if p.ShortSetBaud? {
        return [AckCrcError];
      }
      if p.baud < 9600 || p.baud > 3000000 {
        return [AckFlashError];
      }
      UartSetBaud(p.baud, boot);
      atDefaultBaud := p.baud == 115200;
      out := [AckOk];
    }

    /** One turn of the loop in `main`. */
    method LoopTurn(p: Option<Packet>, ghost boot: Divisor) returns (out: seq<Sent>)
      requires Valid(boot)
      modifies this
      ensures Valid(boot) && (State(boot), out) == Turn(old(State(boot)), p)
    {
      out := [];
      if p.None? {
        idleCount := idleCount + 1;
        if idleCount >= 4 {
          out := [Ready];
          idleCount := 0;
        }
        if !atDefaultBaud {
          baudIdle := baudIdle + 1;
          if baudIdle >= 60 {
            UartSetBaud(115200, boot);
            atDefaultBaud := true;
            baudIdle := 0;
          }
        }
        return;
      }
      idleCount, baudIdle := 0, 0;
      if !p.value.OtherPacket? {
        out := HandleSetBaud(p.value, boot);
      }
    }
  }

  // ---------------------------------------------------------------- every run

  ghost predicate Inv(l: Loop, boot: Divisor) {
    && l.boot == boot && boot.Legal() && l.regs.Legal()
    && (l.atDefault ==> l.regs == boot) && l.baudIdle < 60
  }

  lemma InvTurn(l: Loop, boot: Divisor, p: Option<Packet>)
    requires Inv(l, boot)
    ensures Inv(Turn(l, p).0, boot)
  {
    BootRateIsBoot(boot);
  }

  /** However often the rate is changed: the divisor stays legal, and "default" means the boot divisor itself. */
  lemma {:induction false} InvRun(boot: Divisor, ps: seq<Option<Packet>>)
    requires boot.Legal()
    ensures Inv(Run(Boot(boot), ps), boot)
  {
    if ps != [] {
      InvRun(boot, ps[..|ps| - 1]);
      InvTurn(Run(Boot(boot), ps[..|ps| - 1]), boot, ps[|ps| - 1]);
    }
  }

  /** The rescaled divisor fits the registers. */
  predicate Programmable(boot: Divisor, baud: nat)
    requires 0 < baud
  {
    1 <= Split(Scaled(boot.Brd64(), baud)).ibrd <= MaxDivisor
  }

  /** An accepted change takes effect, to within half a unit of exact scaling, exactly when the scaled divisor fits;
      otherwise the agent has answered ACK_OK and keeps the old rate. */
  lemma ChangeIsScaled(l: Loop, boot: Divisor, baud: nat)
    requires Inv(l, boot) && 9600 <= baud <= 3000000
    ensures var (l', out) := Turn(l, Some(SetBaudPacket(baud)));
            && out == [AckOk]
            && (Programmable(boot, baud) ==>
                  l'.regs == Split(Scaled(boot.Brd64(), baud))
                  && 2 * Distance(boot.Brd64() * BootBaud, l'.regs.Brd64() * baud) <= baud)
            && (!Programmable(boot, baud) ==> l'.regs == l.regs)
  {
    ScaledIsNearest(boot.Brd64(), baud);
    SplitIs(Scaled(boot.Brd64(), baud));
  }

  /** Which rates those are: the scaled value has to reach 64 and stay below 65536 * 64. */
  lemma ProgrammableIff(boot: Divisor, baud: nat)
    requires boot.Legal() && 0 < baud
    ensures Programmable(boot, baud)
            <==> 64 * baud <= boot.Brd64() * BootBaud + baud / 2 < 0x400000 * baud
  {
    var t := boot.Brd64() * BootBaud + baud / 2;
    AtLeast(t, baud, 64);
    AtLeast(t, baud, 0x400000);
  }

  lemma AtLeast(t: nat, m: nat, k: nat)
    requires 0 < m
    ensures t / m >= k <==> t >= k * m
  {
    var s := t / m;
    assert t == s * m + t % m;
    if s >= k {
      MulMono(k, s, m);
    } else {
      MulMono(s + 1, k, m);
    }
  }

  function Silence(n: nat): seq<Option<Packet>> {
    seq(n, i => None)
  }

  lemma {:induction false} SilenceCounts(l: Loop, boot: Divisor, n: nat)
    requires Inv(l, boot)
    ensures var l' := Run(l, Silence(n));
            && Inv(l', boot)
            && (l'.atDefault || (l'.baudIdle >= l.baudIdle + n && !l.atDefault))
  {
    if n > 0 {
      assert Silence(n)[..n - 1] == Silence(n - 1);
      SilenceCounts(l, boot, n - 1);
      InvTurn(Run(l, Silence(n - 1)), boot, None);
    }
  }

  /** After 60 empty receives in a row, whatever came before, the registers hold the boot divisor. */
  lemma SilenceRestores(boot: Divisor, ps: seq<Option<Packet>>)
    requires boot.Legal()
    ensures var l := Run(Run(Boot(boot), ps), Silence(60));
            l.atDefault && l.regs == boot
  {
    InvRun(boot, ps);
    SilenceCounts(Run(Boot(boot), ps), boot, 60);
  }

  /** Fewer than 60 empty receives in a row are only counted. */
  lemma {:induction false} QuietTurns(l: Loop, n: nat)
    requires l.baudIdle + n < 60 && l.idleCount < 4
    ensures var l' := Run(l, Silence(n));
            && l'.regs == l.regs && l'.atDefault == l.atDefault && l'.boot == l.boot
            && (!l.atDefault ==> l'.baudIdle == l.baudIdle + n)
            && l'.idleCount == (l.idleCount + n) % 4
  {
    if n > 0 {
      assert Silence(n)[..n - 1] == Silence(n - 1);
      QuietTurns(l, n - 1);
    }
  }

  lemma AfterPacket(boot: Divisor, ps: seq<Option<Packet>>, p: Packet)
    ensures var l := Run(Boot(boot), ps + [Some(p)]); l.idleCount == 0 && l.baudIdle == 0
  {
    assert (ps + [Some(p)])[..|ps|] == ps;
  }

  /** And not sooner: fewer than 60 empty receives after a packet leave the rate alone, whatever it is. */
  lemma ShortSilenceKeeps(boot: Divisor, ps: seq<Option<Packet>>, p: Packet, n: nat)
    requires boot.Legal() && n < 60
    ensures var l := Run(Boot(boot), ps + [Some(p)]);
            Run(l, Silence(n)).regs == l.regs && Run(l, Silence(n)).atDefault == l.atDefault
  {
    AfterPacket(boot, ps, p);
    QuietTurns(Run(Boot(boot), ps + [Some(p)]), n);
  }

  lemma {:induction false} IdleTurns(l: Loop, n: nat)
    requires l.idleCount == 0
    ensures Run(l, Silence(n)).idleCount == n % 4
  {
    if n > 0 {
      assert Silence(n)[..n - 1] == Silence(n - 1);
      IdleTurns(l, n - 1);
    }
  }

  /** Every fourth empty receive since the last packet announces the agent, and no other does. */
  lemma ReadyEveryFourth(boot: Divisor, ps: seq<Option<Packet>>, p: Packet, n: nat)
    ensures var l := Run(Run(Boot(boot), ps + [Some(p)]), Silence(n));
            Turn(l, None).1 == if (n + 1) % 4 == 0 then [Ready] else []
  {
    AfterPacket(boot, ps, p);
    IdleTurns(Run(Boot(boot), ps + [Some(p)]), n);
  }

  /** A rate outside 9600 to 3000000, or a request too short to hold one, is answered with the error that says so and
      changes neither the rate nor what is believed of it. */
  lemma BadRequests(l: Loop, p: Packet)
    requires p.ShortSetBaud? || (p.SetBaudPacket? && !(9600 <= p.baud <= 3_000_000))
    ensures var (l', out) := Turn(l, Some(p));
            && l'.regs == l.regs && l'.atDefault == l.atDefault && l'.boot == l.boot
            && out == if p.ShortSetBaud? then [AckCrcError] else [AckFlashError]
  {
  }
}
