/**
  What the counters of the TFTP server mean (src/defib/network/tftp_server.py:71-77, 127, 199-206).
 */
module TftpStats {
  import opened Bytes
  import opened Tftp
  import opened TftpSafety

  function SizeOf(files: map<Addr, seq<byte>>, a: Addr): nat {
    if a in files then |files[a]| else 0
  }

  /** The bytes of the files of `s`, together. */
  ghost function Total(files: map<Addr, seq<byte>>, s: set<Addr>): nat {
    if s == {} then 0 else
    var a :| a in s;
    SizeOf(files, a) + Total(files, s - {a})
  }

  lemma {:induction false} TotalWithout(files: map<Addr, seq<byte>>, s: set<Addr>, a: Addr)
    requires a in s
    ensures Total(files, s) == SizeOf(files, a) + Total(files, s - {a})
    decreases |s|
  {
    var b :| b in s && Total(files, s) == SizeOf(files, b) + Total(files, s - {b});
    if a != b {
      TotalWithout(files, s - {b}, a);
      TotalWithout(files, s - {a}, b);
      assert s - {b} - {a} == s - {a} - {b};
    }
  }

  lemma TotalWith(files: map<Addr, seq<byte>>, s: set<Addr>, a: Addr)
    requires a !in s
    ensures Total(files, s + {a}) == Total(files, s) + SizeOf(files, a)
  {
    TotalWithout(files, s + {a}, a);
    assert s + {a} - {a} == s;
  }

  /** The clients whose request has arrived. */
  ghost function Arrived(st: Sys): set<Addr> {
    set a | a in st.links && !st.links[a].rrqPending
  }

  ghost predicate Counters(c: Config, st: Sys) {
    st.server.stats.bytesSent == Total(c.files, st.finished) && st.server.stats.requests == |Arrived(st)|
  }

  /** A transfer is counted with the bytes of its file, and for the first time. */
  lemma AckCounts(c: Config, st: Sys, a: Addr, n: nat)
    requires Inv(c, st) && a in c.files && a in st.links && AddrOk(c, st, a)
    ensures var s', counted := OnAck(st.server, a, n).0,
                               OnAck(st.server, a, n).0.stats.transfersComplete > st.server.stats.transfersComplete;
            && s'.stats.requests == st.server.stats.requests
            && s'.stats.bytesSent == st.server.stats.bytesSent + (if counted then SizeOf(c.files, a) else 0)
            && (counted ==> a !in st.finished)
  {
  }

  lemma SameArrived(st: Sys, st': Sys)
    requires st'.links.Keys == st.links.Keys
    requires forall a | a in st.links :: st'.links[a].rrqPending == st.links[a].rrqPending
    ensures Arrived(st') == Arrived(st)
  {
  }

  lemma CountersAck(c: Config, st: Sys, a: Addr, n: nat)
    requires Inv(c, st) && Counters(c, st) && a in c.files && AckPkt(n) in st.links[a].toServer
    ensures Counters(c, Step(c, st, ServerGets(a, AckPkt(n))))
  {
    assert AddrOk(c, st, a);
    AckCounts(c, st, a, n);
    SameArrived(st, Step(c, st, ServerGets(a, AckPkt(n))));
    if a !in st.finished {
      TotalWith(c.files, st.finished, a);
    }
  }

  lemma CountersRequest(c: Config, st: Sys, a: Addr)
    requires Inv(c, st) && Counters(c, st) && a in c.files && st.links[a].rrqPending
    ensures Counters(c, Step(c, st, Request(a)))
  {
    var st' := Step(c, st, Request(a));
    assert Arrived(st') == Arrived(st) + {a};
  }

  lemma CountersStep(c: Config, st: Sys, e: Event)
    requires Inv(c, st) && Counters(c, st)
    ensures Counters(c, Step(c, st, e))
  {
    if e.a in c.files {
      match e
      case Request(a) =>
        if st.links[a].rrqPending {
          CountersRequest(c, st, a);
        }
      case ServerGets(a, up) =>
        if up in st.links[a].toServer && up.AckPkt? {
          CountersAck(c, st, a, up.n);
        } else {
          SameArrived(st, Step(c, st, e));
        }
      case ClientGets(a, down) => SameArrived(st, Step(c, st, e));
    }
  }

  /** In every run `bytes_sent` is the size of the files whose transfers were counted, each once, and `requests` the
      number of requests that have arrived. */
  lemma {:induction false} CountersRun(c: Config, es: seq<Event>)
    requires c.Valid()
    ensures Run(c, es).server.stats.bytesSent == Total(c.files, Run(c, es).finished)
    ensures Run(c, es).server.stats.requests == |Arrived(Run(c, es))|
  {
    if es == [] {
      assert Arrived(Initial(c)) == {};
    } else {
      CountersRun(c, es[..|es| - 1]);
      InvRun(c, es[..|es| - 1]);
      CountersStep(c, Run(c, es[..|es| - 1]), es[|es| - 1]);
    }
  }
}
