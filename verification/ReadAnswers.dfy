/**
  What `read_memory` returns for every series of packets it can receive, whoever sent them
  (src/defib/agent/client.py:400-448).
 */
module ReadAnswers {
  import opened Bytes
  import opened ReadProtocol

  /** The packets but for READYs. */
  function Heard(ms: seq<Reply>): seq<Reply> {
    if ms == [] then [] else (if ms[0].Ready? then [] else [ms[0]]) + Heard(ms[1..])
  }

  /** The first `k` packets carry data, none of them empty, and are numbered from `n` on, modulo 65536. */
  ghost predicate Chain(ms: seq<Reply>, n: nat, k: nat) {
    k <= |ms| && forall i | 0 <= i < k :: ms[i].Data? && ms[i].seqNo == (n + i) % 0x10000 && ms[i].bytes != []
  }

  /** Their data, in order. */
  function Payload(ms: seq<Reply>, k: nat): seq<byte> {
    if k == 0 || ms == [] then [] else (if ms[0].Data? then ms[0].bytes else []) + Payload(ms[1..], k - 1)
  }

  /** With `got` received before: `k` data packets in sequence and an ACK_OK make up `d`, of `size` bytes. */
  ghost predicate Delivers(ms: seq<Reply>, got: seq<byte>, n: nat, k: nat, size: nat, d: seq<byte>) {
    && k < |ms| && Chain(ms, n, k) && ms[k] == Ack(0) && d == got + Payload(ms, k) && |d| == size
  }

  lemma HeardFirst(ms: seq<Reply>)
    requires ms != []
    ensures Heard(ms) == if ms[0].Ready? then Heard(ms[1..]) else [ms[0]] + Heard(ms[1..])
  {
  }

  lemma ChainTail(m: Reply, ms: seq<Reply>, n: nat, n': nat, k: nat)
    requires n < 0x10000 && 0 < k && n' == (n + 1) % 0x10000 && Chain([m] + ms, n, k)
    ensures m.Data? && m.seqNo == n && m.bytes != [] && Chain(ms, n', k - 1)
  {
    var all := [m] + ms;
    assert all[0] == m;
    forall i | 0 <= i < k - 1
      ensures ms[i].Data? && ms[i].seqNo == (n' + i) % 0x10000 && ms[i].bytes != []
    {
      assert ms[i] == all[i + 1];
    }
  }

  lemma ChainGrows(m: Reply, ms: seq<Reply>, n: nat, n': nat, k: nat)
    requires n < 0x10000 && n' == (n + 1) % 0x10000 && Chain(ms, n', k)
    requires m.Data? && m.seqNo == n && m.bytes != []
    ensures Chain([m] + ms, n, k + 1)
  {
    var all := [m] + ms;
    forall i | 0 <= i < k + 1
      ensures all[i].Data? && all[i].seqNo == (n + i) % 0x10000 && all[i].bytes != []
    {
      if i > 0 {
        assert all[i] == ms[i - 1];
      }
    }
  }

  lemma ChainFirst(m: Reply, ms: seq<Reply>, n: nat, k: nat)
    requires n < 0x10000 && 0 < k
    ensures Chain([m] + ms, n, k)
            <==> m.Data? && m.seqNo == n && m.bytes != [] && Chain(ms, (n + 1) % 0x10000, k - 1)
  {
    if Chain([m] + ms, n, k) {
      ChainTail(m, ms, n, (n + 1) % 0x10000, k);
    } else if m.Data? && m.seqNo == n && m.bytes != [] && Chain(ms, (n + 1) % 0x10000, k - 1) {
      ChainGrows(m, ms, n, (n + 1) % 0x10000, k - 1);
    }
  }

  lemma PayloadFirst(m: Reply, ms: seq<Reply>, got: seq<byte>, k: nat)
    requires m.Data? && 0 < k
    ensures got + Payload([m] + ms, k) == got + m.bytes + Payload(ms, k - 1)
  {
    assert ([m] + ms)[1..] == ms;
  }

  /** A data packet in front moves the end by one. */
  lemma DeliversOne(m: Reply, ms: seq<Reply>, got: seq<byte>, n: nat, k: nat, size: nat, d: seq<byte>)
    requires m.Data? && m.bytes != [] && n < 0x10000 && m.seqNo == n && 0 < k
    ensures Delivers([m] + ms, got, n, k, size, d) <==> Delivers(ms, got + m.bytes, (n + 1) % 0x10000, k - 1, size, d)
  {
    ChainFirst(m, ms, n, k);
    PayloadFirst(m, ms, got, k);
    if k < |ms| + 1 {
      assert ([m] + ms)[k] == ms[k - 1];
    }
  }

  lemma DeliversNext(m: Reply, ms: seq<Reply>, got: seq<byte>, got': seq<byte>, n: nat, n': nat, size: nat, d: seq<byte>)
    requires m.Data? && m.bytes != [] && n < 0x10000 && m.seqNo == n && n' == (n + 1) % 0x10000 && got' == got + m.bytes
    ensures (exists k: nat :: Delivers([m] + ms, got, n, k, size, d))
            <==> exists k: nat :: Delivers(ms, got', n', k, size, d)
  {
    forall k: nat | Delivers(ms, got', n', k, size, d)
      ensures Delivers([m] + ms, got, n, k + 1, size, d)
    {
      DeliversOne(m, ms, got, n, k + 1, size, d);
    }
    if k: nat :| Delivers([m] + ms, got, n, k, size, d) {
      assert k > 0;
      DeliversOne(m, ms, got, n, k, size, d);
    }
  }

  /** Anything else in front is the end. */
  lemma DeliversLast(m: Reply, ms: seq<Reply>, got: seq<byte>, n: nat, k: nat, size: nat, d: seq<byte>)
    requires n < 0x10000 && (!m.Data? || m.bytes == [] || m.seqNo != n)
    ensures Delivers([m] + ms, got, n, k, size, d) <==> k == 0 && m == Ack(0) && d == got && |d| == size
  {
    assert got + [] == got && ([m] + ms)[0] == m;
    if k > 0 {
      ChainFirst(m, ms, n, k);
    }
  }

  lemma EndsWith(m: Reply, ms: seq<Reply>, got: seq<byte>, n: nat, size: nat, d: seq<byte>)
    requires n < 0x10000 && (!m.Data? || m.bytes == [] || m.seqNo != n)
    ensures (exists k: nat :: Delivers([m] + ms, got, n, k, size, d)) <==> m == Ack(0) && d == got && |d| == size
  {
    DeliversLast(m, ms, got, n, 0, size, d);
    if k: nat :| Delivers([m] + ms, got, n, k, size, d) {
      DeliversLast(m, ms, got, n, k, size, d);
    }
  }

  lemma {:induction false} TakesIff(h: Host, size: nat, ms: seq<Reply>, d: seq<byte>)
    requires h.status == Waiting && h.expected < 0x10000
    ensures TakeAll(h, size, ms).status == Returned(d)
            <==> exists k: nat :: Delivers(Heard(ms), h.received, h.expected, k, size, d)
    decreases |ms|
  {
    if ms != [] {
      HeardFirst(ms);
      var m, rest, h' := ms[0], ms[1..], Take(h, size, ms[0]);
      if m.Ready? {
        TakesIff(h, size, rest, d);
      } else if m.Data? && m.bytes != [] && m.seqNo == h.expected {
        TakesIff(h', size, rest, d);
        DeliversNext(m, Heard(rest), h.received, h'.received, h.expected, h'.expected, size, d);
      } else {
        Settled(h', size, rest);
        EndsWith(m, Heard(rest), h.received, h.expected, size, d);
      }
    }
  }

  /** `read_memory` returns `d` exactly when, READYs aside, it gets non-empty data packets numbered from 0 on, modulo
      65536, and then an ACK_OK, and `d` is their data in order and of the size that was asked for. */
  lemma ReturnsIff(size: nat, ms: seq<Reply>, d: seq<byte>)
    ensures Result(size, ms) == Returned(d) <==> exists k: nat :: Delivers(Heard(ms), [], 0, k, size, d)
  {
    TakesIff(Start, size, ms, d);
  }
}
