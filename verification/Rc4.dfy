/** RC4 as used for MaskROM uploads (src/defib/rockusb/codec.py:38-58). */
module Rc4 {
  import opened Bytes
  import opened Octets

  /** The permutation and the two indices. */
  datatype State = State(s: seq<byte>, i: nat, j: nat) {
    predicate Valid() {
      |s| == 256 && i < 256 && j < 256
    }
  }

  function Swapped(s: seq<byte>, i: nat, j: nat): (r: seq<byte>)
    requires i < |s| && j < |s|
    ensures |r| == |s|
  {
    s[i := s[j]][j := s[i]]
  }

  /** Turn `i` of the key schedule. */
  function KeyStep(key: seq<byte>, t: State, i: nat): (r: State)
    requires key != [] && i < 256 && |t.s| == 256
    ensures |r.s| == 256 && r.j < 256
  {
    var j := (t.j + Value(t.s[i]) + Value(key[i % |key|])) % 256;
    State(Swapped(t.s, i, j), 0, j)
  }

  /** The key schedule after `n` turns. */
  function Schedule(key: seq<byte>, n: nat): (r: State)
    requires key != [] && n <= 256
    ensures |r.s| == 256 && r.j < 256
  {
    if n == 0 then State(seq(256, i requires 0 <= i < 256 => ByteOf(i)), 0, 0)
    else KeyStep(key, Schedule(key, n - 1), n - 1)
  }

  function Advance(t: State): (r: State)
    requires t.Valid()
    ensures r.Valid()
  {
    var i := (t.i + 1) % 256;
    var j := (t.j + Value(t.s[i])) % 256;
    State(Swapped(t.s, i, j), i, j)
  }

  function KeyByte(t: State): byte
    requires t.Valid()
  {
    t.s[(Value(t.s[t.i]) + Value(t.s[t.j])) % 256]
  }

  function Mask(b: byte, k: byte): byte {
    b ^ k
  }

  function Apply(t: State, data: seq<byte>): (r: seq<byte>)
    requires t.Valid()
    ensures |r| == |data|
    decreases |data|
  {
    if data == [] then [] else
    var t' := Advance(t);
    [Mask(data[0], KeyByte(t'))] + Apply(t', data[1..])
  }

  function Start(key: seq<byte>): (r: State)
    requires key != []
    ensures r.Valid()
  {
    State(Schedule(key, 256).s, 0, 0)
  }

  function Cipher(data: seq<byte>, key: seq<byte>): (r: seq<byte>)
    requires key != []
    ensures |r| == |data|
  {
    Apply(Start(key), data)
  }

  // ---------------------------------------------------------------- self-inverse

  lemma MaskTwice(b: byte, k: byte)
    ensures Mask(Mask(b, k), k) == b
  {
  }

  lemma {:induction false} ApplyTwice(t: State, data: seq<byte>)
    requires t.Valid()
    ensures Apply(t, Apply(t, data)) == data
    decreases |data|
  {
    if data != [] {
      var t' := Advance(t);
      ApplyTwice(t', data[1..]);
      MaskTwice(data[0], KeyByte(t'));
      assert Apply(t, data)[1..] == Apply(t', data[1..]);
    }
  }

  /** The same call encrypts and decrypts. */
  lemma SelfInverse(data: seq<byte>, key: seq<byte>)
    requires key != []
    ensures Cipher(Cipher(data, key), key) == data
  {
    ApplyTwice(Start(key), data);
  }

  // ---------------------------------------------------------------- the cipher as a relation

  /** The table `u` is `s` with the entries at `a` and `b` exchanged. */
  ghost predicate Transposed(s: seq<byte>, u: seq<byte>, a: nat, b: nat) {
    && |s| == |u| == 256 && a < 256 && b < 256 && u[a] == s[b] && u[b] == s[a]
    && forall k | 0 <= k < 256 && k != a && k != b :: u[k] == s[k]
  }

  /** Every byte occurs in `s`, and once only. */
  ghost predicate Permutation(s: seq<byte>) {
    |s| == 256 && (forall a, b | 0 <= a < b < 256 :: s[a] != s[b]) && (forall v: byte :: v in s)
  }

  /** Turn `n` of the key schedule: from table `s` and index `j` to `u` and `i`, with `k` the byte of the key. */
  ghost predicate ScheduleTurnOk(s: seq<byte>, j: nat, n: nat, k: byte, u: seq<byte>, i: nat) {
    && n < 256 && |s| == 256 && i == (j + s[n] as nat + k as nat) % 256
    && Transposed(s, u, n, i) && Permutation(s) && Permutation(u)
  }

  /** The 257 tables of the key schedule, with their index. */
  ghost predicate Scheduled(key: seq<byte>, ss: seq<seq<byte>>, js: seq<nat>)
    requires key != []
  {
    && |ss| == |js| == 257 && js[0] == 0 && |ss[0]| == 256 && (forall k | 0 <= k < 256 :: ss[0][k] as nat == k)
    && forall n | 0 <= n < 256 :: ScheduleTurnOk(ss[n], js[n], n, key[n % |key|], ss[n + 1], js[n + 1])
  }

  /** A turn of the generator: from `s`, `x` and `y` to `u`, `x'` and `y'`, with `m` the byte that masks. */
  ghost predicate GeneratorTurnOk(s: seq<byte>, x: nat, y: nat, u: seq<byte>, x': nat, y': nat, m: byte) {
    && |s| == |u| == 256 && x' == (x + 1) % 256 && y' == (y + s[x'] as nat) % 256
    && Transposed(s, u, x', y') && Permutation(s) && Permutation(u)
    && m == u[(u[x'] as nat + u[y'] as nat) % 256]
  }

  /** The tables of the generator, with their two indices, and the bytes they mask. */
  ghost predicate Turns(data: seq<byte>, result: seq<byte>, ts: seq<seq<byte>>, xs: seq<nat>, ys: seq<nat>) {
    && |result| == |data| && |ts| == |xs| == |ys| == |data| + 1
    && forall n | 0 <= n < |data| ::
         GeneratorTurnOk(ts[n], xs[n], ys[n], ts[n + 1], xs[n + 1], ys[n + 1], result[n] ^ data[n])
  }

  /** They start from table `s`, with both indices 0. */
  ghost predicate Generated(s: seq<byte>, data: seq<byte>, result: seq<byte>, ts: seq<seq<byte>>, xs: seq<nat>,
                            ys: seq<nat>) {
    Turns(data, result, ts, xs, ys) && ts[0] == s && xs[0] == 0 && ys[0] == 0
  }

  /** `result` is `data` under RC4 with `key`. */
  ghost predicate IsRc4(data: seq<byte>, key: seq<byte>, result: seq<byte>)
    requires key != []
  {
    exists ss, js, ts, xs, ys :: Scheduled(key, ss, js) && Generated(ss[256], data, result, ts, xs, ys)
  }

  lemma IdentityIsPermutation(s: seq<byte>)
    requires |s| == 256 && forall k | 0 <= k < 256 :: s[k] as nat == k
    ensures Permutation(s)
  {
    forall v: byte
      ensures v in s
    {
      SameByte(s[v as nat], v);
    }
  }

  lemma SameByte(a: byte, b: byte)
    requires a as nat == b as nat
    ensures a == b
  {
  }

  /** Where an entry comes from when `a` and `b` are exchanged. */
  function From(k: nat, a: nat, b: nat): nat {
    if k == a then b else if k == b then a else k
  }

  lemma TransposedFrom(s: seq<byte>, u: seq<byte>, a: nat, b: nat)
    requires Transposed(s, u, a, b)
    ensures forall k: nat | k < 256 :: From(k, a, b) < 256 && u[k] == s[From(k, a, b)]
  {
  }

  lemma StillOnce(s: seq<byte>, u: seq<byte>, a: nat, b: nat)
    requires Permutation(s) && Transposed(s, u, a, b)
    ensures forall i, j | 0 <= i < j < 256 :: u[i] != u[j]
  {
    TransposedFrom(s, u, a, b);
    forall i, j | 0 <= i < j < 256
      ensures u[i] != u[j]
    {
      var x, y := From(i, a, b), From(j, a, b);
      assert u[i] == s[x] && u[j] == s[y];
      if x < y {
        assert s[x] != s[y];
      } else {
        assert s[y] != s[x];
      }
    }
  }

  lemma StillThere(s: seq<byte>, u: seq<byte>, a: nat, b: nat, v: byte)
    requires Permutation(s) && Transposed(s, u, a, b)
    ensures v in u
  {
    assert v in s;
    var k :| 0 <= k < 256 && s[k] == v;
    assert u[From(k, a, b)] == v;
  }

  lemma TransposedIsPermutation(s: seq<byte>, u: seq<byte>, a: nat, b: nat)
    requires Permutation(s) && Transposed(s, u, a, b)
    ensures Permutation(u)
  {
    StillOnce(s, u, a, b);
    forall v: byte
      ensures v in u
    {
      StillThere(s, u, a, b, v);
    }
  }

  lemma SwapTransposes(s: seq<byte>, a: nat, b: nat)
    requires |s| == 256 && a < 256 && b < 256
    ensures Transposed(s, Swapped(s, a, b), a, b)
  {
  }

  lemma Ordered(k: nat)
    requires k < 256
    ensures ByteOf(k) as nat == k
  {
    ByteValue(k);
  }

  lemma FirstTable(key: seq<byte>)
    requires key != []
    ensures forall k | 0 <= k < 256 :: Schedule(key, 0).s[k] as nat == k
    ensures Permutation(Schedule(key, 0).s)
  {
    forall k | 0 <= k < 256
      ensures Schedule(key, 0).s[k] as nat == k
    {
      Ordered(k);
    }
    IdentityIsPermutation(Schedule(key, 0).s);
  }

  lemma KeyStepOk(key: seq<byte>, t: State, n: nat)
    requires key != [] && n < 256 && |t.s| == 256 && Permutation(t.s)
    ensures var u := KeyStep(key, t, n); ScheduleTurnOk(t.s, t.j, n, key[n % |key|], u.s, u.j)
  {
    var u := KeyStep(key, t, n);
    SwapTransposes(t.s, n, u.j);
    TransposedIsPermutation(t.s, u.s, n, u.j);
  }

  lemma ScheduleNext(key: seq<byte>, n: nat)
    requires key != [] && n < 256
    ensures Schedule(key, n + 1) == KeyStep(key, Schedule(key, n), n)
  {
  }

  lemma ScheduleTables(key: seq<byte>) returns (ss: seq<seq<byte>>, js: seq<nat>)
    requires key != []
    ensures Scheduled(key, ss, js) && ss[256] == Schedule(key, 256).s && Permutation(ss[256])
  {
    var t := Schedule(key, 0);
    FirstTable(key);
    ss, js := [t.s], [t.j];
    for n := 0 to 256
      invariant |ss| == |js| == n + 1 && ss[0] == Schedule(key, 0).s && js[0] == 0
      invariant t == Schedule(key, n) && |t.s| == 256 && Permutation(t.s) && ss[n] == t.s && js[n] == t.j
      invariant forall k | 0 <= k < n :: ScheduleTurnOk(ss[k], js[k], k, key[k % |key|], ss[k + 1], js[k + 1])
    {
      KeyStepOk(key, t, n);
      ScheduleNext(key, n);
      t := KeyStep(key, t, n);
      ss, js := ss + [t.s], js + [t.j];
    }
  }

  lemma AdvanceOk(t: State)
    requires t.Valid() && Permutation(t.s)
    ensures var u := Advance(t); GeneratorTurnOk(t.s, t.i, t.j, u.s, u.i, u.j, KeyByte(u))
  {
    var u := Advance(t);
    SwapTransposes(t.s, u.i, u.j);
    TransposedIsPermutation(t.s, u.s, u.i, u.j);
  }

  lemma Masked(b: byte, k: byte)
    ensures Mask(b, k) ^ b == k
  {
  }

  lemma ApplyOne(t: State, data: seq<byte>)
    requires t.Valid() && data != []
    ensures Apply(t, data) == [Mask(data[0], KeyByte(Advance(t)))] + Apply(Advance(t), data[1..])
  {
  }

  lemma TurnsFirst(b: byte, r: byte, s: seq<byte>, x: nat, y: nat, data: seq<byte>, result: seq<byte>,
                   ts: seq<seq<byte>>, xs: seq<nat>, ys: seq<nat>)
    requires Turns(data, result, ts, xs, ys) && GeneratorTurnOk(s, x, y, ts[0], xs[0], ys[0], r ^ b)
    ensures Turns([b] + data, [r] + result, [s] + ts, [x] + xs, [y] + ys)
  {
    var data', result', ts', xs', ys' := [b] + data, [r] + result, [s] + ts, [x] + xs, [y] + ys;
    forall n | 0 <= n < |data'|
      ensures GeneratorTurnOk(ts'[n], xs'[n], ys'[n], ts'[n + 1], xs'[n + 1], ys'[n + 1], result'[n] ^ data'[n])
    {
      if n > 0 {
        assert GeneratorTurnOk(ts[n - 1], xs[n - 1], ys[n - 1], ts[n], xs[n], ys[n], result[n - 1] ^ data[n - 1]);
      }
    }
  }

  lemma {:induction false} GeneratorTables(t: State, data: seq<byte>)
    returns (ts: seq<seq<byte>>, xs: seq<nat>, ys: seq<nat>)
    requires t.Valid() && Permutation(t.s)
    ensures Turns(data, Apply(t, data), ts, xs, ys) && ts[0] == t.s && xs[0] == t.i && ys[0] == t.j
    decreases |data|
  {
    if data == [] {
      ts, xs, ys := [t.s], [t.i], [t.j];
    } else {
      var u := Advance(t);
      AdvanceOk(t);
      ts, xs, ys := GeneratorTables(u, data[1..]);
      ApplyOne(t, data);
      Masked(data[0], KeyByte(u));
      TurnsFirst(data[0], Mask(data[0], KeyByte(u)), t.s, t.i, t.j, data[1..], Apply(u, data[1..]), ts, xs, ys);
      assert [data[0]] + data[1..] == data;
      ts, xs, ys := [t.s] + ts, [t.i] + xs, [t.j] + ys;
    }
  }

  /** What `Cipher` computes is RC4. */
  lemma CipherIsRc4(data: seq<byte>, key: seq<byte>)
    requires key != []
    ensures IsRc4(data, key, Cipher(data, key))
  {
    var ss, js := ScheduleTables(key);
    var ts, xs, ys := GeneratorTables(Start(key), data);
    assert Generated(ss[256], data, Cipher(data, key), ts, xs, ys);
  }

  // ---------------------------------------------------------------- the relation has one result

  lemma TransposedOnce(s: seq<byte>, u: seq<byte>, v: seq<byte>, a: nat, b: nat)
    requires Transposed(s, u, a, b) && Transposed(s, v, a, b)
    ensures u == v
  {
    assert forall k | 0 <= k < 256 :: u[k] == v[k];
  }

  lemma {:induction false} ScheduledOnce(key: seq<byte>, ss: seq<seq<byte>>, js: seq<nat>, n: nat)
    requires key != [] && Scheduled(key, ss, js) && n <= 256
    ensures ss[n] == Schedule(key, n).s && js[n] == Schedule(key, n).j
  {
    if n == 0 {
      FirstTable(key);
      SameTable(ss[0], Schedule(key, 0).s);
    } else {
      ScheduledOnce(key, ss, js, n - 1);
      var t := Schedule(key, n - 1);
      assert ScheduleTurnOk(ss[n - 1], js[n - 1], n - 1, key[(n - 1) % |key|], ss[n], js[n]);
      KeyStepOnce(key, t, n - 1, ss[n], js[n]);
    }
  }

  lemma SameTable(s: seq<byte>, u: seq<byte>)
    requires |s| == |u| && forall k | 0 <= k < |s| :: s[k] as nat == u[k] as nat
    ensures s == u
  {
    forall k | 0 <= k < |s|
      ensures s[k] == u[k]
    {
      SameByte(s[k], u[k]);
    }
  }

  lemma KeyStepOnce(key: seq<byte>, t: State, n: nat, u: seq<byte>, j: nat)
    requires key != [] && n < 256 && |t.s| == 256 && ScheduleTurnOk(t.s, t.j, n, key[n % |key|], u, j)
    ensures KeyStep(key, t, n) == State(u, 0, j)
  {
    SwapTransposes(t.s, n, j);
    TransposedOnce(t.s, u, Swapped(t.s, n, j), n, j);
  }

  lemma TurnSwaps(s: seq<byte>, x: nat, y: nat, u: seq<byte>, x': nat, y': nat, m: byte)
    requires GeneratorTurnOk(s, x, y, u, x', y', m)
    ensures |s| == 256 && x' < 256 && y' < 256 && u == Swapped(s, x', y')
  {
    SwapTransposes(s, x', y');
    TransposedOnce(s, u, Swapped(s, x', y'), x', y');
  }

  lemma AdvanceOnce(t: State, u: seq<byte>, x: nat, y: nat, m: byte)
    requires t.Valid() && GeneratorTurnOk(t.s, t.i, t.j, u, x, y, m)
    ensures Advance(t) == State(u, x, y) && KeyByte(State(u, x, y)) == m
  {
    TurnSwaps(t.s, t.i, t.j, u, x, y, m);
  }

  lemma Unmasked(b: byte, r: byte)
    ensures Mask(b, r ^ b) == r
  {
  }

  lemma {:induction false} TurnsOnce(t: State, data: seq<byte>, result: seq<byte>, ts: seq<seq<byte>>, xs: seq<nat>,
                                     ys: seq<nat>)
    requires t.Valid() && Turns(data, result, ts, xs, ys) && t == State(ts[0], xs[0], ys[0])
    ensures result == Apply(t, data)
    decreases |data|
  {
    if data != [] {
      assert GeneratorTurnOk(ts[0], xs[0], ys[0], ts[1], xs[1], ys[1], result[0] ^ data[0]);
      AdvanceOnce(t, ts[1], xs[1], ys[1], result[0] ^ data[0]);
      TurnsRest(data, result, ts, xs, ys);
      TurnsOnce(Advance(t), data[1..], result[1..], ts[1..], xs[1..], ys[1..]);
      ApplyOne(t, data);
      Unmasked(data[0], result[0]);
      assert result == [result[0]] + result[1..];
    }
  }

  lemma TurnsRest(data: seq<byte>, result: seq<byte>, ts: seq<seq<byte>>, xs: seq<nat>, ys: seq<nat>)
    requires data != [] && Turns(data, result, ts, xs, ys)
    ensures Turns(data[1..], result[1..], ts[1..], xs[1..], ys[1..])
  {
    forall n | 0 <= n < |data| - 1
      ensures GeneratorTurnOk(ts[1..][n], xs[1..][n], ys[1..][n], ts[1..][n + 1], xs[1..][n + 1], ys[1..][n + 1],
                              result[1..][n] ^ data[1..][n])
    {
      assert GeneratorTurnOk(ts[n + 1], xs[n + 1], ys[n + 1], ts[n + 2], xs[n + 2], ys[n + 2],
                             result[n + 1] ^ data[n + 1]);
    }
  }

  /** The relation has one result for each text and key, and `Cipher` is it. */
  lemma Rc4Iff(data: seq<byte>, key: seq<byte>, result: seq<byte>)
    requires key != []
    ensures IsRc4(data, key, result) <==> result == Cipher(data, key)
  {
    CipherIsRc4(data, key);
    if IsRc4(data, key, result) {
      var ss, js, ts, xs, ys :| Scheduled(key, ss, js) && Generated(ss[256], data, result, ts, xs, ys);
      ScheduledOnce(key, ss, js, 256);
      TurnsOnce(Start(key), data, result, ts, xs, ys);
    }
  }

  // ---------------------------------------------------------------- the Python code

  method Swap(s: array<byte>, i: nat, j: nat)
    requires i < s.Length && j < s.Length
    modifies s
    ensures s[..] == Swapped(old(s[..]), i, j)
  {
    s[i], s[j] := s[j], s[i];
  }

  /** One turn of the key schedule. */
  method ScheduleTurn(key: seq<byte>, s: array<byte>, i: nat, j: nat) returns (j': nat)
    requires key != [] && s.Length == 256 && i < 256 && j < 256
    modifies s
    ensures j' < 256 && State(s[..], 0, j') == KeyStep(key, State(old(s[..]), 0, j), i)
  {
    assert s[i] == s[..][i];
    j' := (j + Value(s[i]) + Value(key[i % |key|])) % 256;
    Swap(s, i, j');
  }

  method KeySchedule(key: seq<byte>) returns (s: array<byte>)
    requires key != []
    ensures fresh(s) && s.Length == 256 && s[..] == Schedule(key, 256).s
  {
    s := new byte[256](i requires 0 <= i < 256 => ByteOf(i));
    assert s[..] == seq(256, i requires 0 <= i < 256 => ByteOf(i));
    var j := 0;
    for i := 0 to 256
      invariant j < 256 && s.Length == 256 && State(s[..], 0, j) == Schedule(key, i)
    {
      j := ScheduleTurn(key, s, i, j);
    }
  }

  /** `done` followed by the rest of the work is `want`. */
  ghost predicate Leads(t: State, done: seq<byte>, rest: seq<byte>, want: seq<byte>) {
    t.Valid() && forall y {:trigger Is(y, rest)} | Is(y, rest) :: done + Apply(t, y) == want
  }

  lemma LeadsOn(t: State, done: seq<byte>, rest: seq<byte>, want: seq<byte>)
    requires rest != [] && Leads(t, done, rest, want)
    ensures Leads(Advance(t), done + [Mask(rest[0], KeyByte(Advance(t)))], rest[1..], want)
  {
    assert Is(rest, rest);
    var m := [Mask(rest[0], KeyByte(Advance(t)))];
    assert done + (m + Apply(Advance(t), rest[1..])) == done + m + Apply(Advance(t), rest[1..]);
  }

  lemma LeadsEnd(t: State, done: seq<byte>, want: seq<byte>)
    requires Leads(t, done, [], want)
    ensures done == want
  {
    assert Is<seq<byte>>([], []);
  }

  /** One turn of the loop: the state moves on and a key byte comes out. */
  method Turn(s: array<byte>, i: nat, j: nat) returns (i': nat, j': nat, k: byte)
    requires s.Length == 256 && i < 256 && j < 256
    modifies s
    ensures i' < 256 && j' < 256
    ensures State(s[..], i', j') == Advance(State(old(s[..]), i, j)) && k == KeyByte(State(s[..], i', j'))
  {
    i' := (i + 1) % 256;
    assert s[i'] == s[..][i'];
    j' := (j + Value(s[i'])) % 256;
    Swap(s, i', j');
    assert s[i'] == s[..][i'] && s[j'] == s[..][j'];
    k := s[(Value(s[i']) + Value(s[j'])) % 256];
  }

  /** The loop of `rc4`. */
  method MaskAll(data: seq<byte>, key: seq<byte>) returns (result: seq<byte>)
    requires key != []
    ensures result == Cipher(data, key)
  {
    var s := KeySchedule(key);
    ghost var want := Cipher(data, key);
    var i, j := 0, 0;
    result := [];
    StartLeads(data, key, want);
    assert data[0..] == data;
    var n := 0;
    while n < |data|
      invariant 0 <= n <= |data| && s.Length == 256 && i < 256 && j < 256
      invariant Leads(State(s[..], i, j), result, data[n..], want)
    {
      LeadsOn(State(s[..], i, j), result, data[n..], want);
      var k;
      i, j, k := Turn(s, i, j);
      result := result + [Mask(data[n], k)];
      assert data[n..][1..] == data[n + 1..];
      n := n + 1;
    }
    assert data[n..] == [];
    LeadsEnd(State(s[..], i, j), result, want);
  }

  /** `rc4` */
  method Rc4Python(data: seq<byte>, key: seq<byte>) returns (result: seq<byte>)
    requires key != []
    ensures result == Cipher(data, key) && IsRc4(data, key, result)
  {
    result := MaskAll(data, key);
    Rc4Iff(data, key, result);
  }

  lemma StartLeads(data: seq<byte>, key: seq<byte>, want: seq<byte>)
    requires key != [] && want == Cipher(data, key)
    ensures Leads(State(Schedule(key, 256).s, 0, 0), [], data, want)
  {
    assert [] + Apply(Start(key), data) == Apply(Start(key), data);
  }
}
