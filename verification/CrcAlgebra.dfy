/**
  What the CRCs have in common, apart from their bit patterns: a register of type `T` that is shifted through a
  linear map `f`, `n` times for every symbol mixed in with `xor`.
 */
module CrcAlgebra {
  import opened Bytes

  /** The operations of one CRC. `up` moves a symbol one place away from the end where symbols are mixed in. */
  datatype Ops<!T(!new)> = Ops(f: T -> T, n: nat, xor: (T, T) -> T, zero: T, up: T -> T, fits: T -> bool) {

    ghost predicate Linear() {
      forall x, y :: f(xor(x, y)) == xor(f(x), f(y))
    }

    ghost predicate Injective() {
      forall x, y :: f(x) == f(y) ==> x == y
    }

    ghost predicate Associative() {
      && (forall x, y, z {:trigger xor(xor(x, y), z)} :: xor(xor(x, y), z) == xor(x, xor(y, z)))
      && (forall x :: xor(x, zero) == x)
    }

    ghost predicate Cancels() {
      && (forall x, y, z {:trigger xor(z, x), xor(z, y)} :: xor(z, x) == xor(z, y) ==> x == y)
      && (forall x, y, z {:trigger xor(x, z), xor(y, z)} :: xor(x, z) == xor(y, z) ==> x == y)
    }

    /** `n` shifts undo `up` as long as the word fits. */
    ghost predicate UpUndone() {
      forall w :: fits(w) ==> Iter(f, up(w), n) == w
    }
  }

  function Iter<T>(f: T -> T, x: T, n: nat): T
    decreases n
  {
    if n == 0 then x else Iter(f, f(x), n - 1)
  }

  function Update<T(!new)>(o: Ops<T>, r: T, us: seq<T>): T
    decreases |us|
  {
    if us == [] then r else Update(o, Iter(o.f, o.xor(r, us[0]), o.n), us[1..])
  }

  lemma {:induction false} UpdateAppend<T(!new)>(o: Ops<T>, r: T, a: seq<T>, b: seq<T>)
    ensures Update(o, r, a + b) == Update(o, Update(o, r, a), b)
    decreases |a|
  {
    if a == [] {
      assert a + b == b;
    } else {
      assert (a + b)[1..] == a[1..] + b;
      UpdateAppend(o, Iter(o.f, o.xor(r, a[0]), o.n), a[1..], b);
    }
  }

  lemma {:induction false} IterLinear<T(!new)>(o: Ops<T>, x: T, y: T, n: nat)
    requires o.Linear()
    ensures Iter(o.f, o.xor(x, y), n) == o.xor(Iter(o.f, x, n), Iter(o.f, y, n))
    decreases n
  {
    if n > 0 {
      IterLinear(o, o.f(x), o.f(y), n - 1);
    }
  }

  lemma {:induction false} IterInjective<T(!new)>(o: Ops<T>, x: T, y: T, n: nat)
    requires o.Injective() && Iter(o.f, x, n) == Iter(o.f, y, n)
    ensures x == y
    decreases n
  {
    if n > 0 {
      IterInjective(o, o.f(x), o.f(y), n - 1);
    }
  }

  lemma {:induction false} IterAdd<T>(f: T -> T, x: T, m: nat, n: nat)
    ensures Iter(f, x, m + n) == Iter(f, Iter(f, x, m), n)
    decreases m
  {
    if m > 0 {
      IterAdd(f, f(x), m - 1, n);
    }
  }

  lemma IterEight<T>(f: T -> T, x: T, n: nat)
    requires n == 8
    ensures Iter(f, x, n) == f(f(f(f(f(f(f(f(x))))))))
  {
    IterAdd(f, x, 4, 4);
    IterFour(f, x);
    IterFour(f, Iter(f, x, 4));
  }

  lemma IterFour<T>(f: T -> T, x: T)
    ensures Iter(f, x, 4) == f(f(f(f(x))))
  {
    IterAdd(f, x, 2, 2);
  }

  /** Distinct registers stay distinct whatever follows. */
  lemma {:induction false} UpdateInjective<T(!new)>(o: Ops<T>, x: T, y: T, us: seq<T>)
    requires o.Injective() && o.Cancels() && Update(o, x, us) == Update(o, y, us)
    ensures x == y
    decreases |us|
  {
    if us != [] {
      var u := us[0];
      UpdateInjective(o, Iter(o.f, o.xor(x, u), o.n), Iter(o.f, o.xor(y, u), o.n), us[1..]);
      IterInjective(o, o.xor(x, u), o.xor(y, u), o.n);
    }
  }

  // ---------------------------------------------------------------- bytes as symbols

  /** Bytes as register words. */
  function Embed<T>(widen: byte -> T, data: seq<byte>): (r: seq<T>)
    ensures |r| == |data|
  {
    if data == [] then [] else [widen(data[0])] + Embed(widen, data[1..])
  }

  lemma {:induction false} EmbedAppend<T>(widen: byte -> T, a: seq<byte>, b: seq<byte>)
    ensures Embed(widen, a + b) == Embed(widen, a) + Embed(widen, b)
  {
    if a == [] {
      assert a + b == b;
    } else {
      assert (a + b)[1..] == a[1..] + b;
      EmbedAppend(widen, a[1..], b);
    }
  }

  // ---------------------------------------------------------------- bursts

  /** A burst of symbols as one word. */
  function Word<T(!new)>(o: Ops<T>, us: seq<T>): T {
    if us == [] then o.zero else o.xor(us[0], o.up(Word(o, us[1..])))
  }

  /** Every proper tail of the burst fits. */
  ghost predicate TailsFit<T(!new)>(o: Ops<T>, us: seq<T>) {
    us != [] ==> o.fits(Word(o, us[1..])) && TailsFit(o, us[1..])
  }

  function Bits<T(!new)>(o: Ops<T>, us: seq<T>): nat {
    if us == [] then 0 else o.n + Bits(o, us[1..])
  }

  /** A word that fits may be mixed in `n` shifts earlier, one place up. */
  lemma MixEarlier<T(!new)>(o: Ops<T>, x: T, w: T)
    requires o.Linear() && o.UpUndone() && o.fits(w)
    ensures o.xor(Iter(o.f, x, o.n), w) == Iter(o.f, o.xor(x, o.up(w)), o.n)
  {
    IterLinear(o, x, o.up(w), o.n);
  }

  lemma Reassociate<T(!new)>(o: Ops<T>, r: T, u: T, w: T)
    requires o.Associative()
    ensures o.xor(o.xor(r, u), w) == o.xor(r, o.xor(u, w))
  {
  }

  /** One symbol of a burst: `w` is the rest of it, `bits` its length. */
  lemma DivisionStep<T(!new)>(o: Ops<T>, r: T, u: T, w: T, bits: nat)
    requires o.Linear() && o.Associative() && o.UpUndone() && o.fits(w)
    ensures Iter(o.f, o.xor(Iter(o.f, o.xor(r, u), o.n), w), bits) == Iter(o.f, o.xor(r, o.xor(u, o.up(w))), o.n + bits)
  {
    var x := o.xor(r, u);
    MixEarlier(o, x, w);
    IterAdd(o.f, o.xor(x, o.up(w)), o.n, bits);
    Reassociate(o, r, u, o.up(w));
  }

  lemma WordStep<T(!new)>(o: Ops<T>, us: seq<T>)
    requires us != []
    ensures Word(o, us) == o.xor(us[0], o.up(Word(o, us[1..]))) && Bits(o, us) == o.n + Bits(o, us[1..])
  {
  }

  /** Running a burst through the register is shifting the register with the whole burst mixed in. */
  lemma {:induction false} UpdateIsDivision<T(!new)>(o: Ops<T>, r: T, us: seq<T>)
    requires o.Linear() && o.Associative() && o.UpUndone() && TailsFit(o, us)
    ensures Update(o, r, us) == Iter(o.f, o.xor(r, Word(o, us)), Bits(o, us))
    decreases |us|
  {
    if us != [] {
      UpdateIsDivision(o, Iter(o.f, o.xor(r, us[0]), o.n), us[1..]);
      DivisionStep(o, r, us[0], Word(o, us[1..]), Bits(o, us[1..]));
      WordStep(o, us);
    }
  }

  lemma {:induction false} SameBits<T(!new)>(o: Ops<T>, us: seq<T>, vs: seq<T>)
    requires |us| == |vs|
    ensures Bits(o, us) == Bits(o, vs)
  {
    if us != [] {
      SameBits(o, us[1..], vs[1..]);
    }
  }

  /** Two bursts that leave the same register behind are the same word. */
  lemma BurstWord<T(!new)>(o: Ops<T>, r: T, a: seq<T>, us: seq<T>, vs: seq<T>, b: seq<T>)
    requires o.Linear() && o.Injective() && o.Associative() && o.Cancels() && o.UpUndone()
    requires |us| == |vs| && TailsFit(o, us) && TailsFit(o, vs)
    requires Update(o, r, a + us + b) == Update(o, r, a + vs + b)
    ensures Word(o, us) == Word(o, vs)
  {
    var s := Update(o, r, a);
    UpdateAppend(o, r, a + us, b);
    UpdateAppend(o, r, a, us);
    UpdateAppend(o, r, a + vs, b);
    UpdateAppend(o, r, a, vs);
    UpdateInjective(o, Update(o, s, us), Update(o, s, vs), b);
    UpdateIsDivision(o, s, us);
    UpdateIsDivision(o, s, vs);
    SameBits(o, us, vs);
    IterInjective(o, o.xor(s, Word(o, us)), o.xor(s, Word(o, vs)), Bits(o, us));
  }

  // ---------------------------------------------------------------- symbols entering at the far end

  /** The register that takes symbols in below itself: shift first, then mix in. */
  function Feed<T(!new)>(o: Ops<T>, r: T, us: seq<T>): T
    decreases |us|
  {
    if us == [] then r else Feed(o, o.xor(Iter(o.f, r, o.n), us[0]), us[1..])
  }

  function MapUp<T(!new)>(o: Ops<T>, us: seq<T>): (r: seq<T>)
    ensures |r| == |us|
  {
    if us == [] then [] else [o.up(us[0])] + MapUp(o, us[1..])
  }

  /** `n` shifts move a symbol up. */
  ghost predicate Raises<T(!new)>(o: Ops<T>, us: seq<T>) {
    forall i | 0 <= i < |us| :: Iter(o.f, us[i], o.n) == o.up(us[i])
  }

  lemma {:induction false} FeedAppend<T(!new)>(o: Ops<T>, r: T, a: seq<T>, b: seq<T>)
    ensures Feed(o, r, a + b) == Feed(o, Feed(o, r, a), b)
    decreases |a|
  {
    if a == [] {
      assert a + b == b;
    } else {
      assert (a + b)[1..] == a[1..] + b;
      FeedAppend(o, o.xor(Iter(o.f, r, o.n), a[0]), a[1..], b);
    }
  }

  /** A register fed from below and shifted two symbols further is the register fed at the top. */
  lemma {:induction false} FeedIsUpdate<T(!new)>(o: Ops<T>, r: T, us: seq<T>)
    requires o.Linear() && Raises(o, us)
    ensures Update(o, Iter(o.f, Iter(o.f, r, o.n), o.n), MapUp(o, us))
            == Iter(o.f, Iter(o.f, Feed(o, r, us), o.n), o.n)
    decreases |us|
  {
    if us != [] {
      var u := us[0];
      var z := Iter(o.f, r, o.n);
      FeedIsUpdate(o, o.xor(z, u), us[1..]);
      IterLinear(o, z, u, o.n);
      assert MapUp(o, us)[1..] == MapUp(o, us[1..]) && MapUp(o, us)[0] == o.up(u);
      assert Iter(o.f, o.xor(z, u), o.n) == o.xor(Iter(o.f, z, o.n), o.up(u));
    }
  }

  lemma {:induction false} MapUpAppend<T(!new)>(o: Ops<T>, a: seq<T>, b: seq<T>)
    ensures MapUp(o, a + b) == MapUp(o, a) + MapUp(o, b)
  {
    if a == [] {
      assert a + b == b;
    } else {
      assert (a + b)[1..] == a[1..] + b;
      MapUpAppend(o, a[1..], b);
    }
  }

  // ---------------------------------------------------------------- one bit at a time

  function BitByBit<T(!new)>(o: Ops<T>, r: T, bits: seq<T>): T
    decreases |bits|
  {
    if bits == [] then r else BitByBit(o, o.xor(o.f(r), bits[0]), bits[1..])
  }

  lemma {:induction false} BitByBitAppend<T(!new)>(o: Ops<T>, r: T, a: seq<T>, b: seq<T>)
    ensures BitByBit(o, r, a + b) == BitByBit(o, BitByBit(o, r, a), b)
    decreases |a|
  {
    if a == [] {
      assert a + b == b;
    } else {
      assert (a + b)[1..] == a[1..] + b;
      BitByBitAppend(o, o.xor(o.f(r), a[0]), a[1..], b);
    }
  }

  lemma BitByBitTwo<T(!new)>(o: Ops<T>, r: T, bits: seq<T>)
    requires |bits| >= 2
    ensures BitByBit(o, r, bits) == BitByBit(o, o.xor(o.f(o.xor(o.f(r), bits[0])), bits[1]), bits[2..])
  {
    assert bits[1..][1..] == bits[2..];
  }

  lemma BitByBitFour<T(!new)>(o: Ops<T>, r: T, bits: seq<T>)
    requires |bits| == 4
    ensures BitByBit(o, r, bits)
            == o.xor(o.f(o.xor(o.f(o.xor(o.f(o.xor(o.f(r), bits[0])), bits[1])), bits[2])), bits[3])
  {
    BitByBitTwo(o, r, bits);
    BitByBitTwo(o, o.xor(o.f(o.xor(o.f(r), bits[0])), bits[1]), bits[2..]);
    assert bits[2..][2..] == [];
  }

  /** The register and the bits brought down contribute separately. */
  lemma {:induction false} BitByBitSplit<T(!new)>(o: Ops<T>, r: T, bits: seq<T>)
    requires o.Linear() && o.Associative() && o.f(o.zero) == o.zero
    ensures BitByBit(o, r, bits) == o.xor(Iter(o.f, r, |bits|), BitByBit(o, o.zero, bits))
    decreases |bits|
  {
    if bits == [] {
      assert o.xor(r, o.zero) == r;
    } else {
      var b, n, rest := bits[0], |bits| - 1, bits[1..];
      var zb := o.xor(o.zero, b);
      BitByBitSplit(o, o.xor(o.f(r), b), rest);
      BitByBitSplit(o, zb, rest);
      IterLinear(o, o.f(r), zb, n);
      assert o.xor(o.f(r), zb) == o.xor(o.xor(o.f(r), o.zero), b);
    }
  }
}
