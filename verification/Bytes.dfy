/** Bytes, and the few sequence operations every other module shares. */
module Bytes {

  /** An unsigned 8-bit value, as in the C agent and in Python's `bytes`. */
  type byte = bv8

  datatype Option<+T> = None | Some(value: T)

  /** Equality under a name: `forall y {:trigger Is(y, x)} | Is(y, x) :: F(y) == z` says `F(x) == z` without showing
      the solver a call of the recursive `F` that it could unfold. Invariants and inductions that only hand such a
      fact on are stated so; the trigger keeps other calls of `F` from opening it. */
  predicate Is<T(==)>(x: T, y: T) {
    x == y
  }

  /** `Is` for numbers. */
  predicate IsNat(x: nat, y: nat) {
    x == y
  }

  function Min(a: int, b: int): int {
    if a < b then a else b
  }

  /** `n` copies of one byte: `b"\xff" * n`. */
  function Fill(n: nat, b: byte): seq<byte> {
    seq(n, i => b)
  }

  /** `s` with the bytes from `at` on overwritten by `d`. */
  function Splice<T>(s: seq<T>, at: nat, d: seq<T>): (r: seq<T>)
    requires at + |d| <= |s|
    ensures |r| == |s|
  {
    s[..at] + d + s[at + |d|..]
  }

  /** The bytes of a list of chunks, in order: `b"".join(chunks)`. */
  function Join<T>(chunks: seq<seq<T>>): seq<T> {
    if chunks == [] then [] else chunks[0] + Join(chunks[1..])
  }

  lemma {:induction false} JoinAppend<T>(xs: seq<seq<T>>, ys: seq<seq<T>>)
    ensures Join(xs + ys) == Join(xs) + Join(ys)
  {
    if xs == [] {
      assert xs + ys == ys;
    } else {
      assert (xs + ys)[1..] == xs[1..] + ys;
      JoinAppend(xs[1..], ys);
    }
  }

  /** Quotient and remainder are determined by `a == q * m + r`. */
  lemma DivModUnique(a: int, m: int, q: int, r: int)
    requires 0 < m && 0 <= r < m && a == q * m + r
    ensures a / m == q && a % m == r
  {
    var d := a / m - q;
    assert d * m == r - a % m;
    SmallMultiple(d, m);
  }

  /** A multiple of `m` strictly between -m and m is zero. */
  lemma SmallMultiple(d: int, m: int)
    requires 0 < m && -m < d * m < m
    ensures d == 0
  {
    if d >= 1 {
      MulMono(1, d, m);
    } else if d <= -1 {
      MulMono(d, -1, m);
    }
  }

  lemma MulMono(a: int, b: int, m: int)
    requires 0 <= m && a <= b
    ensures a * m <= b * m
  {
    assert (b - a) * m >= 0;
  }

  /** Two splices at adjacent places are one. */
  lemma SpliceAdjacent<T>(s: seq<T>, at: nat, d: seq<T>, e: seq<T>)
    requires at + |d| + |e| <= |s|
    ensures Splice(Splice(s, at, d), at + |d|, e) == Splice(s, at, d + e)
  {
    var l := Splice(Splice(s, at, d), at + |d|, e);
    var r := Splice(s, at, d + e);
    forall i | 0 <= i < |s|
      ensures l[i] == r[i]
    {
      if at + |d| <= i < at + |d| + |e| {
        assert l[i] == e[i - at - |d|];
      }
    }
  }
}
