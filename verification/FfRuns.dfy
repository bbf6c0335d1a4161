/**
  Zeroing long runs of 0xFF before a U-Boot upload (src/defib/protocol/hisilicon_standard.py:562-591).
 */
module FfRuns {
  import opened Bytes

  /** `f[a..b]` is a run of at least `t` bytes 0xFF. */
  predicate LongRun(f: seq<byte>, a: nat, b: nat, t: nat) {
    a <= b <= |f| && b - a >= t && forall i | a <= i < b :: f[i] == 0xFF
  }

  /** Byte `k` lies in such a run. */
  ghost predicate InLongRun(f: seq<byte>, k: nat, t: nat) {
    exists a: nat, b: nat :: a <= k < b && LongRun(f, a, b, t)
  }

  /** The search pattern, `t` bytes 0xFF, at place `a`. */
  predicate Window(f: seq<byte>, a: nat, t: nat) {
    a + t <= |f| && forall i | a <= i < a + t :: f[i] == 0xFF
  }

  /** What the operation is for: the bytes of long runs, and only they, are zero. */
  ghost predicate Zeroed(f: seq<byte>, t: nat, out: seq<byte>) {
    |out| == |f| && forall k | 0 <= k < |f| :: out[k] == if InLongRun(f, k, t) then 0 else f[k]
  }

  /** A maximal run: long as a whole, or none of its bytes is in a long one. */
  lemma MaximalRun(f: seq<byte>, s: nat, e: nat, k: nat, t: nat)
    requires s <= k < e <= |f| && (forall i | s <= i < e :: f[i] == 0xFF)
    requires (s == 0 || f[s - 1] != 0xFF) && (e == |f| || f[e] != 0xFF)
    ensures InLongRun(f, k, t) <==> e - s >= t
  {
    if e - s >= t {
      assert LongRun(f, s, e, t);
    }
    if InLongRun(f, k, t) {
      var a: nat, b: nat :| a <= k < b && LongRun(f, a, b, t);
      assert a >= s && b <= e;
    }
  }

  lemma NotFf(f: seq<byte>, k: nat, t: nat)
    requires k < |f| && f[k] != 0xFF
    ensures !InLongRun(f, k, t)
  {
  }

  // ---------------------------------------------------------------- the Python code

  /** `firmware.count(b"\xff" * threshold) == 0` */
  method HasRun(f: seq<byte>, t: nat) returns (found: bool)
    requires 0 < t
    ensures found <==> exists a: nat :: Window(f, a, t)
  {
    var i, length := 0, 0;
    while i < |f|
      invariant 0 <= i <= |f| && 0 <= length <= i && length < t
      invariant forall k | i - length <= k < i :: f[k] == 0xFF
      invariant length < i ==> f[i - length - 1] != 0xFF
      invariant forall a: nat | Window(f, a, t) :: a + t > i
    {
      if f[i] == 0xFF {
        length := length + 1;
        if length == t {
          assert Window(f, i + 1 - t, t);
          return true;
        }
        assert length <= i ==> f[i - length] != 0xFF;
      } else {
        length := 0;
      }
      i := i + 1;
    }
    found := false;
  }

  /** Bytes before `done` are final, the others untouched. */
  ghost predicate Progress(f: seq<byte>, t: nat, out: seq<byte>, done: nat) {
    && |out| == |f|
    && forall k | 0 <= k < |f| :: out[k] == if k < done && InLongRun(f, k, t) then 0 else f[k]
  }

  /** A run that ended at `e` is zeroed if it is long enough. */
  method CloseRun(ghost f: seq<byte>, out: array<byte>, s: nat, e: nat, t: nat)
    requires s < e <= |f| && Progress(f, t, out[..], s) && (forall i | s <= i < e :: f[i] == 0xFF)
    requires (s == 0 || f[s - 1] != 0xFF) && (e == |f| || f[e] != 0xFF)
    modifies out
    ensures Progress(f, t, out[..], e)
  {
    forall k | s <= k < e
      ensures InLongRun(f, k, t) <==> e - s >= t
    {
      MaximalRun(f, s, e, k, t);
    }
    if e - s >= t {
      var j := s;
      while j < e
        invariant s <= j <= e && forall k | 0 <= k < |f| :: out[k] == if s <= k < j then 0 else old(out[k])
      {
        out[j] := 0;
        j := j + 1;
      }
      assert forall k | 0 <= k < |f| :: old(out[..])[k] == old(out[k]) && out[..][k] == out[k];
    }
  }

  /** The loop of `_zero_long_ff_runs`. */
  method ZeroRuns(f: seq<byte>, out: array<byte>, t: nat)
    requires 0 < t && out[..] == f
    modifies out
    ensures Zeroed(f, t, out[..])
  {
    var runStart := -1;
    var i := 0;
    while i < out.Length
      invariant 0 <= i <= out.Length && -1 <= runStart < i
      invariant Progress(f, t, out[..], if runStart < 0 then i else runStart)
      invariant runStart >= 0 ==> forall k | runStart <= k < i :: f[k] == 0xFF
      invariant runStart > 0 ==> f[runStart - 1] != 0xFF
      invariant runStart < 0 && i > 0 ==> f[i - 1] != 0xFF
    {
      assert out[..][i] == f[i];
      if out[i] == 0xFF {
        if runStart < 0 {
          runStart := i;
        }
      } else {
        NotFf(f, i, t);
        if runStart >= 0 {
          CloseRun(f, out, runStart, i, t);
        }
        runStart := -1;
      }
      i := i + 1;
    }
    if runStart >= 0 {
      CloseRun(f, out, runStart, i, t);
    }
  }

  /** `_zero_long_ff_runs`, fast path included. */
  method ZeroLongFfRuns(firmware: seq<byte>, threshold: nat) returns (result: seq<byte>)
    requires 0 < threshold
    ensures Zeroed(firmware, threshold, result)
  {
    var found := HasRun(firmware, threshold);
    if !found {
      NoRunNoChange(firmware, threshold);
      return firmware;
    }
    var out := new byte[|firmware|](i requires 0 <= i < |firmware| => firmware[i]);
    assert out[..] == firmware;
    ZeroRuns(firmware, out, threshold);
    result := out[..];
  }

  lemma WindowIn(f: seq<byte>, k: nat, t: nat)
    requires 0 < t
    ensures InLongRun(f, k, t) ==> exists a: nat :: Window(f, a, t)
  {
    if InLongRun(f, k, t) {
      var a: nat, b: nat :| a <= k < b && LongRun(f, a, b, t);
      assert Window(f, a, t);
    }
  }

  /** Why the fast path is right: without a window of `t` bytes 0xFF nothing is in a long run. */
  lemma NoRunNoChange(f: seq<byte>, t: nat)
    requires 0 < t && !exists a: nat :: Window(f, a, t)
    ensures Zeroed(f, t, f)
  {
    forall k: nat
      ensures !InLongRun(f, k, t)
    {
      WindowIn(f, k, t);
    }
  }

  // ---------------------------------------------------------------- main results

  /** No long run survives, and a second pass changes nothing. */
  lemma NoRunLeft(f: seq<byte>, t: nat, out: seq<byte>)
    requires 0 < t && Zeroed(f, t, out)
    ensures forall a: nat, b: nat :: !LongRun(out, a, b, t)
    ensures Zeroed(out, t, out)
  {
    forall a: nat, b: nat
      ensures !LongRun(out, a, b, t)
    {
      if a < b <= |out| && b - a >= t && !InLongRun(f, a, t) {
        assert !LongRun(f, a, b, t);
      }
    }
  }

  /** The specification leaves one result. */
  lemma ZeroedOnce(f: seq<byte>, t: nat, a: seq<byte>, b: seq<byte>)
    requires Zeroed(f, t, a) && Zeroed(f, t, b)
    ensures a == b
  {
    assert forall k | 0 <= k < |f| :: a[k] == b[k];
  }
}
