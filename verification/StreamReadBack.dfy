/**
  A flash stream and the read that checks it: what `read_memory` (src/defib/agent/client.py:400-448) returns of the
  range that `write_flash` (src/defib/agent/client.py:631-740) has reported as written.
 */
module StreamReadBack {
  import opened Bytes
  import opened Flash
  import opened StreamSystem
  import opened StreamTheorems
  import H = StreamHost
  import R = ReadProtocol

  /** `write_flash` has returned True at the end of the run, and left the flash `f`. */
  ghost predicate Confirmed(c: Config, es: seq<Event>, f: seq<byte>) {
    forall y {:trigger Is(y, es)} | Is(y, es) ::
      c.Valid() && Run(c, y).host.pc == H.Returned(true) && Run(c, y).flash == f
  }

  /** The device serves a read of the written range, through the window in which it shows its flash. */
  ghost predicate Shows(c: Config, dev: R.Device) {
    && dev.Valid() && dev.flashReadable
    && dev.flashMem + c.q.addr + |c.q.image| < R.Word && |c.q.image| <= R.MaxReadSize
  }

  /** In the window the bytes are the flash's. */
  lemma WindowBytes(dev: R.Device, at: nat, n: nat, data: seq<byte>)
    requires dev.flashReadable && at + n <= |dev.flash| && R.Names(dev, dev.flashMem + at, n, data)
    ensures data == dev.flash[at..at + n]
  {
  }

  /** The `n` flash bytes from `at` on are `want`, and the device serves a read of them. */
  ghost predicate Holds(dev: R.Device, at: nat, n: nat, want: seq<byte>) {
    forall k: nat {:trigger IsNat(k, n)} | IsNat(k, n) ::
      && |want| == k && dev.Valid() && dev.flashReadable && at + k <= |dev.flash| && dev.flash[at..at + k] == want
      && dev.flashMem + at < R.Word && dev.Served(dev.flashMem + at, k)
  }

  /** `ms` is some of the answer to a read of the `n` flash bytes from `at` on. */
  ghost predicate SomeOf(dev: R.Device, at: nat, n: nat, chunk: nat, ms: seq<R.Reply>) {
    forall k: nat {:trigger IsNat(k, n)} | IsNat(k, n) ::
      0 < chunk && dev.Valid() && dev.flashMem + at < R.Word && R.Delivered(ms, R.Answer(dev, dev.flashMem + at, k, chunk))
  }

  /** `ms` is the answer, with READY packets in between. */
  ghost predicate AllOf(dev: R.Device, at: nat, n: nat, chunk: nat, ms: seq<R.Reply>) {
    forall k: nat {:trigger IsNat(k, n)} | IsNat(k, n) ::
      0 < chunk && dev.Valid() && dev.flashMem + at < R.Word && R.Complete(ms, R.Answer(dev, dev.flashMem + at, k, chunk))
  }

  lemma HeldRead(dev: R.Device, at: nat, n: nat, want: seq<byte>, chunk: nat, ms: seq<R.Reply>)
    requires Holds(dev, at, n, want) && SomeOf(dev, at, n, chunk, ms)
    ensures R.Result(n, ms).Returned? ==> R.Result(n, ms).data == want
  {
    assert IsNat(n, n);
    R.ReadSafe(dev, dev.flashMem + at, n, chunk, ms);
    var s := R.Result(n, ms);
    if s.Returned? {
      WindowBytes(dev, at, n, s.data);
    }
  }

  lemma HeldReadWhole(dev: R.Device, at: nat, n: nat, want: seq<byte>, chunk: nat, ms: seq<R.Reply>)
    requires Holds(dev, at, n, want) && AllOf(dev, at, n, chunk, ms)
    ensures R.Result(n, ms) == R.Returned(want)
  {
    assert IsNat(n, n);
    R.ReadLive(dev, dev.flashMem + at, n, chunk, ms);
    WindowBytes(dev, at, n, R.Result(n, ms).data);
  }

  lemma HoldsSlice(dev: R.Device, at: nat, n: nat, want: seq<byte>)
    requires dev.Valid() && dev.flashReadable && 0 < n <= R.MaxReadSize && dev.flashMem + at + n < R.Word
    requires |want| == n && at + n <= |dev.flash| && dev.flash[at..at + n] == want
    ensures Holds(dev, at, n, want)
  {
    R.ServedIff(dev, dev.flashMem + at, n);
  }

  /** Once a stream has returned True, the device holds what lands of the image. */
  lemma HoldsImage(c: Config, es: seq<Event>, dev: R.Device) returns (want: seq<byte>)
    requires 0 < c.q.g.page && Confirmed(c, es, dev.flash) && Shows(c, dev)
    ensures want == Landed(c.q.g, c.q.image) && Holds(dev, c.q.addr, |c.q.image|, want)
    ensures want == c.q.image <==> TailVisible(c.q.g, c.q.image)
  {
    assert Is(es, es);
    TrueMeansWritten(c, es);
    want := Landed(c.q.g, c.q.image);
    HoldsSlice(dev, c.q.addr, |c.q.image|, want);
    LandedIsImage(c.q.g, c.q.image);
  }

  /** After a True, whatever was lost while streaming and whatever is lost while reading back: a read that returns,
      returns what lands of the image, and so the image itself exactly when its tail is visible. */
  lemma ReadBackSafe(c: Config, es: seq<Event>, dev: R.Device, chunk: nat, ms: seq<R.Reply>)
    requires 0 < c.q.g.page && Confirmed(c, es, dev.flash) && Shows(c, dev) && SomeOf(dev, c.q.addr, |c.q.image|, chunk, ms)
    ensures var s := R.Result(|c.q.image|, ms);
            s.Returned? ==> s.data == Landed(c.q.g, c.q.image) && (s.data == c.q.image <==> TailVisible(c.q.g, c.q.image))
  {
    var want := HoldsImage(c, es, dev);
    HeldRead(dev, c.q.addr, |c.q.image|, want, chunk, ms);
  }

  /** And on a link that loses nothing it does return. */
  lemma ReadBackLive(c: Config, es: seq<Event>, dev: R.Device, chunk: nat, ms: seq<R.Reply>)
    requires 0 < c.q.g.page && Confirmed(c, es, dev.flash) && Shows(c, dev) && AllOf(dev, c.q.addr, |c.q.image|, chunk, ms)
    ensures R.Result(|c.q.image|, ms) == R.Returned(Landed(c.q.g, c.q.image))
  {
    var want := HoldsImage(c, es, dev);
    HeldReadWhole(dev, c.q.addr, |c.q.image|, want, chunk, ms);
  }
}
