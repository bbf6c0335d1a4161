/**
  HEAD, DATA and TAIL frames of the HiSilicon boot protocol: the encoders and decoders of
  src/defib/protocol/frames.py:42-123, the sequence the standard sender makes of them
  (src/defib/protocol/hisilicon_standard.py:623-642), and the frames V500 builds inline
  (src/defib/protocol/hisilicon_v500.py:124-181).
 */
module BootFrames {
  import opened Bytes
  import opened Octets
  import opened Crc16

  const HeadMagic: seq<byte> := [0xFE, 0x00, 0xFF, 0x01]
  const DataMagic: byte := 0xDA
  const TailMagic: byte := 0xED
  const MaxDataLen: nat := 1024
  const Word: nat := 0x1_0000_0000

  function Not(b: byte): byte {
    !b
  }

  /** Command byte, number and inverted number. */
  function Prologue(magic: byte, n: nat): (r: seq<byte>)
    ensures |r| == 3
  {
    [magic, Octet(n), Not(Octet(n))]
  }

  function HeadFrame(length: nat, address: nat): seq<byte> {
    AppendCrc(HeadMagic + Be32(length) + Be32(address))
  }

  function DataFrame(n: nat, payload: seq<byte>): seq<byte> {
    AppendCrc(Prologue(DataMagic, n) + payload)
  }

  function TailFrame(n: nat): seq<byte> {
    AppendCrc(Prologue(TailMagic, n))
  }

  /** The DATA frames of `data`, numbered from `n` on. */
  function DataFrames(data: seq<byte>, n: nat): seq<seq<byte>>
    decreases |data|
  {
    if data == [] then []
    else [DataFrame(n, data[..Min(MaxDataLen, |data|)])] + DataFrames(data[Min(MaxDataLen, |data|)..], n + 1)
  }

  function NumChunks(size: nat): nat {
    (size + MaxDataLen - 1) / MaxDataLen
  }

  /** What follows the HEAD frame. */
  function Body(data: seq<byte>): seq<seq<byte>> {
    DataFrames(data, 1) + [TailFrame(1 + NumChunks(|data|))]
  }

  /** Everything that goes out for `data`, retransmissions aside. */
  function Frames(data: seq<byte>, address: nat): seq<seq<byte>> {
    [HeadFrame(|data|, address)] + Body(data)
  }

  lemma NumChunksStep(size: nat)
    requires 0 < size
    ensures NumChunks(size) == 1 + NumChunks(size - Min(MaxDataLen, size))
  {
  }

  // ---------------------------------------------------------------- frames.py

  /** The last two bytes of every `encode`. */
  method CrcBytes(body: seq<byte>) returns (frame: seq<byte>)
    ensures frame == AppendCrc(body)
  {
    var crc := CalcCrcPython(body, PyInt(0, 0));
    frame := body + [High(crc), Low(crc)];
  }

  method Fill4(frame: array<byte>, at: nat, b: seq<byte>)
    requires |b| == 4 && at + 4 <= frame.Length
    modifies frame
    ensures frame[..at] == old(frame[..at]) && frame[at..at + 4] == b && frame[..at + 4] == old(frame[..at]) + b
  {
    forall i | 0 <= i < 4 {
      frame[at + i] := b[i];
    }
    assert frame[at..at + 4] == b;
    assert frame[..at + 4] == frame[..at] + frame[at..at + 4];
  }

  /** `HeadFrame.encode` */
  method EncodeHead(length: nat, address: nat) returns (result: seq<byte>)
    requires length < Word && address < Word
    ensures result == HeadFrame(length, address)
  {
    var frame := new byte[14];
    Fill4(frame, 0, HeadMagic);
    Fill4(frame, 4, Be32(length));
    Fill4(frame, 8, Be32(address));
    assert frame[..12] == HeadMagic + Be32(length) + Be32(address);
    result := CrcBytes(frame[..12]);
  }

  /** `chunk_data` */
  function ChunkData(data: seq<byte>): seq<seq<byte>>
    decreases |data|
  {
    if data == [] then []
    else [data[..Min(MaxDataLen, |data|)]] + ChunkData(data[Min(MaxDataLen, |data|)..])
  }

  lemma {:induction false} ChunkCount(data: seq<byte>)
    ensures |ChunkData(data)| == NumChunks(|data|)
    decreases |data|
  {
    if data != [] {
      NumChunksStep(|data|);
      ChunkCount(data[Min(MaxDataLen, |data|)..]);
    }
  }

  /** A frame for each of a list of chunks, numbered from `n` on. */
  function ChunkFrames(frame: (nat, seq<byte>) -> seq<byte>, chunks: seq<seq<byte>>, n: nat): seq<seq<byte>> {
    if chunks == [] then [] else [frame(n, chunks[0])] + ChunkFrames(frame, chunks[1..], n + 1)
  }

  lemma {:induction false} ChunkFramesAre(data: seq<byte>, n: nat)
    ensures ChunkFrames(DataFrame, ChunkData(data), n) == DataFrames(data, n)
    decreases |data|
  {
    if data != [] {
      var rest := data[Min(MaxDataLen, |data|)..];
      ChunkFramesAre(rest, n + 1);
      assert ChunkData(data)[1..] == ChunkData(rest);
    }
  }

  lemma {:induction false} ChunkFramesSnoc(frame: (nat, seq<byte>) -> seq<byte>, chunks: seq<seq<byte>>, n: nat,
                                           c: seq<byte>)
    ensures ChunkFrames(frame, chunks + [c], n) == ChunkFrames(frame, chunks, n) + [frame(n + |chunks|, c)]
    decreases |chunks|
  {
    if chunks == [] {
      assert [c][1..] == [] && [] + [c] == [c];
    } else {
      assert (chunks + [c])[1..] == chunks[1..] + [c];
      ChunkFramesSnoc(frame, chunks[1..], n + 1, c);
    }
  }

  /** The standard sender, as far as `_send_uboot` goes beyond the handshake: one frame per list element. */
  method SendStandard(data: seq<byte>, address: nat) returns (frames: seq<seq<byte>>)
    requires |data| < Word && address < Word
    ensures frames == Frames(data, address)
  {
    var head := EncodeHead(|data|, address);
    var sent: seq<seq<byte>> := [];
    var chunks := ChunkData(data);
    for i := 0 to |chunks|
      invariant sent == ChunkFrames(DataFrame, chunks[..i], 1)
    {
      var n := i + 1;
      ChunkFramesSnoc(DataFrame, chunks[..i], 1, chunks[i]);
      assert chunks[..i] + [chunks[i]] == chunks[..i + 1];
      var frame := CrcBytes([DataMagic, Octet(n), Not(Octet(n))] + chunks[i]);
      sent := sent + [frame];
    }
    assert chunks[..|chunks|] == chunks;
    ChunkFramesAre(data, 1);
    ChunkCount(data);
    var n := |chunks| + 1;
    var tail := CrcBytes([TailMagic, Octet(n), Not(Octet(n))]);
    frames := [head] + (sent + [tail]);
  }

  // ---------------------------------------------------------------- hisilicon_v500.py

  /** The frames so far, followed by those for the rest of the data, are `want`. */
  ghost predicate Sending(sent: seq<seq<byte>>, rest: seq<byte>, n: nat, want: seq<seq<byte>>) {
    forall y {:trigger Is(y, rest)} | Is(y, rest) :: sent + DataFrames(y, n) == want
  }

  lemma SendingStart(data: seq<byte>)
    ensures Sending([], data, 1, DataFrames(data, 1))
  {
    assert [] + DataFrames(data, 1) == DataFrames(data, 1);
  }

  lemma SendingOn(sent: seq<seq<byte>>, rest: seq<byte>, n: nat, want: seq<seq<byte>>)
    requires rest != [] && Sending(sent, rest, n, want)
    ensures var k := Min(MaxDataLen, |rest|);
            Sending(sent + [DataFrame(n, rest[..k])], rest[k..], n + 1, want)
  {
    assert Is(rest, rest);
    var k := Min(MaxDataLen, |rest|);
    var f := [DataFrame(n, rest[..k])];
    assert sent + (f + DataFrames(rest[k..], n + 1)) == sent + f + DataFrames(rest[k..], n + 1);
  }

  lemma SendingEnd(sent: seq<seq<byte>>, n: nat, want: seq<seq<byte>>)
    requires Sending(sent, [], n, want)
    ensures sent == want
  {
    assert Is<seq<byte>>([], []);
    assert sent + [] == sent;
  }

  method V500Data(idx: nat, chunk: seq<byte>) returns (frame: seq<byte>)
    ensures frame == DataFrame(idx, chunk)
  {
    assert [0xDA] + [Octet(idx)] + [Not(Octet(idx))] == Prologue(DataMagic, idx);
    frame := CrcBytes([0xDA] + [Octet(idx)] + [Not(Octet(idx))] + chunk);
  }

  /** The loop of `_send_data_to_bootrom`. */
  method V500DataFrames(data: seq<byte>) returns (sent: seq<seq<byte>>)
    ensures sent == DataFrames(data, 1)
  {
    sent := [];
    ghost var want := DataFrames(data, 1);
    SendingStart(data);
    assert data[0..] == data;
    var idx, pos, remaining := 0, 0, |data|;
    while remaining > 0
      invariant 0 <= pos && 0 <= remaining && pos + remaining == |data| && 0 <= idx
      invariant Sending(sent, data[pos..], idx + 1, want)
    {
      idx := idx + 1;
      var chunkSize := Min(1024, remaining);
      var chunk := data[pos..pos + chunkSize];
      SendingOn(sent, data[pos..], idx, want);
      assert data[pos..][..chunkSize] == chunk && data[pos..][chunkSize..] == data[pos + chunkSize..];
      pos := pos + chunkSize;
      remaining := remaining - chunkSize;
      var frame := V500Data(idx, chunk);
      sent := sent + [frame];
    }
    assert data[pos..] == [];
    SendingEnd(sent, idx + 1, want);
  }

  method V500Head(length: nat, address: nat) returns (frame: seq<byte>)
    ensures frame == HeadFrame(length, address)
  {
    frame := CrcBytes([0xFE, 0x00, 0xFF, 0x01] + Be32(length) + Be32(address));
  }

  method V500Tail(count: nat) returns (frame: seq<byte>)
    ensures frame == TailFrame(count)
  {
    assert [0xED] + [Octet(count)] + [Not(Octet(count))] == Prologue(TailMagic, count);
    frame := CrcBytes([0xED] + [Octet(count)] + [Not(Octet(count))]);
  }

  /** `_send_data_to_bootrom`: byte for byte what the standard sender sends. */
  method SendV500(data: seq<byte>, address: nat) returns (frames: seq<seq<byte>>)
    requires |data| < Word && address < Word
    ensures frames == Frames(data, address)
  {
    var head := V500Head(|data|, address);
    var sent := V500DataFrames(data);
    var count := (|data| + 1023) / 1024 + 1;
    var tail := V500Tail(count);
    assert count == 1 + NumChunks(|data|);
    frames := [head] + (sent + [tail]);
  }

  // ---------------------------------------------------------------- the receiving end

  /** `HeadFrame.decode` */
  function DecodeHead(f: seq<byte>): Option<(nat, nat)> {
    if |f| < 14 || f[..4] != HeadMagic then None else Some((FromBe32(f[4..8]), FromBe32(f[8..12])))
  }

  /** `DataFrame.decode` */
  function DecodeData(f: seq<byte>): Option<(byte, seq<byte>)> {
    if |f| < 6 || f[0] != DataMagic || f[2] != Not(f[1]) then None else Some((f[1], f[3..|f| - 2]))
  }

  /** `TailFrame.decode` */
  function DecodeTail(f: seq<byte>): Option<byte> {
    if |f| < 5 || f[0] != TailMagic then None else Some(f[1])
  }

  /** A receiver that takes DATA frames in order, up to the TAIL; `n` is the number it expects next. */
  function TakeData(frames: seq<seq<byte>>, n: nat, got: seq<byte>): Option<seq<byte>> {
    if frames == [] || !VerifyCrc(frames[0]) then None
    else if DecodeTail(frames[0]).Some? then
      if |frames| == 1 && DecodeTail(frames[0]).value == Octet(n) then Some(got) else None
    else if DecodeData(frames[0]).None? || DecodeData(frames[0]).value.0 != Octet(n) then None
    else TakeData(frames[1..], n + 1, got + DecodeData(frames[0]).value.1)
  }

  /** Address and data, if as many bytes came as the HEAD declared. */
  function Rebuild(frames: seq<seq<byte>>): Option<(nat, seq<byte>)> {
    if frames == [] || !VerifyCrc(frames[0]) || DecodeHead(frames[0]).None? then None
    else
      var (length, address) := DecodeHead(frames[0]).value;
      match TakeData(frames[1..], 1, [])
      case None => None
      case Some(data) => if |data| == length then Some((address, data)) else None
  }

  lemma HeadDecodes(length: nat, address: nat)
    requires length < Word && address < Word
    ensures VerifyCrc(HeadFrame(length, address)) && DecodeHead(HeadFrame(length, address)) == Some((length, address))
  {
    var l, a := Be32(length), Be32(address);
    HeadVerifies(l, a);
    HeadFields(l, a);
    Be32RoundTrip(length);
    Be32RoundTrip(address);
  }

  lemma HeadVerifies(l: seq<byte>, a: seq<byte>)
    ensures VerifyCrc(AppendCrc(HeadMagic + l + a))
  {
    AppendVerifies(HeadMagic + l + a);
  }

  lemma HeadFields(l: seq<byte>, a: seq<byte>)
    requires |l| == 4 && |a| == 4
    ensures DecodeHead(AppendCrc(HeadMagic + l + a)) == Some((FromBe32(l), FromBe32(a)))
  {
    var body := HeadMagic + l + a;
    var f := AppendCrc(body);
    assert f[..12] == body;
    assert f[..4] == body[..4] == HeadMagic && f[4..8] == body[4..8] == l && f[8..12] == body[8..12] == a;
  }

  lemma DataDecodes(n: nat, payload: seq<byte>)
    requires payload != []
    ensures var f := DataFrame(n, payload);
            VerifyCrc(f) && DecodeTail(f).None? && DecodeData(f) == Some((Octet(n), payload))
  {
    var f := DataFrame(n, payload);
    AppendVerifies(Prologue(DataMagic, n) + payload);
    assert f[3..|f| - 2] == payload;
  }

  lemma TailDecodes(n: nat)
    ensures VerifyCrc(TailFrame(n)) && DecodeTail(TailFrame(n)) == Some(Octet(n))
  {
    AppendVerifies(Prologue(TailMagic, n));
  }

  /** Taking `frames` comes to `want`. */
  ghost predicate Takes(frames: seq<seq<byte>>, n: nat, got: seq<byte>, want: seq<byte>) {
    forall y {:trigger Is(y, frames)} | Is(y, frames) :: TakeData(y, n, got) == Some(want)
  }

  /** `f` is the DATA frame of `payload`. */
  ghost predicate FrameIs(f: seq<byte>, n: nat, payload: seq<byte>) {
    forall y {:trigger Is(y, payload)} | Is(y, payload) :: f == DataFrame(n, y)
  }

  /** `frames` are the DATA frames of `data`, numbered from `n`, and the TAIL. */
  ghost predicate FramesAre(frames: seq<seq<byte>>, data: seq<byte>, n: nat) {
    forall y {:trigger Is(y, data)} | Is(y, data) :: frames == DataFrames(y, n) + [TailFrame(n + NumChunks(|y|))]
  }

  lemma FramesNone(n: nat)
    ensures FramesAre([TailFrame(n)], [], n)
  {
    assert [] + [TailFrame(n)] == [TailFrame(n)];
  }

  lemma FramesNext(rest': seq<seq<byte>>, data: seq<byte>, n: nat) returns (f: seq<byte>)
    requires data != [] && FramesAre(rest', data[Min(MaxDataLen, |data|)..], n + 1)
    ensures FrameIs(f, n, data[..Min(MaxDataLen, |data|)]) && FramesAre([f] + rest', data, n)
  {
    var rest, count := data[Min(MaxDataLen, |data|)..], n + NumChunks(|data|);
    NumChunksStep(|data|);
    assert Is(rest, rest) && rest' == DataFrames(rest, n + 1) + [TailFrame(count)];
    f := FramesStep(data, n, [TailFrame(count)]);
  }

  lemma FramesStep(data: seq<byte>, n: nat, tail: seq<seq<byte>>) returns (f: seq<byte>)
    requires data != []
    ensures var k := Min(MaxDataLen, |data|);
            FrameIs(f, n, data[..k]) && DataFrames(data, n) + tail == [f] + (DataFrames(data[k..], n + 1) + tail)
  {
    f := DataFrame(n, data[..Min(MaxDataLen, |data|)]);
  }

  lemma TakesOne(f: seq<byte>, rest: seq<seq<byte>>, n: nat, payload: seq<byte>, got: seq<byte>, want: seq<byte>)
    requires payload != [] && FrameIs(f, n, payload) && Takes(rest, n + 1, got + payload, want)
    ensures Takes([f] + rest, n, got, want)
  {
    assert Is(payload, payload) && Is(rest, rest);
    DataDecodes(n, payload);
    assert ([f] + rest)[1..] == rest;
  }

  lemma TakesTail(n: nat, got: seq<byte>)
    ensures Takes([TailFrame(n)], n, got, got)
  {
    TailDecodes(n);
  }

  /** The DATA and TAIL frames of `data`, numbered from `n`, add `data` to what was got before. */
  lemma {:induction false} DataRebuilds(data: seq<byte>, n: nat, got: seq<byte>) returns (frames: seq<seq<byte>>)
    ensures FramesAre(frames, data, n) && Takes(frames, n, got, got + data)
    decreases |data|
  {
    if data == [] {
      FramesNone(n);
      TakesTail(n, got);
      frames := [TailFrame(n)];
      assert got + [] == got;
    } else {
      var p, rest := data[..Min(MaxDataLen, |data|)], data[Min(MaxDataLen, |data|)..];
      var rest' := DataRebuilds(rest, n + 1, got + p);
      var f := FramesNext(rest', data, n);
      CutAndJoined(got, data, p, rest);
      TakesOne(f, rest', n, p, got, got + data);
      frames := [f] + rest';
    }
  }

  lemma CutAndJoined(got: seq<byte>, data: seq<byte>, p: seq<byte>, rest: seq<byte>)
    requires p + rest == data
    ensures got + p + rest == got + data
  {
  }

  lemma RebuildIs(head: seq<byte>, rest: seq<seq<byte>>, address: nat, data: seq<byte>)
    requires VerifyCrc(head) && DecodeHead(head) == Some((|data|, address)) && Takes(rest, 1, [], data)
    ensures Rebuild([head] + rest) == Some((address, data))
  {
    assert ([head] + rest)[1..] == rest && Is(rest, rest);
  }

  lemma RebuildsFrom(data: seq<byte>, address: nat, rest: seq<seq<byte>>)
    requires |data| < Word && address < Word && Takes(rest, 1, [], data)
    ensures Rebuild([HeadFrame(|data|, address)] + rest) == Some((address, data))
  {
    HeadDecodes(|data|, address);
    RebuildIs(HeadFrame(|data|, address), rest, address, data);
  }

  lemma BodyTaken(data: seq<byte>)
    ensures Takes(Body(data), 1, [], data)
  {
    var frames := DataRebuilds(data, 1, []);
    assert Is(data, data) && [] + data == data;
  }

  /** A receiver that uses the frame decoders, checks every CRC and every number, rebuilds data and address. */
  lemma RoundTrip(data: seq<byte>, address: nat)
    requires |data| < Word && address < Word
    ensures Rebuild(Frames(data, address)) == Some((address, data))
  {
    BodyTaken(data);
    RebuildsFrom(data, address, Body(data));
  }

  /** The TAIL number is one past the last DATA number, modulo 256. */
  lemma TailNumber(data: seq<byte>, n: nat)
    ensures |DataFrames(data, n)| == NumChunks(|data|)
    ensures DecodeTail(TailFrame(n + NumChunks(|data|))) == Some(Octet(n + |DataFrames(data, n)|))
  {
    FrameCount(data, n);
    TailDecodes(n + NumChunks(|data|));
  }

  lemma {:induction false} FrameCount(data: seq<byte>, n: nat)
    ensures |DataFrames(data, n)| == NumChunks(|data|)
    decreases |data|
  {
    if data != [] {
      NumChunksStep(|data|);
      FrameCount(data[Min(MaxDataLen, |data|)..], n + 1);
    }
  }

  // ---------------------------------------------------------------- the bytes that mark a frame

  /** Number `n` in byte 1, and its inverse in byte 2. */
  ghost predicate Numbered(f: seq<byte>, mark: byte, n: nat) {
    |f| >= 5 && f[0] == mark && f[1] as nat == n % 256 && f[1] ^ f[2] == 0xFF
  }

  lemma InverseBits(b: byte)
    ensures b ^ Not(b) == 0xFF
  {
  }

  lemma PrologueBytes(f: seq<byte>, mark: byte, n: nat)
    requires |f| >= 5 && f[..3] == Prologue(mark, n)
    ensures Numbered(f, mark, n)
  {
    var p := f[..3];
    assert p[0] == f[0] && p[1] == f[1] && p[2] == f[2];
    InverseBits(Octet(n));
    OctetValue(n);
  }

  lemma FrameBytes(n: nat, p: seq<byte>)
    ensures var f := DataFrame(n, p); Numbered(f, 0xDA, n) && f[3..|f| - 2] == p
  {
    var f := DataFrame(n, p);
    assert f[..3] == Prologue(DataMagic, n);
    PrologueBytes(f, 0xDA, n);
    assert f[3..|f| - 2] == p;
  }

  /** Frame `f` is the DATA frame numbered `n` of the bytes of `data` from `at` on. */
  ghost predicate Carries(f: seq<byte>, n: nat, data: seq<byte>, at: nat) {
    Numbered(f, 0xDA, n) && at < |data| && f[3..|f| - 2] == data[at..Min(at + 1024, |data|)]
  }

  lemma CarriesLater(f: seq<byte>, n: nat, data: seq<byte>, cut: nat, at: nat)
    requires cut <= |data| && Carries(f, n, data[cut..], at)
    ensures Carries(f, n, data, cut + at)
  {
    assert data[cut..][at..Min(at + 1024, |data| - cut)] == data[cut + at..Min(cut + at + 1024, |data|)];
  }

  /** `fs` are the DATA frames of `data`. */
  ghost predicate DataFramesAre(fs: seq<seq<byte>>, data: seq<byte>, n: nat) {
    forall y {:trigger Is(y, data)} | Is(y, data) :: fs == DataFrames(y, n)
  }

  lemma FirstFrame(fs: seq<seq<byte>>, data: seq<byte>, n: nat)
    requires DataFramesAre(fs, data, n) && fs != []
    ensures Carries(fs[0], n, data, 0)
  {
    assert Is(data, data);
    FrameBytes(n, data[..Min(MaxDataLen, |data|)]);
  }

  lemma LaterFrames(fs: seq<seq<byte>>, data: seq<byte>, n: nat)
    requires DataFramesAre(fs, data, n) && |fs| > 1
    ensures |data| > MaxDataLen && DataFramesAre(fs[1..], data[MaxDataLen..], n + 1)
  {
    assert Is(data, data);
    var rest := data[Min(MaxDataLen, |data|)..];
    assert fs[1..] == DataFrames(rest, n + 1) && rest != [];
  }

  lemma {:induction false} DataFrameAt(fs: seq<seq<byte>>, data: seq<byte>, n: nat, k: nat)
    requires DataFramesAre(fs, data, n) && k < |fs|
    ensures Carries(fs[k], n + k, data, k * 1024)
    decreases k
  {
    if k == 0 {
      FirstFrame(fs, data, n);
    } else {
      LaterFrames(fs, data, n);
      DataFrameAt(fs[1..], data[MaxDataLen..], n + 1, k - 1);
      CarriesLater(fs[k], n + k, data, 1024, (k - 1) * 1024);
    }
  }

  lemma MiddleFrames(data: seq<byte>) returns (fs: seq<seq<byte>>)
    ensures fs == DataFrames(data, 1) && |fs| == NumChunks(|data|)
    ensures forall k: nat | k < |fs| :: Carries(fs[k], k + 1, data, k * 1024)
  {
    fs := DataFrames(data, 1);
    FrameCount(data, 1);
    forall k: nat | k < |fs|
      ensures Carries(fs[k], k + 1, data, k * 1024)
    {
      DataFrameAt(fs, data, 1, k);
    }
  }

  lemma Enclosed(head: seq<byte>, mid: seq<seq<byte>>, tail: seq<byte>)
    ensures var fs := [head] + (mid + [tail]);
            |fs| == |mid| + 2 && fs[0] == head && fs[|mid| + 1] == tail && forall k: nat | k < |mid| :: fs[k + 1] == mid[k]
  {
    var rest := mid + [tail];
    var fs := [head] + rest;
    assert fs[|mid| + 1] == rest[|mid|];
    forall k: nat | k < |mid|
      ensures fs[k + 1] == mid[k]
    {
      assert fs[k + 1] == rest[k];
    }
  }

  /** The HEAD begins with its magic. */
  ghost predicate IsHead(f: seq<byte>) {
    |f| == 14 && f[0] == 0xFE && f[1] == 0x00 && f[2] == 0xFF && f[3] == 0x01
  }

  /** The HEAD with its magic; then, numbered from 1, each 1024 bytes of the data (fewer in the last frame) behind their
      own mark, number and inverted number; then the TAIL with the next number. */
  ghost predicate Shape(fs: seq<seq<byte>>, data: seq<byte>, n: nat) {
    && |fs| == n + 2 && IsHead(fs[0])
    && (forall k: nat | k < n :: Carries(fs[k + 1], k + 1, data, k * 1024))
    && |fs[n + 1]| == 5 && Numbered(fs[n + 1], 0xED, n + 1)
  }

  lemma ShapeOf(head: seq<byte>, mid: seq<seq<byte>>, tail: seq<byte>, data: seq<byte>)
    requires IsHead(head) && (forall k: nat | k < |mid| :: Carries(mid[k], k + 1, data, k * 1024))
    requires |tail| == 5 && Numbered(tail, 0xED, |mid| + 1)
    ensures Shape([head] + (mid + [tail]), data, |mid|)
  {
    Enclosed(head, mid, tail);
  }

  /** On the wire every upload has that shape. */
  lemma WireShape(data: seq<byte>, address: nat)
    ensures Shape(Frames(data, address), data, (|data| + 1023) / 1024)
  {
    var head := FirstBytes(|data|, address);
    var mid := MiddleFrames(data);
    var tail := LastBytes(1 + NumChunks(|data|));
    ShapeOf(head, mid, tail, data);
    Joined(head, mid, tail, data, address);
  }

  lemma Joined(head: seq<byte>, mid: seq<seq<byte>>, tail: seq<byte>, data: seq<byte>, address: nat)
    requires head == HeadFrame(|data|, address) && mid == DataFrames(data, 1) && tail == TailFrame(1 + NumChunks(|data|))
    ensures [head] + (mid + [tail]) == Frames(data, address)
  {
  }

  lemma FirstBytes(length: nat, address: nat) returns (f: seq<byte>)
    ensures f == HeadFrame(length, address) && IsHead(f)
  {
    f := HeadFrame(length, address);
  }

  lemma LastBytes(n: nat) returns (f: seq<byte>)
    ensures f == TailFrame(n) && |f| == 5 && Numbered(f, 0xED, n)
  {
    f := TailFrame(n);
    assert f[..3] == Prologue(TailMagic, n);
    PrologueBytes(f, 0xED, n);
  }
}
