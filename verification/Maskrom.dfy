/**
  Framing of a MaskROM upload (src/defib/rockusb/maskrom.py:31-86): padding, optional RC4, CRC-16, 4096-byte chunks
  and the one-byte terminator.
 */
module Maskrom {
  import opened Bytes
  import Crc16
  import Rc4

  const ChunkSize: nat := 4096
  const CrcInit: bv16 := 0xFFFF
  const Key: seq<byte> := [124, 78, 3, 4, 85, 5, 9, 7, 45, 44, 123, 56, 23, 13, 23, 17]

  function Padded(blob: seq<byte>): seq<byte> {
    if |blob| % ChunkSize == ChunkSize - 1 then blob + [0x00] else blob
  }

  predicate NeedsTerminator(blob: seq<byte>) {
    |blob| % ChunkSize == ChunkSize - 2
  }

  function Body(blob: seq<byte>, useRc4: bool): seq<byte> {
    if useRc4 then Rc4.Cipher(Padded(blob), Key) else Padded(blob)
  }

  /** What is cut into chunks. */
  function Payload(blob: seq<byte>, useRc4: bool): seq<byte> {
    Body(blob, useRc4) + Crc16.BigEndian(Crc16.RkCrc(Body(blob, useRc4), CrcInit))
  }

  /** `[p[i:i + n] for i in range(0, len(p), n)]` */
  function Split(p: seq<byte>, n: nat): seq<seq<byte>>
    requires 0 < n
    decreases |p|
  {
    if p == [] then [] else [p[..Min(n, |p|)]] + Split(p[Min(n, |p|)..], n)
  }

  /** `build_maskrom_chunks` */
  function Chunks(blob: seq<byte>, useRc4: bool): seq<seq<byte>> {
    Split(Payload(blob, useRc4), ChunkSize) + if NeedsTerminator(blob) then [[0x00]] else []
  }

  // ---------------------------------------------------------------- the Python code

  lemma SplitSnoc(done: seq<seq<byte>>, rest: seq<byte>, n: nat)
    requires 0 < n && rest != []
    ensures done + Split(rest, n) == done + [rest[..Min(n, |rest|)]] + Split(rest[Min(n, |rest|)..], n)
  {
  }

  method SplitPython(p: seq<byte>, n: nat) returns (chunks: seq<seq<byte>>)
    requires 0 < n
    ensures chunks == Split(p, n)
  {
    chunks := [];
    var i := 0;
    assert p[0..] == p && [] + Split(p, n) == Split(p, n);
    while i < |p|
      invariant 0 <= i <= |p| && chunks + Split(p[i..], n) == Split(p, n)
      decreases |p| - i
    {
      var end := Min(i + n, |p|);
      SplitSnoc(chunks, p[i..], n);
      assert p[i..][..Min(n, |p[i..]|)] == p[i..end] && p[i..][Min(n, |p[i..]|)..] == p[end..];
      chunks := chunks + [p[i..end]];
      i := end;
    }
    assert p[i..] == [];
  }

  method BuildMaskromChunks(blob: seq<byte>, useRc4: bool) returns (chunks: seq<seq<byte>>)
    ensures chunks == Chunks(blob, useRc4)
  {
    var payload := blob;
    var remainder := |payload| % ChunkSize;
    var needsTerminator := remainder == ChunkSize - 2;
    if remainder == ChunkSize - 1 {
      payload := payload + [0x00];
    }
    if useRc4 {
      payload := Rc4.Rc4Python(payload, Key);
    }
    var crc := Crc16.RkCrc16(payload, CrcInit);
    payload := payload + Crc16.BigEndian(crc);
    chunks := SplitPython(payload, ChunkSize);
    if needsTerminator {
      chunks := chunks + [[0x00]];
    }
  }

  // ---------------------------------------------------------------- chunk boundaries

  lemma PayloadLength(blob: seq<byte>, useRc4: bool)
    ensures |Payload(blob, useRc4)| == |blob| + 2 + if |blob| % ChunkSize == ChunkSize - 1 then 1 else 0
  {
  }

  lemma Remainders(n: nat)
    ensures var len := n + 2 + if n % ChunkSize == ChunkSize - 1 then 1 else 0;
            && (len - 2) / ChunkSize == (len - 1) / ChunkSize
            && len % ChunkSize != 1
            && (len % ChunkSize == 0 <==> n % ChunkSize == ChunkSize - 2)
  {
  }

  /** Both CRC bytes are in one chunk, for every blob length. */
  lemma CrcInOneChunk(blob: seq<byte>, useRc4: bool)
    ensures var len := |Payload(blob, useRc4)|;
            2 <= len && (len - 2) / ChunkSize == (len - 1) / ChunkSize
  {
    PayloadLength(blob, useRc4);
    Remainders(|blob|);
  }

  /** All chunks but the last are full; the last holds the remainder, or is full when there is none. */
  lemma {:induction false} SplitShape(p: seq<byte>, n: nat)
    requires 0 < n && p != []
    ensures Split(p, n) != []
    ensures forall i | 0 <= i < |Split(p, n)| - 1 :: |Split(p, n)[i]| == n
    ensures |Split(p, n)[|Split(p, n)| - 1]| == if |p| % n == 0 then n else |p| % n
    decreases |p|
  {
    if |p| <= n {
      assert p[..|p|] == p && p[|p|..] == [];
      assert Split(p, n) == [p];
      if |p| < n {
        DivModUnique(|p|, n, 0, |p|);
      } else {
        DivModUnique(|p|, n, 1, 0);
      }
    } else {
      SplitShape(p[n..], n);
      OneLess(|p|, n);
      assert Split(p, n) == [p[..n]] + Split(p[n..], n);
    }
  }

  lemma OneLess(m: nat, n: nat)
    requires 0 < n < m
    ensures (m - n) % n == m % n
  {
    DivModUnique(m - n, n, m / n - 1, m % n);
  }

  lemma LastOf<T>(xs: seq<T>, ys: seq<T>)
    requires ys != []
    ensures (xs + ys)[|xs + ys| - 1] == ys[|ys| - 1]
  {
  }

  /** The chunks of a payload of `len` bytes, and the terminator. */
  lemma ChunkEnds(p: seq<byte>, blobLen: nat, terminator: seq<seq<byte>>)
    requires |p| == blobLen + 2 + if blobLen % ChunkSize == ChunkSize - 1 then 1 else 0
    requires terminator == if blobLen % ChunkSize == ChunkSize - 2 then [[0x00]] else []
    ensures var cs := Split(p, ChunkSize) + terminator;
            && cs != [] && |cs[|cs| - 1]| < ChunkSize
            && (|cs[|cs| - 1]| == 1 <==> terminator != [])
            && (terminator != [] ==> cs[|cs| - 1] == [0x00])
            && forall i | 0 <= i < |cs| - 1 :: |cs[i]| == ChunkSize
  {
    Remainders(blobLen);
    SplitShape(p, ChunkSize);
    var split := Split(p, ChunkSize);
    if terminator != [] {
      LastOf(split, terminator);
    } else {
      assert split + terminator == split;
    }
  }

  /** The last chunk is always short, so the boot ROM sees the end; it is a single byte exactly when it is the terminator. */
  lemma LastChunk(blob: seq<byte>, useRc4: bool)
    ensures var cs := Chunks(blob, useRc4);
            && cs != [] && |cs[|cs| - 1]| < 4096
            && (|cs[|cs| - 1]| == 1 <==> |blob| % 4096 == 4094)
            && (|blob| % 4096 == 4094 ==> cs[|cs| - 1] == [0x00])
            && forall i | 0 <= i < |cs| - 1 :: |cs[i]| == 4096
  {
    PayloadLength(blob, useRc4);
    ChunkEnds(Payload(blob, useRc4), |blob|, if NeedsTerminator(blob) then [[0x00]] else []);
  }

  // ---------------------------------------------------------------- contents

  lemma {:induction false} JoinSplit(p: seq<byte>, n: nat)
    requires 0 < n
    ensures Join(Split(p, n)) == p
    decreases |p|
  {
    if p != [] {
      var k := Min(n, |p|);
      JoinSplit(p[k..], n);
      assert ([p[..k]] + Split(p[k..], n))[1..] == Split(p[k..], n);
      assert p[..k] + p[k..] == p;
    }
  }

  /** What the boot ROM puts together: a final one-byte chunk only says that the transfer is over. */
  function Received(chunks: seq<seq<byte>>): seq<byte> {
    if chunks != [] && |chunks[|chunks| - 1]| == 1 then Join(chunks[..|chunks| - 1]) else Join(chunks)
  }

  lemma ReceivedIsPayload(blob: seq<byte>, useRc4: bool)
    ensures Received(Chunks(blob, useRc4)) == Payload(blob, useRc4)
  {
    var cs, p := Chunks(blob, useRc4), Payload(blob, useRc4);
    LastChunk(blob, useRc4);
    JoinSplit(p, ChunkSize);
    if NeedsTerminator(blob) {
      assert cs[..|cs| - 1] == Split(p, ChunkSize);
    } else {
      assert cs == Split(p, ChunkSize);
    }
  }

  /** The check the boot ROM can make: the CRC over everything it received, CRC included, is zero. */
  lemma ChecksOut(blob: seq<byte>, useRc4: bool)
    ensures Crc16.RkCrc(Received(Chunks(blob, useRc4)), 0xFFFF) == 0
  {
    ReceivedIsPayload(blob, useRc4);
    Crc16.Residue(Body(blob, useRc4), CrcInit);
  }

  /** Joining the chunks, dropping the CRC and undoing RC4. */
  function Recover(chunks: seq<seq<byte>>, useRc4: bool): seq<byte>
    requires |Received(chunks)| >= 2
  {
    var r := Received(chunks);
    var body := r[..|r| - 2];
    if useRc4 then Rc4.Cipher(body, Key) else body
  }

  /** The blob comes back, for every length, up to the one zero byte of padding. */
  lemma RoundTrip(blob: seq<byte>, useRc4: bool)
    ensures |Received(Chunks(blob, useRc4))| >= 2
    ensures Recover(Chunks(blob, useRc4), useRc4)
            == blob + if |blob| % 4096 == 4095 then [0x00] else []
  {
    ReceivedIsPayload(blob, useRc4);
    var body := Body(blob, useRc4);
    WithoutCrc(body, Crc16.BigEndian(Crc16.RkCrc(body, CrcInit)));
    PayloadLength(blob, useRc4);
    if useRc4 {
      Rc4.SelfInverse(Padded(blob), Key);
    }
    assert blob + [] == blob;
  }

  lemma WithoutCrc(body: seq<byte>, crc: seq<byte>)
    requires |crc| == 2
    ensures (body + crc)[..|body + crc| - 2] == body
  {
  }
}
