/**
  What the two ends of a flash stream exchange, and how both cut an image into sectors
  (agent/main.c:835-888, src/defib/agent/client.py:652-699).
 */
module StreamTypes {
  import opened Bytes
  import opened Flash

  const ACK_OK: nat := 0
  const ACK_CRC_ERROR: nat := 1
  const ACK_FLASH_ERROR: nat := 2

  /** Host to agent. `crc` is carried by the request and never looked at by the agent. */
  datatype ToAgent =
    | Stream(addr: nat, size: nat, crc: bv32, bitmap: seq<byte>)
    | Chunk(seqNo: nat, data: seq<byte>)

  /** Agent to host. */
  datatype ToHost =
    | Ready
    | Ack(status: nat)
    | Progress(done: nat, total: nat)

  function NumSectors(g: Geometry, size: nat): nat
    requires 0 < g.sector
  {
    (size + g.sector - 1) / g.sector
  }

  function SectorBytes(g: Geometry, size: nat, s: nat): int {
    Min(g.sector, size - s * g.sector)
  }

  function SectorData(g: Geometry, image: seq<byte>, s: nat): seq<byte> {
    if s * g.sector <= |image|
    then image[s * g.sector..Min((s + 1) * g.sector, |image|)]
    else []
  }

  /** Bit `s` of the sector bitmap; bits beyond the end read as clear. */
  predicate BitSet(bitmap: seq<byte>, s: nat) {
    s / 8 < |bitmap| && bitmap[s / 8] & ((1 as bv8) << (s % 8)) != 0
  }

  /** A set bit means the sector holds something other than 0xFF. */
  ghost predicate IsBitmap(g: Geometry, image: seq<byte>, bitmap: seq<byte>)
    requires 0 < g.sector
  {
    && |bitmap| == (NumSectors(g, |image|) + 7) / 8
    && forall s | 0 <= s < NumSectors(g, |image|) ::
         BitSet(bitmap, s) <==> SectorData(g, image, s) != Fill(|SectorData(g, image, s)|, 0xFF)
  }

  lemma SectorFacts(g: Geometry, size: nat, s: nat)
    requires 0 < g.sector && s < NumSectors(g, size)
    ensures s * g.sector < size
    ensures (s + 1) * g.sector == s * g.sector + g.sector
    ensures 0 < SectorBytes(g, size, s) <= g.sector
    ensures s + 1 < NumSectors(g, size) ==> SectorBytes(g, size, s) == g.sector && (s + 1) * g.sector < size
    ensures s + 1 == NumSectors(g, size) ==> size <= (s + 1) * g.sector
  {
    var n, m := NumSectors(g, size), g.sector;
    var r := (size + m - 1) % m;
    assert size + m - 1 == n * m + r;
    assert n * m - m < size <= n * m;
    assert (s + 1) * m == s * m + m;
    MulMono(s + 1, n, m);
    if s + 1 < n {
      MulMono(s + 2, n, m);
      assert (s + 2) * m == s * m + m + m;
    }
  }

  lemma SectorDataLength(g: Geometry, image: seq<byte>, s: nat)
    requires 0 < g.sector && s < NumSectors(g, |image|)
    ensures |SectorData(g, image, s)| == SectorBytes(g, |image|, s)
  {
    SectorFacts(g, |image|, s);
  }

  lemma SliceOfSlice(s: seq<byte>, b: nat, e: nat, i: nat, j: nat)
    requires b <= e <= |s| && i <= j <= e - b
    ensures s[b..e][i..j] == s[b + i..b + j]
  {
    var l, r := s[b..e][i..j], s[b + i..b + j];
    assert |l| == |r| && forall k | 0 <= k < |l| :: l[k] == r[k];
  }

  /** A piece of sector `s`, addressed from the start of the image. */
  lemma SectorSlice(g: Geometry, image: seq<byte>, s: nat, i: nat, j: nat)
    requires 0 < g.sector && s < NumSectors(g, |image|)
    requires i <= j <= SectorBytes(g, |image|, s)
    ensures |SectorData(g, image, s)| == SectorBytes(g, |image|, s) && s * g.sector + j <= |image|
    ensures image[s * g.sector + i..s * g.sector + j] == SectorData(g, image, s)[i..j]
  {
    SectorFacts(g, |image|, s);
    var b := s * g.sector;
    SliceOfSlice(image, b, Min(b + g.sector, |image|), i, j);
  }

  /** Bit `k` of a byte, the least significant first. */
  function Mask(k: nat): byte
    requires k < 8
  {
    [0x01, 0x02, 0x04, 0x08, 0x10, 0x20, 0x40, 0x80][k]
  }

  lemma MaskIs(k: nat)
    requires k < 8
    ensures (1 as bv8) << k == Mask(k)
  {
    var one: bv8 := 1;
    assert one << 0 == 1 && one << 1 == 2 && one << 2 == 4 && one << 3 == 8;
    assert one << 4 == 16 && one << 5 == 32 && one << 6 == 64 && one << 7 == 128;
  }

  /** On the image itself: bit `s % 8` of byte `s / 8` is set exactly if some byte of sector `s` is not 0xFF. */
  lemma BitmapMeans(g: Geometry, image: seq<byte>, bitmap: seq<byte>, s: nat)
    requires 0 < g.sector && IsBitmap(g, image, bitmap) && s < NumSectors(g, |image|)
    ensures s / 8 < |bitmap|
    ensures bitmap[s / 8] & Mask(s % 8) != 0
            <==> exists i :: s * g.sector <= i < |image| && i < s * g.sector + g.sector && image[i] != 0xFF
  {
    MaskIs(s % 8);
    SectorFacts(g, |image|, s);
    SectorBytesFf(g, image, s, s * g.sector);
  }

  lemma SectorBytesFf(g: Geometry, image: seq<byte>, s: nat, at: nat)
    requires 0 < g.sector && at == s * g.sector < |image| && (s + 1) * g.sector == at + g.sector
    ensures SectorData(g, image, s) != Fill(|SectorData(g, image, s)|, 0xFF)
            <==> exists i :: at <= i < |image| && i < at + g.sector && image[i] != 0xFF
  {
    var d := SectorData(g, image, s);
    assert forall k | 0 <= k < |d| :: d[k] == image[at + k];
    if i :| at <= i < |image| && i < at + g.sector && image[i] != 0xFF {
      assert d[i - at] != 0xFF;
    }
    if d != Fill(|d|, 0xFF) {
      var k :| 0 <= k < |d| && d[k] != 0xFF;
      assert image[at + k] != 0xFF;
    }
  }

  // ---------------------------------------------------------------- bitmap construction

  lemma SetBitLemma(b: byte, k: nat, j: nat)
    requires k < 8 && j < 8
    ensures (b | ((1 as bv8) << k)) & ((1 as bv8) << j) != 0
            <==> j == k || b & ((1 as bv8) << j) != 0
  {
    var one: bv8 := 1;
    assert one << 0 == 1 && one << 1 == 2 && one << 2 == 4 && one << 3 == 8;
    assert one << 4 == 16 && one << 5 == 32 && one << 6 == 64 && one << 7 == 128;
  }

  /** The host's bitmap loop (client.py:665-670). */
  method BuildBitmap(g: Geometry, image: seq<byte>) returns (bitmap: seq<byte>)
    requires 0 < g.sector
    ensures IsBitmap(g, image, bitmap)
  {
    var n := NumSectors(g, |image|);
    bitmap := Fill((n + 7) / 8, 0x00);
    var s := 0;
    while s < n
      invariant 0 <= s <= n && |bitmap| == (n + 7) / 8
      invariant forall t | 0 <= t < n ::
        BitSet(bitmap, t) <==> t < s && SectorData(g, image, t) != Fill(|SectorData(g, image, t)|, 0xFF)
    {
      var sector := SectorData(g, image, s);
      if sector != Fill(|sector|, 0xFF) {
        var before := bitmap;
        bitmap := bitmap[s / 8 := bitmap[s / 8] | ((1 as bv8) << (s % 8))];
        forall t | 0 <= t < n
          ensures BitSet(bitmap, t) <==> t == s || BitSet(before, t)
        {
          if t / 8 == s / 8 {
            SetBitLemma(before[s / 8], s % 8, t % 8);
          }
        }
      }
      s := s + 1;
    }
  }
}
