/**
  Several copies of one logical erase block in an image: which one `extract_ubifs` keeps (src/defib/ubi.py:106),
  which one is the newest by the sequence number of its volume header (src/defib/ubi.py:25-29), and when the two are
  the same.
 */
module UbiCopies {
  import opened Bytes
  import opened Octets
  import opened Ubi

  /** What one erase block holds of the volume, with the `sqnum` field that the code unpacks and never looks at. */
  datatype Copy = Copy(lnum: nat, data: seq<byte>, sqnum: nat)

  /** `sqnum` of the volume header at `vid`; no block without a whole header there is a copy. */
  function Sqnum(image: seq<byte>, vid: nat): nat {
    if vid + HdrSize > |image| then 0 else WordAt(image, vid + 40) * 0x1_0000_0000 + WordAt(image, vid + 44)
  }

  /** The eight bytes of it, the most significant first. */
  lemma SqnumBytes(image: seq<byte>, vid: nat)
    requires vid + HdrSize <= |image|
    ensures Sqnum(image, vid)
            == BeWord(image[vid + 40], image[vid + 41], image[vid + 42], image[vid + 43]) * 0x1_0000_0000
               + BeWord(image[vid + 44], image[vid + 45], image[vid + 46], image[vid + 47])
  {
  }

  function CopyAt(image: seq<byte>, off: nat, pebSize: nat, volId: nat): Option<Copy>
    requires HdrSize <= pebSize && off + pebSize <= |image|
  {
    match Leb(image, off, pebSize, volId)
    case None => None
    case Some(l) => Some(Copy(l.0, l.1, Sqnum(image, off + WordAt(image, off + 16))))
  }

  function CopyOf(image: seq<byte>, pebSize: nat, volId: nat, k: nat): Option<Copy>
    requires HdrSize <= pebSize && (k + 1) * pebSize <= |image|
  {
    CopyAt(image, k * pebSize, pebSize, volId)
  }

  /** The first `n` erase blocks. */
  function Copies(image: seq<byte>, pebSize: nat, volId: nat, n: nat): (r: seq<Option<Copy>>)
    requires HdrSize <= pebSize && n * pebSize <= |image|
    ensures |r| == n
  {
    if n == 0 then [] else Copies(image, pebSize, volId, n - 1) + [CopyOf(image, pebSize, volId, n - 1)]
  }

  /** The dictionary the loop builds. */
  function Kept(cs: seq<Option<Copy>>): map<nat, seq<byte>> {
    if cs == [] then map[]
    else
      var m := Kept(cs[..|cs| - 1]);
      match cs[|cs| - 1]
      case None => m
      case Some(c) => m[c.lnum := c.data]
  }

  lemma {:induction false} CollectIsKept(image: seq<byte>, pebSize: nat, volId: nat, n: nat)
    requires HdrSize <= pebSize && n * pebSize <= |image|
    ensures Collect(image, pebSize, volId, n).m == Kept(Copies(image, pebSize, volId, n))
  {
    if n > 0 {
      MulMono(n - 1, n, pebSize);
      CollectIsKept(image, pebSize, volId, n - 1);
      NextBlock(image, pebSize, volId, n - 1);
      KeptSnoc(Copies(image, pebSize, volId, n - 1), CopyOf(image, pebSize, volId, n - 1));
    }
  }

  lemma KeptSnoc(cs: seq<Option<Copy>>, c: Option<Copy>)
    ensures Kept(cs + [c]) == match c case None => Kept(cs) case Some(x) => Kept(cs)[x.lnum := x.data]
  {
    assert (cs + [c])[..|cs|] == cs;
  }

  // ---------------------------------------------------------------- the last copy wins

  /** Block `i` is a copy of logical block `l`. */
  predicate Has(cs: seq<Option<Copy>>, i: nat, l: nat) {
    i < |cs| && cs[i].Some? && cs[i].value.lnum == l
  }

  ghost predicate IsLast(cs: seq<Option<Copy>>, j: nat, l: nat) {
    Has(cs, j, l) && forall k: nat | Has(cs, k, l) :: k <= j
  }

  lemma {:induction false} LastExists(cs: seq<Option<Copy>>, i: nat, l: nat) returns (j: nat)
    requires Has(cs, i, l)
    ensures IsLast(cs, j, l)
    decreases |cs| - i
  {
    if k: nat :| Has(cs, k, l) && i < k {
      j := LastExists(cs, k, l);
    } else {
      j := i;
    }
  }

  /** Whatever the sequence numbers: what is kept is exactly the last copy of every logical block. */
  lemma {:induction false} LaterCopyWins(cs: seq<Option<Copy>>, l: nat)
    ensures l in Kept(cs) <==> exists j: nat :: IsLast(cs, j, l)
    ensures forall j: nat | IsLast(cs, j, l) :: l in Kept(cs) && Kept(cs)[l] == cs[j].value.data
  {
    if cs != [] {
      var n := |cs| - 1;
      var init := cs[..n];
      LaterCopyWins(init, l);
      if Has(cs, n, l) {
        assert IsLast(cs, n, l);
      } else {
        forall j: nat
          ensures IsLast(cs, j, l) <==> IsLast(init, j, l)
        {
          SameLast(cs, init, j, l);
        }
      }
    }
  }

  lemma SameLast(cs: seq<Option<Copy>>, init: seq<Option<Copy>>, j: nat, l: nat)
    requires cs != [] && init == cs[..|cs| - 1] && !Has(cs, |cs| - 1, l)
    ensures IsLast(cs, j, l) <==> IsLast(init, j, l)
  {
    assert forall k: nat :: Has(cs, k, l) <==> Has(init, k, l);
  }

  // ---------------------------------------------------------------- the newest copy

  /** No copy of `l` has a higher sequence number than block `k`. */
  ghost predicate Newest(cs: seq<Option<Copy>>, k: nat, l: nat) {
    Has(cs, k, l) && forall j: nat | Has(cs, j, l) :: cs[j].value.sqnum <= cs[k].value.sqnum
  }

  /** The result UBI itself would give: every logical block as its newest copy has it. */
  ghost predicate HoldsNewest(cs: seq<Option<Copy>>, m: map<nat, seq<byte>>) {
    forall k: nat, l: nat | Newest(cs, k, l) :: l in m && m[l] == cs[k].value.data
  }

  /** A copy that differs from the last one is older than some copy with the last one's data. */
  ghost predicate StaleFirst(cs: seq<Option<Copy>>) {
    forall i: nat, j: nat, l: nat | Has(cs, i, l) && IsLast(cs, j, l) && cs[i].value.data != cs[j].value.data ::
      Superseded(cs, i, j, l)
  }

  ghost predicate Superseded(cs: seq<Option<Copy>>, i: nat, j: nat, l: nat)
    requires Has(cs, i, l) && Has(cs, j, l)
  {
    exists k: nat ::
      Has(cs, k, l) && cs[k].value.data == cs[j].value.data && cs[i].value.sqnum < cs[k].value.sqnum
  }

  lemma {:induction false} NewestExists(cs: seq<Option<Copy>>, l: nat, n: nat, best: nat) returns (k: nat)
    requires n <= |cs| && Has(cs, best, l)
    requires forall j: nat | Has(cs, j, l) && n <= j :: cs[j].value.sqnum <= cs[best].value.sqnum
    ensures Newest(cs, k, l) && cs[best].value.sqnum <= cs[k].value.sqnum
    decreases n
  {
    if n == 0 {
      k := best;
    } else if Has(cs, n - 1, l) && cs[n - 1].value.sqnum > cs[best].value.sqnum {
      k := NewestExists(cs, l, n - 1, n - 1);
    } else {
      k := NewestExists(cs, l, n - 1, best);
    }
  }

  lemma NewestStays(cs: seq<Option<Copy>>, k: nat, j: nat, l: nat)
    requires Newest(cs, k, l) && Has(cs, j, l)
    ensures !Superseded(cs, k, j, l)
  {
  }

  /** The code keeps the newest copies exactly when every copy that differs from the last one of its number is older
      than some copy that does not. */
  lemma NewestIff(cs: seq<Option<Copy>>)
    ensures HoldsNewest(cs, Kept(cs)) <==> StaleFirst(cs)
  {
    if StaleFirst(cs) {
      forall k: nat, l: nat | Newest(cs, k, l)
        ensures l in Kept(cs) && Kept(cs)[l] == cs[k].value.data
      {
        var j := LastExists(cs, k, l);
        LaterCopyWins(cs, l);
        NewestStays(cs, k, j, l);
        assert cs[k].value.data == cs[j].value.data;
      }
    }
    if HoldsNewest(cs, Kept(cs)) {
      forall i: nat, j: nat, l: nat | Has(cs, i, l) && IsLast(cs, j, l) && cs[i].value.data != cs[j].value.data
        ensures Superseded(cs, i, j, l)
      {
        LaterCopyWins(cs, l);
        var k := NewestExists(cs, l, |cs|, i);
        assert Kept(cs)[l] == cs[k].value.data;
      }
    }
  }

  /** The same, said of an image and the dictionary `extract_ubifs` builds from it. */
  lemma ImageNewestIff(image: seq<byte>, pebSize: nat, volId: nat, n: nat)
    requires HdrSize <= pebSize && n * pebSize <= |image|
    ensures var cs := Copies(image, pebSize, volId, n);
            HoldsNewest(cs, Collect(image, pebSize, volId, n).m) <==> StaleFirst(cs)
  {
    CollectIsKept(image, pebSize, volId, n);
    NewestIff(Copies(image, pebSize, volId, n));
  }

  /** When copies of one number never hold equal data, that is: the last copy has the highest sequence number. */
  lemma NewestIfInOrder(cs: seq<Option<Copy>>)
    requires forall i: nat, j: nat, l: nat | Has(cs, i, l) && Has(cs, j, l) && i != j ::
               cs[i].value.data != cs[j].value.data
    ensures HoldsNewest(cs, Kept(cs))
            <==> forall i: nat, j: nat, l: nat | Has(cs, i, l) && IsLast(cs, j, l) && i != j ::
                   cs[i].value.sqnum < cs[j].value.sqnum
  {
    NewestIff(cs);
    forall i: nat, j: nat, l: nat | Has(cs, i, l) && IsLast(cs, j, l) && i != j
      ensures Superseded(cs, i, j, l) <==> cs[i].value.sqnum < cs[j].value.sqnum
    {
      if cs[i].value.sqnum < cs[j].value.sqnum {
        assert Has(cs, j, l);
      }
    }
  }

  /** Of two copies that differ, whichever comes last is kept; in one of the two orders that is the older. */
  lemma OlderCopyKept(a: Copy, b: Copy)
    requires a.lnum == b.lnum && a.data != b.data && a.sqnum > b.sqnum
    ensures HoldsNewest([Some(b), Some(a)], Kept([Some(b), Some(a)]))
    ensures !HoldsNewest([Some(a), Some(b)], Kept([Some(a), Some(b)]))
    ensures Kept([Some(a), Some(b)]) == map[b.lnum := b.data]
  {
    KeptSnoc([], Some(a));
    KeptSnoc([], Some(b));
    assert [] + [Some(a)] == [Some(a)] && [] + [Some(b)] == [Some(b)];
    KeptSnoc([Some(a)], Some(b));
    KeptSnoc([Some(b)], Some(a));
    assert [Some(a)] + [Some(b)] == [Some(a), Some(b)] && [Some(b)] + [Some(a)] == [Some(b), Some(a)];
    assert Newest([Some(a), Some(b)], 0, a.lnum);
  }

  // ---------------------------------------------------------------- an image that comes out stale

  /** A 133-byte erase block: headers at 0 and 64, data at 128, logical block 0 of volume 0, `sqnum` and one payload
      byte to choose. */
  function PebByte(i: nat, sqnum: byte, payload: byte): byte {
    if i < 4 then (if i == 0 then 0x55 else if i == 1 then 0x42 else if i == 2 then 0x49 else 0x23)
    else if i == 19 then 64
    else if i == 23 then 128
    else if i < 64 then 0
    else if i < 68 then (if i == 64 then 0x55 else if i == 65 then 0x42 else if i == 66 then 0x49 else 0x21)
    else if i == 111 then sqnum
    else if i < 128 then 0
    else if i == 128 then 0x31 else if i == 129 then 0x18 else if i == 130 then 0x10 else if i == 131 then 0x06
    else payload
  }

  const PebSize: nat := 133

  function Peb(sqnum: byte, payload: byte): (r: seq<byte>)
    ensures |r| == PebSize
  {
    seq(PebSize, i requires 0 <= i < PebSize => PebByte(i, sqnum, payload))
  }

  lemma ByteValues()
    ensures Value(0) == 0 && Value(64) == 64 && Value(128) == 128 && Value(1) == 1 && Value(2) == 2
  {
  }

  lemma PebWords(b: seq<byte>, sqnum: byte, payload: byte)
    requires b == Peb(sqnum, payload)
    ensures WordAt(b, 16) == 64 && WordAt(b, 20) == 128 && WordAt(b, 72) == 0 && WordAt(b, 76) == 0
    ensures WordAt(b, 104) == 0 && WordAt(b, 108) == Value(sqnum)
  {
    ByteValues();
    PebWord(b, sqnum, payload, 16, 64);
    PebWord(b, sqnum, payload, 20, 128);
    PebWord(b, sqnum, payload, 72, 0);
    PebWord(b, sqnum, payload, 76, 0);
    PebWord(b, sqnum, payload, 104, 0);
    PebWord(b, sqnum, payload, 108, sqnum);
  }

  /** Four bytes of which only the last is not zero. */
  lemma PebWord(b: seq<byte>, sqnum: byte, payload: byte, at: nat, low: byte)
    requires b == Peb(sqnum, payload) && at + 4 <= PebSize
    requires PebByte(at, sqnum, payload) == 0 && PebByte(at + 1, sqnum, payload) == 0 && PebByte(at + 2, sqnum, payload) == 0
    requires PebByte(at + 3, sqnum, payload) == low
    ensures WordAt(b, at) == Value(low)
  {
    assert b[at] == 0 && b[at + 1] == 0 && b[at + 2] == 0 && b[at + 3] == low;
    ByteValues();
    LowWord(low);
  }

  lemma LowWord(low: byte)
    ensures BeWord(0, 0, 0, low) == Value(low)
  {
    ByteValues();
  }

  lemma PebMagics(b: seq<byte>, sqnum: byte, payload: byte)
    requires b == Peb(sqnum, payload)
    ensures b[0..4] == EcMagic == b[..4] && b[64..68] == VidMagic && b[128..133] == UbifsMagic + [payload]
  {
    assert b[0] == 0x55 && b[1] == 0x42 && b[2] == 0x49 && b[3] == 0x23;
    assert b[64] == 0x55 && b[65] == 0x42 && b[66] == 0x49 && b[67] == 0x21;
    assert b[128] == 0x31 && b[129] == 0x18 && b[130] == 0x10 && b[131] == 0x06 && b[132] == payload;
  }

  lemma PebLeb(b: seq<byte>, sqnum: byte, payload: byte)
    requires b == Peb(sqnum, payload)
    ensures SelfContained(b) && Leb(b, 0, PebSize, 0) == Some((0, UbifsMagic + [payload]))
  {
    PebWords(b, sqnum, payload);
    PebMagics(b, sqnum, payload);
    LebUnfold(b, 0, PebSize, 0, 64, 128);
  }

  /** Such a block at its place in an image. */
  lemma PebCopy(image: seq<byte>, k: nat, sqnum: byte, payload: byte)
    requires (k + 1) * PebSize <= |image| && image[k * PebSize..k * PebSize + PebSize] == Peb(sqnum, payload)
    ensures LebOf(image, PebSize, 0, k) == Some((0, UbifsMagic + [payload]))
    ensures CopyOf(image, PebSize, 0, k) == Some(Copy(0, UbifsMagic + [payload], Value(sqnum)))
  {
    var b, off := Peb(sqnum, payload), k * PebSize;
    PebLeb(b, sqnum, payload);
    PebWords(b, sqnum, payload);
    LebIsOwn(image, off, PebSize, 0, b);
    WordAtSlice(image, off, PebSize, 16);
    WordAtSlice(image, off, PebSize, 104);
    WordAtSlice(image, off, PebSize, 108);
  }

  /** Two copies, the newer one first. */
  function StaleImage(): (r: seq<byte>)
    ensures |r| == 2 * PebSize
  {
    Peb(2, 0xAA) + Peb(1, 0xBB)
  }

  lemma StaleBlocks()
    ensures StaleImage()[0..PebSize] == Peb(2, 0xAA) && StaleImage()[PebSize..2 * PebSize] == Peb(1, 0xBB)
    ensures Leading(StaleImage()) == EcMagic
  {
    PebMagics(Peb(2, 0xAA), 2, 0xAA);
    assert StaleImage()[..4] == Peb(2, 0xAA)[..4];
  }

  lemma OneBlockVolume(data: seq<byte>)
    requires data != [] && |data| >= 4 && data[..4] == UbifsMagic
    ensures Volume(Dict([0], map[0 := data])) == data && Leading(data) == UbifsMagic
  {
    var m := map[0 := data];
    assert [0 as nat][..0] == [] && MaxKey([0]) == 0;
    assert Assembled(m, |data|, 0) == [] && Assembled(m, |data|, 1) == data;
  }

  /** A well-formed image of one logical block in two copies: the code returns the copy with sequence number 1 and
      drops the one with sequence number 2. */
  lemma StaleImageExtracted()
    ensures CopyOf(StaleImage(), PebSize, 0, 0) == Some(Copy(0, UbifsMagic + [0xAA], 2))
    ensures CopyOf(StaleImage(), PebSize, 0, 1) == Some(Copy(0, UbifsMagic + [0xBB], 1))
    ensures Extract(StaleImage(), PebSize, 0) == Ok(UbifsMagic + [0xBB])
  {
    var image := StaleImage();
    StaleBlocks();
    ByteValues();
    PebCopy(image, 0, 2, 0xAA);
    PebCopy(image, 1, 1, 0xBB);
    NextBlock(image, PebSize, 0, 0);
    NextBlock(image, PebSize, 0, 1);
    StaleDict(Collect(image, PebSize, 0, 0), UbifsMagic + [0xAA], UbifsMagic + [0xBB]);
    OneBlockVolume(UbifsMagic + [0xBB]);
  }

  lemma StaleDict(d: Dict, x: seq<byte>, y: seq<byte>)
    requires d == Dict([], map[])
    ensures PutLeb(PutLeb(d, Some((0, x))), Some((0, y))) == Dict([0], map[0 := y])
  {
    assert map[][0 := x] == map[0 := x] && map[0 := x][0 := y] == map[0 := y];
    assert [] + [0] == [0];
  }

  // ---------------------------------------------------------------- when the order of the blocks matters

  lemma {:induction false} CopiesAt(image: seq<byte>, pebSize: nat, volId: nat, n: nat, k: nat)
    requires HdrSize <= pebSize && n * pebSize <= |image| && k < n
    ensures (k + 1) * pebSize <= |image| && Copies(image, pebSize, volId, n)[k] == CopyOf(image, pebSize, volId, k)
  {
    var before := n - 1;
    MulMono(k + 1, n, pebSize);
    MulMono(before, n, pebSize);
    CopiesNext(image, pebSize, volId, before);
    if k < before {
      CopiesAt(image, pebSize, volId, before, k);
    }
  }

  lemma CopiesNext(image: seq<byte>, pebSize: nat, volId: nat, n: nat)
    requires HdrSize <= pebSize && (n + 1) * pebSize <= |image| && n * pebSize <= |image|
    ensures Copies(image, pebSize, volId, n + 1) == Copies(image, pebSize, volId, n) + [CopyOf(image, pebSize, volId, n)]
  {
  }

  function Swap(x: nat, t: nat, k: nat): nat {
    if k == x then t else if k == t then x else k
  }

  /** `a` with the `size` bytes at `b0` and at `b1` exchanged. */
  function Exchange(a: seq<byte>, b0: nat, b1: nat, size: nat): (b: seq<byte>)
    requires b0 + size <= b1 && b1 + size <= |a|
    ensures |b| == |a|
  {
    seq(|a|, z requires 0 <= z < |a| =>
      if b0 <= z < b0 + size then a[b1 + z - b0] else if b1 <= z < b1 + size then a[b0 + z - b1] else a[z])
  }

  /** A block of the same size that is one of the two, or clear of both. */
  lemma ExchangedSlice(a: seq<byte>, b0: nat, b1: nat, size: nat, at: nat, from: nat)
    requires b0 + size <= b1 && b1 + size <= |a| && at + size <= |a|
    requires at + size <= b0 || at == b0 || (b0 + size <= at && at + size <= b1) || at == b1 || b1 + size <= at
    requires from == if at == b0 then b1 else if at == b1 then b0 else at
    ensures from + size <= |a| && Exchange(a, b0, b1, size)[at..at + size] == a[from..from + size]
  {
    var b := Exchange(a, b0, b1, size);
    var l, r := b[at..at + size], a[from..from + size];
    forall i | 0 <= i < size
      ensures l[i] == r[i]
    {
      assert l[i] == b[at + i] && r[i] == a[from + i];
    }
  }

  /** Blocks do not overlap. */
  lemma BlocksApart(x: nat, k: nat, size: nat)
    requires x != k
    ensures x * size + size <= k * size || k * size + size <= x * size
  {
    if x < k {
      MulMono(x + 1, k, size);
    } else {
      MulMono(k + 1, x, size);
    }
  }

  function SwapBlocks(a: seq<byte>, pebSize: nat, x: nat, t: nat): (b: seq<byte>)
    requires x * pebSize + pebSize <= t * pebSize && t * pebSize + pebSize <= |a|
    ensures |b| == |a|
  {
    Exchange(a, x * pebSize, t * pebSize, pebSize)
  }

  lemma SwappedBlock(a: seq<byte>, pebSize: nat, x: nat, t: nat, k: nat)
    requires 0 < pebSize && x < t && t * pebSize + pebSize <= |a| && k * pebSize + pebSize <= |a|
    ensures x * pebSize + pebSize <= t * pebSize && Swap(x, t, k) * pebSize + pebSize <= |a|
    ensures PebAt(SwapBlocks(a, pebSize, x, t), pebSize, k) == PebAt(a, pebSize, Swap(x, t, k))
  {
    var b0, b1, at, from := x * pebSize, t * pebSize, k * pebSize, Swap(x, t, k) * pebSize;
    Distances(pebSize, x, t, k, b0, b1, at);
    SwappedSlice(a, b0, b1, pebSize, at, from, x, t, k);
    SlicesArePebs(a, pebSize, x, t, k, b0, b1, at, from);
  }

  lemma SlicesArePebs(a: seq<byte>, size: nat, x: nat, t: nat, k: nat, b0: nat, b1: nat, at: nat, from: nat)
    requires b0 == x * size && b1 == t * size && at == k * size && from == Swap(x, t, k) * size
    requires b0 + size <= b1 && b1 + size <= |a| && at + size <= |a| && from + size <= |a|
    ensures PebAt(SwapBlocks(a, size, x, t), size, k) == Exchange(a, b0, b1, size)[at..at + size]
    ensures PebAt(a, size, Swap(x, t, k)) == a[from..from + size]
  {
  }

  lemma Distances(size: nat, x: nat, t: nat, k: nat, b0: nat, b1: nat, at: nat)
    requires b0 == x * size && b1 == t * size && at == k * size && x < t
    ensures b0 + size <= b1
    ensures k != x ==> b0 + size <= at || at + size <= b0
    ensures k != t ==> b1 + size <= at || at + size <= b1
  {
    MulMono(x + 1, t, size);
    if k != x {
      BlocksApart(x, k, size);
    }
    if k != t {
      BlocksApart(k, t, size);
    }
  }

  lemma SwappedSlice(a: seq<byte>, b0: nat, b1: nat, size: nat, at: nat, from: nat, x: nat, t: nat, k: nat)
    requires 0 < size && b0 == x * size && b1 == t * size && at == k * size && x < t && from == Swap(x, t, k) * size
    requires b0 + size <= b1 && b1 + size <= |a| && at + size <= |a|
    requires k != x ==> b0 + size <= at || at + size <= b0
    requires k != t ==> b1 + size <= at || at + size <= b1
    ensures from + size <= |a| && Exchange(a, b0, b1, size)[at..at + size] == a[from..from + size]
  {
    ExchangedSlice(a, b0, b1, size, at, from);
  }

  // ---------------------------------------------------------------- reordering

  ghost predicate AllSelfContained(a: seq<byte>, pebSize: nat, n: nat)
    requires n * pebSize <= |a|
  {
    forall k | 0 <= k < n :: SelfContainedAt(a, pebSize, k)
  }

  predicate SelfContainedAt(a: seq<byte>, pebSize: nat, k: nat) {
    k * pebSize + pebSize <= |a| && SelfContained(PebAt(a, pebSize, k))
  }

  function Swaps(n: nat, x: nat, t: nat): (p: seq<nat>)
    ensures |p| == n
  {
    seq(n, k requires 0 <= k < n => Swap(x, t, k))
  }

  lemma SwapShuffles(a: seq<byte>, pebSize: nat, x: nat, t: nat, n: nat)
    requires HdrSize <= pebSize && x < t < n == |a| / pebSize && n * pebSize <= |a| && AllSelfContained(a, pebSize, n)
    ensures x * pebSize + pebSize <= t * pebSize && t * pebSize + pebSize <= |a|
    ensures Shuffled(a, SwapBlocks(a, pebSize, x, t), pebSize, Swaps(n, x, t), Swaps(n, x, t))
  {
    assert SelfContainedAt(a, pebSize, t);
    BlocksApart(x, t, pebSize);
    MulMono(x, t, pebSize);
    var b, p := SwapBlocks(a, pebSize, x, t), Swaps(n, x, t);
    forall k | 0 <= k < n
      ensures p[k] < n && p[p[k]] == k && SameBlock(a, b, pebSize, k, p[k])
    {
      assert SelfContainedAt(a, pebSize, k) && SelfContainedAt(a, pebSize, p[k]);
      SwappedBlock(a, pebSize, x, t, p[k]);
    }
  }

  /** The copies of a swapped image are the swapped copies. */
  lemma SwappedHas(a: seq<byte>, b: seq<byte>, pebSize: nat, volId: nat, n: nat, p: seq<nat>, q: seq<nat>, k: nat, l: nat)
    requires HdrSize <= pebSize && Shuffled(a, b, pebSize, p, q) && n == |p| && k < n
    requires n * pebSize <= |a| && n * pebSize <= |b|
    ensures var cs, ds := Copies(a, pebSize, volId, n), Copies(b, pebSize, volId, n);
            && (Has(ds, p[k], l) <==> Has(cs, k, l))
            && (Has(cs, k, l) ==> ds[p[k]].value.data == cs[k].value.data)
  {
    CopiesAt(a, pebSize, volId, n, k);
    CopiesAt(b, pebSize, volId, n, p[k]);
    SameLeb(a, b, pebSize, volId, k, p[k]);
  }

  /** With the last copy and a different one exchanged, another block of data is kept. */
  lemma SwapKeepsOther(a: seq<byte>, b: seq<byte>, pebSize: nat, volId: nat, n: nat, x: nat, t: nat, l: nat)
    requires HdrSize <= pebSize && x < t < n && n * pebSize <= |a| && n * pebSize <= |b|
    requires Shuffled(a, b, pebSize, Swaps(n, x, t), Swaps(n, x, t))
    requires var cs := Copies(a, pebSize, volId, n);
             Has(cs, x, l) && IsLast(cs, t, l) && cs[x].value.data != cs[t].value.data
    ensures Collect(a, pebSize, volId, n).m != Collect(b, pebSize, volId, n).m
  {
    var cs, ds, p := Copies(a, pebSize, volId, n), Copies(b, pebSize, volId, n), Swaps(n, x, t);
    CollectIsKept(a, pebSize, volId, n);
    CollectIsKept(b, pebSize, volId, n);
    LaterCopyWins(cs, l);
    LaterCopyWins(ds, l);
    SwappedHas(a, b, pebSize, volId, n, p, p, x, l);
    assert p[x] == t;
    forall k: nat | Has(ds, k, l)
      ensures k <= t
    {
      SwappedHas(a, b, pebSize, volId, n, p, p, p[k], l);
      assert p[p[k]] == k;
    }
    assert IsLast(ds, t, l);
  }

  /** Two copies that differ: some order of the blocks changes the dictionary. */
  lemma OrderMatters(a: seq<byte>, pebSize: nat, volId: nat, n: nat, i: nat, j: nat)
    returns (b: seq<byte>, p: seq<nat>)
    requires HdrSize <= pebSize && n == |a| / pebSize && n * pebSize <= |a| && AllSelfContained(a, pebSize, n)
    requires i < n && j < n && Clash(a, pebSize, volId, i, j)
    ensures Shuffled(a, b, pebSize, p, p) && n * pebSize <= |b|
    ensures Collect(a, pebSize, volId, n).m != Collect(b, pebSize, volId, n).m
  {
    var cs := Copies(a, pebSize, volId, n);
    CopiesAt(a, pebSize, volId, n, i);
    CopiesAt(a, pebSize, volId, n, j);
    var l := cs[i].value.lnum;
    var t := LastExists(cs, i, l);
    var x := if cs[i].value.data != cs[t].value.data then i else j;
    assert Has(cs, x, l) && x != t;
    SwapShuffles(a, pebSize, x, t, n);
    b, p := SwapBlocks(a, pebSize, x, t), Swaps(n, x, t);
    SwapKeepsOther(a, b, pebSize, volId, n, x, t, l);
  }

  ghost predicate SameDict(a: seq<byte>, b: seq<byte>, pebSize: nat, volId: nat, n: nat)
    requires HdrSize <= pebSize
  {
    n * pebSize <= |a| && n * pebSize <= |b| ==> Collect(a, pebSize, volId, n).m == Collect(b, pebSize, volId, n).m
  }

  /** The order of the erase blocks is irrelevant to the dictionary exactly when copies of one logical block agree. */
  lemma OrderIrrelevantIff(a: seq<byte>, pebSize: nat, volId: nat, n: nat)
    requires HdrSize <= pebSize && n == |a| / pebSize && n * pebSize <= |a| && AllSelfContained(a, pebSize, n)
    ensures (forall b, p, q | Shuffled(a, b, pebSize, p, q) :: SameDict(a, b, pebSize, volId, n))
            <==> Agreeing(a, pebSize, volId, n)
  {
    if Agreeing(a, pebSize, volId, n) {
      forall b, p, q | Shuffled(a, b, pebSize, p, q)
        ensures SameDict(a, b, pebSize, volId, n)
      {
        if n * pebSize <= |b| {
          SameDictionary(a, b, pebSize, volId, p, q, n);
        }
      }
    } else {
      var i: nat, j: nat :| i < j < n && Clash(a, pebSize, volId, i, j);
      var b, p := OrderMatters(a, pebSize, volId, n, i, j);
      assert !SameDict(a, b, pebSize, volId, n);
    }
  }
}
