/**
  Images laid out byte by byte, and what `extract_ubifs` makes of them (src/defib/ubi.py:17-133): the header layouts of
  UBI stated on the image, independently of the code that unpacks them.
 */
module UbiBuild {
  import opened Bytes
  import opened Octets
  import opened Ubi

  /** What one erase block holds. */
  datatype Eb = Eb(vol: nat, lnum: nat, data: seq<byte>)

  /** Four bytes, the most significant first. */
  function Number(a: byte, b: byte, c: byte, d: byte): nat {
    a as nat * 0x100_0000 + b as nat * 0x1_0000 + c as nat * 0x100 + d as nat
  }

  /** The number `n` stands at `at`. */
  ghost predicate HasNumber(b: seq<byte>, at: nat, n: nat) {
    forall k: nat {:trigger IsNat(k, at)} | IsNat(k, at) ::
      k + 4 <= |b| && Number(b[k], b[k + 1], b[k + 2], b[k + 3]) == n
  }

  /** And the four bytes of a magic. */
  ghost predicate HasBytes(b: seq<byte>, at: nat, w: byte, x: byte, y: byte, z: byte) {
    at + 4 <= |b| && b[at] == w && b[at + 1] == x && b[at + 2] == y && b[at + 3] == z
  }

  /** The four bytes that an erase block in use begins with: "UBI#". */
  predicate InUse(b: seq<byte>) {
    |b| >= 4 && b[0] == 0x55 && b[1] == 0x42 && b[2] == 0x49 && b[3] == 0x23
  }

  /** Block `b` holds `e`: header offset in bytes 16 to 19, data offset in 20 to 23; in the volume header, which begins
      with "UBI!", the volume in bytes 8 to 11 and the logical number in 12 to 15; data up to the end of the block. All
      other bytes are arbitrary. */
  ghost predicate IsPeb(b: seq<byte>, pebSize: nat, vid: nat, e: Eb) {
    && |b| == pebSize && 64 <= vid && vid + 64 + |e.data| <= pebSize
    && InUse(b) && HasNumber(b, 16, vid) && HasNumber(b, 20, pebSize - |e.data|)
    && HasBytes(b, vid, 0x55, 0x42, 0x49, 0x21) && HasNumber(b, vid + 8, e.vol) && HasNumber(b, vid + 12, e.lnum)
    && b[pebSize - |e.data|..] == e.data
  }

  /** An erase block in use, or one that is not. */
  ghost predicate IsBlock(b: seq<byte>, pebSize: nat, o: Option<Eb>) {
    match o
    case None => |b| == pebSize && !InUse(b)
    case Some(e) => exists vid: nat :: IsPeb(b, pebSize, vid, e)
  }

  ghost predicate IsImage(pebs: seq<seq<byte>>, pebSize: nat, ebs: seq<Option<Eb>>) {
    |pebs| == |ebs| && forall k | 0 <= k < |pebs| :: IsBlock(pebs[k], pebSize, ebs[k])
  }

  /** The block holds logical block `lnum` of volume `vol`. */
  predicate Of(o: Option<Eb>, vol: nat, lnum: nat) {
    o.Some? && o.value.vol == vol && o.value.lnum == lnum
  }

  predicate InVolume(o: Option<Eb>, vol: nat) {
    o.Some? && o.value.vol == vol
  }

  /** The blocks of the volume are of one size, and copies of a logical block agree. */
  ghost predicate Consistent(ebs: seq<Option<Eb>>, vol: nat, lebSize: nat) {
    && 4 <= lebSize
    && (forall k | 0 <= k < |ebs| && InVolume(ebs[k], vol) :: |ebs[k].value.data| == lebSize)
    && (forall i, k | 0 <= i < k < |ebs| && InVolume(ebs[i], vol) && InVolume(ebs[k], vol) ::
          ebs[i].value.lnum == ebs[k].value.lnum ==> ebs[i].value.data == ebs[k].value.data)
  }

  /** `d` is what belongs at logical block `lnum`: the data of the block that holds it, or 0xFF if none does. */
  ghost predicate Belongs(ebs: seq<Option<Eb>>, vol: nat, lebSize: nat, lnum: nat, d: seq<byte>) {
    && (forall k | 0 <= k < |ebs| && Of(ebs[k], vol, lnum) :: d == ebs[k].value.data)
    && ((forall k | 0 <= k < |ebs| :: !Of(ebs[k], vol, lnum)) ==> |d| == lebSize && forall i | 0 <= i < |d| :: d[i] == 0xFF)
  }

  /** `n` logical blocks of the volume in their places. */
  ghost predicate InPlace(ebs: seq<Option<Eb>>, vol: nat, lebSize: nat, u: seq<byte>, n: nat) {
    && 1 <= n && |u| == n * lebSize
    && forall i: nat | i < n ::
         i * lebSize + lebSize <= |u| && Belongs(ebs, vol, lebSize, i, u[i * lebSize..i * lebSize + lebSize])
  }

  /** `u` is the volume: `n` logical blocks in their places, and nothing but 0xFF behind them. */
  ghost predicate IsVolume(ebs: seq<Option<Eb>>, vol: nat, lebSize: nat, u: seq<byte>, n: nat) {
    && InPlace(ebs, vol, lebSize, u, n)
    && (forall k | 0 <= k < |ebs| && InVolume(ebs[k], vol) && ebs[k].value.lnum >= n ::
          forall i | 0 <= i < |ebs[k].value.data| :: ebs[k].value.data[i] == 0xFF)
    && (n == 1 || exists i :: |u| - lebSize <= i < |u| && u[i] != 0xFF)
  }

  // ---------------------------------------------------------------- one block

  lemma NumberIsWord(a: byte, b: byte, c: byte, d: byte)
    ensures BeWord(a, b, c, d) == Number(a, b, c, d)
  {
  }

  lemma WordIs(b: seq<byte>, at: nat, n: nat)
    requires HasNumber(b, at, n)
    ensures at + 4 <= |b| && WordAt(b, at) == n
  {
    assert IsNat(at, at);
    NumberIsWord(b[at], b[at + 1], b[at + 2], b[at + 3]);
  }

  lemma MagicIs(b: seq<byte>, at: nat, w: byte, x: byte, y: byte, z: byte)
    requires at + 4 <= |b|
    ensures HasMagic(b, at, [w, x, y, z]) <==> b[at] == w && b[at + 1] == x && b[at + 2] == y && b[at + 3] == z
  {
    var s := b[at..at + 4];
    assert s[0] == b[at] && s[1] == b[at + 1] && s[2] == b[at + 2] && s[3] == b[at + 3];
    if b[at] == w && b[at + 1] == x && b[at + 2] == y && b[at + 3] == z {
      assert s == [w, x, y, z];
    }
  }

  lemma InUseIs(b: seq<byte>)
    requires |b| >= 4
    ensures HasMagic(b, 0, EcMagic) <==> InUse(b)
    ensures b[..4] == EcMagic <==> InUse(b)
  {
    MagicIs(b, 0, 0x55, 0x42, 0x49, 0x23);
    assert b[0..4] == b[..4];
  }

  lemma EcRead(b: seq<byte>, pebSize: nat, vid: nat, e: Eb)
    requires IsPeb(b, pebSize, vid, e)
    ensures HasMagic(b, 0, EcMagic) && WordAt(b, 16) == vid && WordAt(b, 20) == pebSize - |e.data|
  {
    InUseIs(b);
    WordIs(b, 16, vid);
    WordIs(b, 20, pebSize - |e.data|);
  }

  lemma VidRead(b: seq<byte>, pebSize: nat, vid: nat, e: Eb)
    requires IsPeb(b, pebSize, vid, e)
    ensures HasMagic(b, vid, VidMagic) && WordAt(b, vid + 8) == e.vol && WordAt(b, vid + 12) == e.lnum
  {
    MagicIs(b, vid, 0x55, 0x42, 0x49, 0x21);
    WordIs(b, vid + 8, e.vol);
    WordIs(b, vid + 12, e.lnum);
  }

  lemma LebAtIs(b: seq<byte>, vid: nat, at: nat, vol: nat, e: Eb)
    requires vid + HdrSize <= |b| && HasMagic(b, vid, VidMagic) && Span(b, at, |b|) == e.data
    requires WordAt(b, vid + 8) == e.vol && WordAt(b, vid + 12) == e.lnum
    ensures LebAt(b, vid, at, |b|, vol) == if e.vol == vol then Some((e.lnum, e.data)) else None
  {
  }

  lemma LebIs(b: seq<byte>, vid: nat, at: nat, vol: nat)
    requires HdrSize <= |b| && HasMagic(b, 0, EcMagic) && WordAt(b, 16) == vid && WordAt(b, 20) == at
    ensures Leb(b, 0, |b|, vol) == LebAt(b, vid, at, |b|, vol)
  {
    LebUnfold(b, 0, |b|, vol, vid, at);
  }

  /** What the code reads in it. */
  lemma PebRead(b: seq<byte>, pebSize: nat, vid: nat, e: Eb, vol: nat)
    requires HdrSize <= pebSize && IsPeb(b, pebSize, vid, e)
    ensures Leb(b, 0, pebSize, vol) == if e.vol == vol then Some((e.lnum, e.data)) else None
  {
    EcRead(b, pebSize, vid, e);
    VidRead(b, pebSize, vid, e);
    DataSpan(b, pebSize, e.data);
    LebIs(b, vid, pebSize - |e.data|, vol);
    LebAtIs(b, vid, pebSize - |e.data|, vol, e);
  }

  lemma PebContained(b: seq<byte>, pebSize: nat, vid: nat, e: Eb)
    requires IsPeb(b, pebSize, vid, e)
    ensures SelfContained(b)
  {
    EcRead(b, pebSize, vid, e);
  }

  lemma DataSpan(b: seq<byte>, pebSize: nat, d: seq<byte>)
    requires |b| == pebSize && |d| <= pebSize && b[pebSize - |d|..] == d
    ensures Span(b, pebSize - |d|, pebSize) == d
  {
    assert b[pebSize - |d|..pebSize] == b[pebSize - |d|..];
  }

  function Reads(o: Option<Eb>, vol: nat): Option<(nat, seq<byte>)> {
    if InVolume(o, vol) then Some((o.value.lnum, o.value.data)) else None
  }

  lemma BlockRead(b: seq<byte>, pebSize: nat, o: Option<Eb>, vol: nat)
    requires HdrSize <= pebSize && IsBlock(b, pebSize, o)
    ensures |b| == pebSize && SelfContained(b) && Leb(b, 0, pebSize, vol) == Reads(o, vol)
  {
    InUseIs(b);
    if o.Some? {
      var vid: nat :| IsPeb(b, pebSize, vid, o.value);
      PebContained(b, pebSize, vid, o.value);
      PebRead(b, pebSize, vid, o.value, vol);
    } else {
      LebUnfold(b, 0, pebSize, vol, WordAt(b, 16), WordAt(b, 20));
    }
  }

  // ---------------------------------------------------------------- the image

  /** Block `k` of joined blocks. */
  lemma {:induction false} JoinedAt(pebs: seq<seq<byte>>, size: nat, k: nat, at: nat)
    requires (forall i | 0 <= i < |pebs| :: |pebs[i]| == size) && k < |pebs| && at == k * size
    ensures at + size <= |Join(pebs)| && Join(pebs)[at..at + size] == pebs[k]
    decreases k
  {
    if k > 0 {
      MulMono(1, k, size);
      JoinedAt(pebs[1..], size, k - 1, at - size);
      SliceBehind(pebs[0], Join(pebs[1..]), at - size, size);
    }
  }

  lemma SliceBehind(a: seq<byte>, b: seq<byte>, at: nat, n: nat)
    requires at + n <= |b|
    ensures (a + b)[|a| + at..|a| + at + n] == b[at..at + n]
  {
  }

  lemma {:induction false} JoinedLength(pebs: seq<seq<byte>>, size: nat)
    requires forall i | 0 <= i < |pebs| :: |pebs[i]| == size
    ensures |Join(pebs)| == |pebs| * size
  {
    if pebs != [] {
      JoinedLength(pebs[1..], size);
      assert |pebs| * size == (|pebs| - 1) * size + size;
    }
  }

  lemma BlockSizes(pebs: seq<seq<byte>>, pebSize: nat, ebs: seq<Option<Eb>>)
    requires IsImage(pebs, pebSize, ebs)
    ensures forall i | 0 <= i < |pebs| :: |pebs[i]| == pebSize
  {
    forall i | 0 <= i < |pebs|
      ensures |pebs[i]| == pebSize
    {
      assert IsBlock(pebs[i], pebSize, ebs[i]);
    }
  }

  /** `image` is the joined blocks: so long, and each in its place reads as it should. */
  ghost predicate Reading(image: seq<byte>, pebSize: nat, ebs: seq<Option<Eb>>, vol: nat) {
    && HdrSize <= pebSize && |image| == |ebs| * pebSize && |image| / pebSize == |ebs|
    && forall k | 0 <= k < |ebs| :: (k + 1) * pebSize <= |image| && LebOf(image, pebSize, vol, k) == Reads(ebs[k], vol)
  }

  lemma ReadingAt(pebs: seq<seq<byte>>, pebSize: nat, ebs: seq<Option<Eb>>, vol: nat, k: nat)
    requires HdrSize <= pebSize && IsImage(pebs, pebSize, ebs) && k < |ebs|
    ensures (k + 1) * pebSize <= |Join(pebs)| && LebOf(Join(pebs), pebSize, vol, k) == Reads(ebs[k], vol)
  {
    var at := k * pebSize;
    ReadingFrom(pebs, pebSize, ebs, vol, k, at);
    assert (k + 1) * pebSize == at + pebSize;
  }

  lemma ReadingFrom(pebs: seq<seq<byte>>, pebSize: nat, ebs: seq<Option<Eb>>, vol: nat, k: nat, at: nat)
    requires HdrSize <= pebSize && IsImage(pebs, pebSize, ebs) && k < |ebs| && at == k * pebSize
    ensures at + pebSize <= |Join(pebs)| && Leb(Join(pebs), at, pebSize, vol) == Reads(ebs[k], vol)
  {
    BlockSizes(pebs, pebSize, ebs);
    JoinedAt(pebs, pebSize, k, at);
    BlockReading(Join(pebs), at, pebSize, vol, pebs[k], ebs[k]);
  }

  lemma BlockReading(image: seq<byte>, at: nat, pebSize: nat, vol: nat, b: seq<byte>, o: Option<Eb>)
    requires HdrSize <= pebSize && at + pebSize <= |image| && image[at..at + pebSize] == b && IsBlock(b, pebSize, o)
    ensures Leb(image, at, pebSize, vol) == Reads(o, vol)
  {
    BlockRead(b, pebSize, o, vol);
    LebIsOwn(image, at, pebSize, vol, b);
  }

  lemma ImageSize(pebs: seq<seq<byte>>, pebSize: nat, ebs: seq<Option<Eb>>)
    requires HdrSize <= pebSize && IsImage(pebs, pebSize, ebs)
    ensures |Join(pebs)| == |ebs| * pebSize && |Join(pebs)| / pebSize == |ebs|
  {
    BlockSizes(pebs, pebSize, ebs);
    JoinedLength(pebs, pebSize);
    DivModUnique(|Join(pebs)|, pebSize, |ebs|, 0);
  }

  lemma ImageReads(pebs: seq<seq<byte>>, pebSize: nat, ebs: seq<Option<Eb>>, vol: nat)
    requires HdrSize <= pebSize && IsImage(pebs, pebSize, ebs)
    ensures Reading(Join(pebs), pebSize, ebs, vol)
  {
    ImageSize(pebs, pebSize, ebs);
    forall k | 0 <= k < |ebs|
      ensures (k + 1) * pebSize <= |Join(pebs)| && LebOf(Join(pebs), pebSize, vol, k) == Reads(ebs[k], vol)
    {
      ReadingAt(pebs, pebSize, ebs, vol, k);
    }
  }

  // ---------------------------------------------------------------- the dictionary

  /** `m` holds exactly the logical blocks of the volume. */
  ghost predicate Holds(m: map<nat, seq<byte>>, ebs: seq<Option<Eb>>, vol: nat) {
    && (forall k | 0 <= k < |ebs| && InVolume(ebs[k], vol) ::
          ebs[k].value.lnum in m && m[ebs[k].value.lnum] == ebs[k].value.data)
    && (forall l: nat | l in m :: exists k :: 0 <= k < |ebs| && Of(ebs[k], vol, l) && m[l] == ebs[k].value.data)
  }

  lemma NoClashOf(image: seq<byte>, pebSize: nat, ebs: seq<Option<Eb>>, vol: nat, i: nat, j: nat)
    requires Reading(image, pebSize, ebs, vol) && i < j < |ebs|
    requires InVolume(ebs[i], vol) && InVolume(ebs[j], vol) && ebs[i].value.lnum == ebs[j].value.lnum ==>
               ebs[i].value.data == ebs[j].value.data
    ensures !Clash(image, pebSize, vol, i, j)
  {
    assert LebOf(image, pebSize, vol, i) == Reads(ebs[i], vol) && LebOf(image, pebSize, vol, j) == Reads(ebs[j], vol);
  }

  lemma NoClash(image: seq<byte>, pebSize: nat, ebs: seq<Option<Eb>>, vol: nat, lebSize: nat)
    requires Reading(image, pebSize, ebs, vol) && Consistent(ebs, vol, lebSize)
    ensures Agreeing(image, pebSize, vol, |ebs|)
  {
    forall i, j | 0 <= i < j < |ebs|
      ensures !Clash(image, pebSize, vol, i, j)
    {
      NoClashOf(image, pebSize, ebs, vol, i, j);
    }
  }

  lemma DictHolds(image: seq<byte>, pebSize: nat, ebs: seq<Option<Eb>>, vol: nat, d: Dict)
    requires Reading(image, pebSize, ebs, vol) && Gathers(d, image, pebSize, vol, |ebs|)
    ensures Holds(d.m, ebs, vol)
  {
    forall k | 0 <= k < |ebs| && InVolume(ebs[k], vol)
      ensures ebs[k].value.lnum in d.m && d.m[ebs[k].value.lnum] == ebs[k].value.data
    {
      assert Contributes(image, pebSize, vol, |ebs|, k, ebs[k].value.lnum, ebs[k].value.data);
    }
    forall l: nat | l in d.m
      ensures exists k :: 0 <= k < |ebs| && Of(ebs[k], vol, l) && d.m[l] == ebs[k].value.data
    {
      var i: nat :| Contributes(image, pebSize, vol, |ebs|, i, l, d.m[l]);
      assert LebOf(image, pebSize, vol, i) == Reads(ebs[i], vol);
      assert Of(ebs[i], vol, l) && d.m[l] == ebs[i].value.data;
    }
  }

  lemma HoldsUniform(m: map<nat, seq<byte>>, ebs: seq<Option<Eb>>, vol: nat, lebSize: nat)
    requires Holds(m, ebs, vol) && Consistent(ebs, vol, lebSize)
    ensures Uniform(m, lebSize)
  {
    forall l | l in m
      ensures |m[l]| == lebSize
    {
      var k :| 0 <= k < |ebs| && Of(ebs[k], vol, l) && m[l] == ebs[k].value.data;
      assert InVolume(ebs[k], vol);
    }
  }

  lemma SlotBelongs(m: map<nat, seq<byte>>, ebs: seq<Option<Eb>>, vol: nat, lebSize: nat, l: nat)
    requires Holds(m, ebs, vol)
    ensures Belongs(ebs, vol, lebSize, l, Slot(m, lebSize, l))
  {
    forall k | 0 <= k < |ebs| && Of(ebs[k], vol, l)
      ensures Slot(m, lebSize, l) == ebs[k].value.data
    {
      assert InVolume(ebs[k], vol);
    }
    if forall k | 0 <= k < |ebs| :: !Of(ebs[k], vol, l) {
      assert l !in m;
    }
  }

  // ---------------------------------------------------------------- the volume

  lemma Erased(d: seq<byte>, size: nat)
    requires |d| == size
    ensures d == Fill(size, 0xFF) <==> forall i | 0 <= i < |d| :: d[i] == 0xFF
  {
  }

  /** The trimmed blocks of the dictionary are the volume. */
  lemma AssembledVolume(d: Dict, ebs: seq<Option<Eb>>, vol: nat, lebSize: nat, n: nat)
    requires d.Valid() && d.keys != [] && Holds(d.m, ebs, vol) && Consistent(ebs, vol, lebSize) && Uniform(d.m, lebSize)
    requires Trimmed(d.m, lebSize, MaxKey(d.keys) + 1, n)
    ensures IsVolume(ebs, vol, lebSize, Assembled(d.m, lebSize, n), n)
  {
    var u := Assembled(d.m, lebSize, n);
    AssembledLength(d.m, lebSize, n);
    forall i: nat | i < n
      ensures i * lebSize + lebSize <= |u| && Belongs(ebs, vol, lebSize, i, u[i * lebSize..i * lebSize + lebSize])
    {
      AssembledSlot(d.m, lebSize, n, i);
      SlotBelongs(d.m, ebs, vol, lebSize, i);
    }
    forall k | 0 <= k < |ebs| && InVolume(ebs[k], vol) && ebs[k].value.lnum >= n
      ensures forall i | 0 <= i < |ebs[k].value.data| :: ebs[k].value.data[i] == 0xFF
    {
      TailErased(d, ebs, vol, lebSize, n, k);
    }
    if n > 1 {
      LastSlot(d.m, lebSize, n);
    }
  }

  lemma TailErased(d: Dict, ebs: seq<Option<Eb>>, vol: nat, lebSize: nat, n: nat, k: nat)
    requires d.Valid() && d.keys != [] && Holds(d.m, ebs, vol) && Consistent(ebs, vol, lebSize)
    requires Trimmed(d.m, lebSize, MaxKey(d.keys) + 1, n)
    requires k < |ebs| && InVolume(ebs[k], vol) && ebs[k].value.lnum >= n
    ensures forall i | 0 <= i < |ebs[k].value.data| :: ebs[k].value.data[i] == 0xFF
  {
    var l := ebs[k].value.lnum;
    MaxKeyIs(d.keys);
    assert l in d.m && l in d.keys;
    assert Slot(d.m, lebSize, l) == Fill(lebSize, 0xFF);
    Erased(ebs[k].value.data, lebSize);
  }

  lemma LastSlot(m: map<nat, seq<byte>>, lebSize: nat, n: nat)
    requires Uniform(m, lebSize) && 1 < n && Slot(m, lebSize, n - 1) != Fill(lebSize, 0xFF)
    ensures var u := Assembled(m, lebSize, n);
            lebSize <= |u| && exists i :: |u| - lebSize <= i < |u| && u[i] != 0xFF
  {
    var u, s := Assembled(m, lebSize, n), Slot(m, lebSize, n - 1);
    var head := Assembled(m, lebSize, n - 1);
    assert u == head + s;
    Erased(s, lebSize);
    var i :| 0 <= i < |s| && s[i] != 0xFF;
    assert u[|head| + i] == s[i];
  }

  /** What `Extract` does with such a dictionary. */
  lemma VolumeIs(d: Dict, ebs: seq<Option<Eb>>, vol: nat, lebSize: nat) returns (n: nat)
    requires d.Valid() && d.keys != [] && Holds(d.m, ebs, vol) && Consistent(ebs, vol, lebSize)
    ensures IsVolume(ebs, vol, lebSize, Volume(d), n)
  {
    HoldsUniform(d.m, ebs, vol, lebSize);
    assert d.keys[0] in d.m;
    n := TrimExact(d.m, lebSize, MaxKey(d.keys) + 1);
    assert IsNat(MaxKey(d.keys) + 1, MaxKey(d.keys) + 1) && IsNat(n, n);
    AssembledVolume(d, ebs, vol, lebSize, n);
  }

  // ---------------------------------------------------------------- main results

  /** The four bytes a UBIFS begins with. */
  predicate BeginsUbifs(d: seq<byte>) {
    |d| >= 4 && d[0] == 0x31 && d[1] == 0x18 && d[2] == 0x10 && d[3] == 0x06
  }

  predicate FirstIsUbifs(o: Option<Eb>, vol: nat) {
    Of(o, vol, 0) && BeginsUbifs(o.value.data)
  }

  /** The result of an extraction, in terms of what the erase blocks hold. */
  ghost predicate Right(ebs: seq<Option<Eb>>, vol: nat, lebSize: nat, r: Result, n: nat) {
    if ebs == [] || ebs[0].None? then r == NotUbi
    else if forall k | 0 <= k < |ebs| :: !InVolume(ebs[k], vol) then r == VolumeNotFound
    else if forall k | 0 <= k < |ebs| :: !FirstIsUbifs(ebs[k], vol) then r == NotUbifs
    else r.Ok? && IsVolume(ebs, vol, lebSize, r.ubifs, n)
  }

  lemma LeadingBytes(s: seq<byte>, w: byte, x: byte, y: byte, z: byte)
    ensures Leading(s) == [w, x, y, z] <==> |s| >= 4 && s[0] == w && s[1] == x && s[2] == y && s[3] == z
  {
    if |s| >= 4 {
      var l := Leading(s);
      assert l[0] == s[0] && l[1] == s[1] && l[2] == s[2] && l[3] == s[3];
      if s[0] == w && s[1] == x && s[2] == y && s[3] == z {
        assert l == [w, x, y, z];
      }
    }
  }

  lemma {:induction false} LeadingJoin(pebs: seq<seq<byte>>, pebSize: nat, ebs: seq<Option<Eb>>)
    requires HdrSize <= pebSize && IsImage(pebs, pebSize, ebs)
    ensures Leading(Join(pebs)) == EcMagic <==> ebs != [] && ebs[0].Some?
  {
    LeadingBytes(Join(pebs), 0x55, 0x42, 0x49, 0x23);
    if ebs != [] {
      assert IsBlock(pebs[0], pebSize, ebs[0]);
      assert Join(pebs)[..4] == pebs[0][..4];
      assert forall i | 0 <= i < 4 :: Join(pebs)[i] == Join(pebs)[..4][i] && pebs[0][i] == pebs[0][..4][i];
    }
  }

  /** The volume begins as its first logical block does. */
  lemma VolumeBegins(ebs: seq<Option<Eb>>, vol: nat, lebSize: nat, u: seq<byte>, n: nat)
    requires Consistent(ebs, vol, lebSize) && IsVolume(ebs, vol, lebSize, u, n)
    ensures Leading(u) == UbifsMagic <==> exists k :: 0 <= k < |ebs| && FirstIsUbifs(ebs[k], vol)
  {
    LeadingBytes(u, 0x31, 0x18, 0x10, 0x06);
    MulMono(1, n, lebSize);
    var first := u[0..lebSize];
    assert Belongs(ebs, vol, lebSize, 0, u[0 * lebSize..0 * lebSize + lebSize]);
    assert u[0 * lebSize..0 * lebSize + lebSize] == first;
    assert forall i | 0 <= i < 4 :: u[i] == first[i];
    if forall k | 0 <= k < |ebs| :: !Of(ebs[k], vol, 0) {
      assert u[0] == 0xFF;
    } else {
      var k :| 0 <= k < |ebs| && Of(ebs[k], vol, 0);
      assert first == ebs[k].value.data;
      assert BeginsUbifs(first) ==> FirstIsUbifs(ebs[k], vol);
      forall j | 0 <= j < |ebs| && FirstIsUbifs(ebs[j], vol)
        ensures BeginsUbifs(first)
      {
        assert first == ebs[j].value.data;
      }
    }
  }

  lemma KeysOfVolume(d: Dict, ebs: seq<Option<Eb>>, vol: nat)
    requires d.Valid() && Holds(d.m, ebs, vol)
    ensures d.keys == [] <==> forall k | 0 <= k < |ebs| :: !InVolume(ebs[k], vol)
  {
    if d.keys != [] {
      assert d.keys[0] in d.m;
    }
    if k :| 0 <= k < |ebs| && InVolume(ebs[k], vol) {
      assert ebs[k].value.lnum in d.keys;
    }
  }

  /** From any image of erase blocks, in any order, with other volumes and unused blocks between them, the code returns
      the volume that was asked for: each logical block in its place, 0xFF in the gaps, the erased tail cut off; or the
      error that says what is missing. */
  lemma ExtractsVolume(pebs: seq<seq<byte>>, pebSize: nat, ebs: seq<Option<Eb>>, vol: nat, lebSize: nat) returns (n: nat)
    requires HdrSize <= pebSize && IsImage(pebs, pebSize, ebs) && Consistent(ebs, vol, lebSize)
    ensures Right(ebs, vol, lebSize, Extract(Join(pebs), pebSize, vol), n)
  {
    var image := Join(pebs);
    ImageReads(pebs, pebSize, ebs, vol);
    LeadingJoin(pebs, pebSize, ebs);
    NoClash(image, pebSize, ebs, vol, lebSize);
    CollectGathers(image, pebSize, vol, |ebs|);
    var d := Collect(image, pebSize, vol, |ebs|);
    DictHolds(image, pebSize, ebs, vol, d);
    KeysOfVolume(d, ebs, vol);
    n := 0;
    if d.keys != [] {
      n := VolumeIs(d, ebs, vol, lebSize);
      VolumeBegins(ebs, vol, lebSize, Volume(d), n);
    }
  }

  // ---------------------------------------------------------------- there is one such volume

  lemma BelongsOnce(ebs: seq<Option<Eb>>, vol: nat, lebSize: nat, l: nat, c: seq<byte>, d: seq<byte>)
    requires Belongs(ebs, vol, lebSize, l, c) && Belongs(ebs, vol, lebSize, l, d)
    ensures c == d
  {
    if k :| 0 <= k < |ebs| && Of(ebs[k], vol, l) {
      assert c == ebs[k].value.data == d;
    }
  }

  /** What belongs behind the end of a volume is erased. */
  lemma BehindErased(ebs: seq<Option<Eb>>, vol: nat, lebSize: nat, u: seq<byte>, n: nat, l: nat, d: seq<byte>)
    requires IsVolume(ebs, vol, lebSize, u, n) && n <= l && Belongs(ebs, vol, lebSize, l, d)
    ensures forall i | 0 <= i < |d| :: d[i] == 0xFF
  {
    if k :| 0 <= k < |ebs| && Of(ebs[k], vol, l) {
      assert InVolume(ebs[k], vol) && d == ebs[k].value.data;
    }
  }

  lemma ErasedThere(v: seq<byte>, at: nat, size: nat, d: seq<byte>)
    requires at + size <= |v| && d == v[at..at + size] && forall i | 0 <= i < |d| :: d[i] == 0xFF
    ensures forall i | at <= i < at + size :: v[i] == 0xFF
  {
    forall i | at <= i < at + size
      ensures v[i] == 0xFF
    {
      assert v[i] == d[i - at];
    }
  }

  /** So the last block of a longer one would be erased. */
  lemma LastErased(ebs: seq<Option<Eb>>, vol: nat, lebSize: nat, u: seq<byte>, n: nat, v: seq<byte>, m: nat)
    requires IsVolume(ebs, vol, lebSize, u, n) && InPlace(ebs, vol, lebSize, v, m) && n < m
    ensures lebSize <= |v| && forall i | |v| - lebSize <= i < |v| :: v[i] == 0xFF
  {
    var l, at := m - 1, (m - 1) * lebSize;
    assert at + lebSize == m * lebSize;
    assert Belongs(ebs, vol, lebSize, l, v[l * lebSize..l * lebSize + lebSize]);
    var d := v[at..at + lebSize];
    BehindErased(ebs, vol, lebSize, u, n, l, d);
    ErasedThere(v, at, lebSize, d);
  }

  lemma NotShorter(ebs: seq<Option<Eb>>, vol: nat, lebSize: nat, u: seq<byte>, n: nat, v: seq<byte>, m: nat)
    requires 0 < lebSize && IsVolume(ebs, vol, lebSize, u, n) && IsVolume(ebs, vol, lebSize, v, m)
    ensures m <= n
  {
    if n < m {
      LastErased(ebs, vol, lebSize, u, n, v, m);
    }
  }

  lemma SlotOnce(ebs: seq<Option<Eb>>, vol: nat, lebSize: nat, u: seq<byte>, v: seq<byte>, n: nat, i: nat, at: nat, t: nat)
    requires IsVolume(ebs, vol, lebSize, u, n) && IsVolume(ebs, vol, lebSize, v, n)
    requires i < n && at == i * lebSize && at <= t < at + lebSize
    ensures at + lebSize <= |u| == |v| && u[t] == v[t]
  {
    assert Belongs(ebs, vol, lebSize, i, u[i * lebSize..i * lebSize + lebSize]);
    assert Belongs(ebs, vol, lebSize, i, v[i * lebSize..i * lebSize + lebSize]);
    BelongsOnce(ebs, vol, lebSize, i, u[at..at + lebSize], v[at..at + lebSize]);
    assert u[at..at + lebSize][t - at] == u[t] && v[at..at + lebSize][t - at] == v[t];
  }

  lemma InSlot(t: nat, size: nat, n: nat, i: nat, at: nat)
    requires 0 < size && t < n * size && i == t / size && at == i * size
    ensures i < n && at <= t < at + size
  {
    assert t == i * size + t % size;
    if i >= n {
      MulMono(n, i, size);
    }
  }

  lemma SlotOf(t: nat, size: nat, n: nat) returns (i: nat, at: nat)
    requires 0 < size && t < n * size
    ensures i < n && at == i * size && at <= t < at + size
  {
    i := t / size;
    at := i * size;
    InSlot(t, size, n, i, at);
  }

  lemma ByteOnce(ebs: seq<Option<Eb>>, vol: nat, lebSize: nat, u: seq<byte>, v: seq<byte>, n: nat, t: nat)
    requires 0 < lebSize && IsVolume(ebs, vol, lebSize, u, n) && IsVolume(ebs, vol, lebSize, v, n) && t < |u|
    ensures |u| == |v| && u[t] == v[t]
  {
    var i, at := SlotOf(t, lebSize, n);
    SlotOnce(ebs, vol, lebSize, u, v, n, i, at, t);
  }

  /** The volume is determined by what the erase blocks hold. */
  lemma VolumeOnce(ebs: seq<Option<Eb>>, vol: nat, lebSize: nat, u: seq<byte>, n: nat, v: seq<byte>, m: nat)
    requires 0 < lebSize && IsVolume(ebs, vol, lebSize, u, n) && IsVolume(ebs, vol, lebSize, v, m)
    ensures u == v && n == m
  {
    NotShorter(ebs, vol, lebSize, u, n, v, m);
    NotShorter(ebs, vol, lebSize, v, m, u, n);
    var size := |u|;
    forall t: nat | t < size
      ensures |v| == size && u[t] == v[t]
    {
      ByteOnce(ebs, vol, lebSize, u, v, n, t);
    }
  }

  // ---------------------------------------------------------------- a builder

  /** Byte `k` of a big-endian number of four bytes. */
  function Digit(n: nat, k: nat): byte {
    if k == 0 then Octet(n / 0x100_0000) else if k == 1 then Octet(n / 0x1_0000) else if k == 2 then Octet(n / 0x100)
    else Octet(n)
  }

  /** Byte `i` of an erase block with its volume header at `vid`; bytes without a meaning here are zero. */
  function PebByte(pebSize: nat, vid: nat, e: Eb, i: nat): byte
    requires i < pebSize
  {
    if i >= pebSize - |e.data| then e.data[i - (pebSize - |e.data|)]
    else if i < 4 then [0x55, 0x42, 0x49, 0x23][i]
    else if 16 <= i < 20 then Digit(vid, i - 16)
    else if 20 <= i < 24 then Digit(pebSize - |e.data|, i - 20)
    else if vid <= i < vid + 4 then [0x55, 0x42, 0x49, 0x21][i - vid]
    else if vid + 8 <= i < vid + 12 then Digit(e.vol, i - vid - 8)
    else if vid + 12 <= i < vid + 16 then Digit(e.lnum, i - vid - 12)
    else 0
  }

  function BuildPeb(pebSize: nat, vid: nat, e: Eb): (b: seq<byte>)
    ensures |b| == pebSize
  {
    seq(pebSize, i requires 0 <= i < pebSize => PebByte(pebSize, vid, e, i))
  }

  /** The numbers fit their four bytes, and the parts do not overlap. */
  predicate Buildable(pebSize: nat, vid: nat, e: Eb) {
    && 64 <= vid && vid + 64 + |e.data| <= pebSize < 0x1_0000_0000 && e.vol < 0x1_0000_0000 && e.lnum < 0x1_0000_0000
  }

  lemma DigitsNumber(n: nat)
    requires n < 0x1_0000_0000
    ensures Number(Digit(n, 0), Digit(n, 1), Digit(n, 2), Digit(n, 3)) == n
  {
    OctetValue(n / 0x100_0000);
    OctetValue(n / 0x1_0000);
    OctetValue(n / 0x100);
    OctetValue(n);
    FourDigits(n, n / 0x100_0000 % 0x100, n / 0x1_0000 % 0x100, n / 0x100 % 0x100, n % 0x100);
  }

  lemma FourDigits(n: nat, a: nat, b: nat, c: nat, d: nat)
    requires n < 0x1_0000_0000
    requires a == n / 0x100_0000 % 0x100 && b == n / 0x1_0000 % 0x100 && c == n / 0x100 % 0x100 && d == n % 0x100
    ensures a * 0x100_0000 + b * 0x1_0000 + c * 0x100 + d == n
  {
    var x, y, z := n / 0x100, n / 0x1_0000, n / 0x100_0000;
    assert y == x / 0x100 && z == y / 0x100;
    assert x == 0x100 * y + c && y == 0x100 * z + b && n == 0x100 * x + d && z == a;
  }

  lemma BuiltNumber(b: seq<byte>, at: nat, n: nat)
    requires at + 4 <= |b| && n < 0x1_0000_0000
    requires b[at] == Digit(n, 0) && b[at + 1] == Digit(n, 1) && b[at + 2] == Digit(n, 2) && b[at + 3] == Digit(n, 3)
    ensures HasNumber(b, at, n)
  {
    DigitsNumber(n);
  }

  lemma BuiltEc(pebSize: nat, vid: nat, e: Eb, b: seq<byte>)
    requires Buildable(pebSize, vid, e) && b == BuildPeb(pebSize, vid, e)
    ensures HasNumber(b, 16, vid) && HasNumber(b, 20, pebSize - |e.data|)
  {
    BuiltNumber(b, 16, vid);
    BuiltNumber(b, 20, pebSize - |e.data|);
  }

  lemma BuiltVid(pebSize: nat, vid: nat, e: Eb, b: seq<byte>)
    requires Buildable(pebSize, vid, e) && b == BuildPeb(pebSize, vid, e)
    ensures HasNumber(b, vid + 8, e.vol) && HasNumber(b, vid + 12, e.lnum)
  {
    BuiltNumber(b, vid + 8, e.vol);
    BuiltNumber(b, vid + 12, e.lnum);
  }

  /** What is built is laid out as it should be. */
  lemma BuiltIsPeb(pebSize: nat, vid: nat, e: Eb)
    requires Buildable(pebSize, vid, e)
    ensures IsPeb(BuildPeb(pebSize, vid, e), pebSize, vid, e)
  {
    var b := BuildPeb(pebSize, vid, e);
    BuiltEc(pebSize, vid, e, b);
    BuiltVid(pebSize, vid, e, b);
    assert b[pebSize - |e.data|..] == e.data;
    assert HasBytes(b, vid, 0x55, 0x42, 0x49, 0x21) && InUse(b);
  }

  /** The image of a list of logical blocks. */
  function Build(pebSize: nat, vid: nat, es: seq<Eb>): seq<seq<byte>> {
    seq(|es|, k requires 0 <= k < |es| => BuildPeb(pebSize, vid, es[k]))
  }

  function Used(es: seq<Eb>): (ebs: seq<Option<Eb>>)
    ensures |ebs| == |es| && forall k | 0 <= k < |es| :: ebs[k] == Some(es[k])
  {
    seq(|es|, k requires 0 <= k < |es| => Some(es[k]))
  }

  lemma BuiltIsImage(pebSize: nat, vid: nat, es: seq<Eb>)
    requires forall k | 0 <= k < |es| :: Buildable(pebSize, vid, es[k])
    ensures IsImage(Build(pebSize, vid, es), pebSize, Used(es))
  {
    forall k | 0 <= k < |es|
      ensures IsBlock(Build(pebSize, vid, es)[k], pebSize, Used(es)[k])
    {
      BuiltIsPeb(pebSize, vid, es[k]);
    }
  }

  /** Building an image and extracting a volume gives the volume back. */
  lemma BuildExtract(pebSize: nat, vid: nat, es: seq<Eb>, vol: nat, lebSize: nat) returns (n: nat)
    requires HdrSize <= pebSize && forall k | 0 <= k < |es| :: Buildable(pebSize, vid, es[k])
    requires Consistent(Used(es), vol, lebSize)
    ensures Right(Used(es), vol, lebSize, Extract(Join(Build(pebSize, vid, es)), pebSize, vol), n)
  {
    BuiltIsImage(pebSize, vid, es);
    n := ExtractsVolume(Build(pebSize, vid, es), pebSize, Used(es), vol, lebSize);
  }
}
