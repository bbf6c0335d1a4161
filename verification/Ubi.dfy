/**
  Rebuilding a UBI volume from the physical erase blocks of a raw image (src/defib/ubi.py:17-133).
 */
module Ubi {
  import opened Bytes
  import opened Octets

  const EcMagic: seq<byte> := [0x55, 0x42, 0x49, 0x23]
  const VidMagic: seq<byte> := [0x55, 0x42, 0x49, 0x21]
  const UbifsMagic: seq<byte> := [0x31, 0x18, 0x10, 0x06]
  const HdrSize: nat := 64

  datatype Result = Ok(ubifs: seq<byte>) | NotUbi | VolumeNotFound | NotUbifs

  function WordAt(s: seq<byte>, at: nat): nat
    requires at + 4 <= |s|
  {
    BeWord(s[at], s[at + 1], s[at + 2], s[at + 3])
  }

  function Leading(s: seq<byte>): seq<byte> {
    s[..Min(|s|, 4)]
  }

  predicate HasMagic(s: seq<byte>, at: nat, magic: seq<byte>)
    requires at + 4 <= |s|
  {
    s[at..at + 4] == magic
  }

  /** One erase block: its logical number and data, if it belongs to the volume. */
  function Leb(image: seq<byte>, off: nat, pebSize: nat, volId: nat): Option<(nat, seq<byte>)>
    requires HdrSize <= pebSize && off + pebSize <= |image|
  {
    if !HasMagic(image, off, EcMagic) then None
    else LebAt(image, off + WordAt(image, off + 16), off + WordAt(image, off + 20), off + pebSize, volId)
  }

  /** The same, once the erase-counter header has named the places of the volume header and the data. */
  function LebAt(image: seq<byte>, vidOff: nat, dataOff: nat, end: nat, volId: nat): Option<(nat, seq<byte>)>
    requires end <= |image|
  {
    if vidOff + HdrSize > |image| then None
    else if !HasMagic(image, vidOff, VidMagic) then None
    else if WordAt(image, vidOff + 8) != volId then None
    else Some((WordAt(image, vidOff + 12), Span(image, dataOff, end)))
  }

  function Span(s: seq<byte>, from: nat, to: nat): seq<byte>
    requires to <= |s|
  {
    if from >= to then [] else s[from..to]
  }

  /** A Python dictionary: keys in the order of their first insertion. */
  datatype Dict = Dict(keys: seq<nat>, m: map<nat, seq<byte>>) {
    function Put(k: nat, v: seq<byte>): Dict {
      Dict(if k in m then keys else keys + [k], m[k := v])
    }

    ghost predicate Valid() {
      forall k :: k in keys <==> k in m
    }
  }

  function PutLeb(d: Dict, leb: Option<(nat, seq<byte>)>): Dict {
    match leb
    case None => d
    case Some(l) => d.Put(l.0, l.1)
  }

  function Slot(m: map<nat, seq<byte>>, lebSize: nat, i: nat): seq<byte> {
    if i in m then m[i] else Fill(lebSize, 0xFF)
  }

  /** The first `n` logical blocks; a missing one reads as erased. */
  function Assembled(m: map<nat, seq<byte>>, lebSize: nat, n: nat): seq<byte> {
    if n == 0 then [] else Assembled(m, lebSize, n - 1) + Slot(m, lebSize, n - 1)
  }

  function Trim(r: seq<byte>, lebSize: nat): seq<byte>
    decreases |r|
  {
    if lebSize > 0 && |r| > lebSize && r[|r| - lebSize..] == Fill(lebSize, 0xFF) then Trim(r[..|r| - lebSize], lebSize)
    else r
  }

  function MaxKey(keys: seq<nat>): nat {
    if keys == [] then 0 else
    var m := MaxKey(keys[..|keys| - 1]);
    if keys[|keys| - 1] > m then keys[|keys| - 1] else m
  }

  function Volume(d: Dict): seq<byte>
    requires d.Valid() && d.keys != []
  {
    var lebSize := |d.m[d.keys[0]]|;
    Trim(Assembled(d.m, lebSize, MaxKey(d.keys) + 1), lebSize)
  }

  /** The dictionary after the first `n` erase blocks. */
  function Collect(image: seq<byte>, pebSize: nat, volId: nat, n: nat): (d: Dict)
    requires HdrSize <= pebSize && n * pebSize <= |image|
    ensures d.Valid()
  {
    if n == 0 then Dict([], map[])
    else
      var d := Collect(image, pebSize, volId, n - 1);
      PutLeb(d, Leb(image, (n - 1) * pebSize, pebSize, volId))
  }

  function Extract(image: seq<byte>, pebSize: nat, volId: nat): Result
    requires HdrSize <= pebSize
  {
    if Leading(image) != EcMagic then NotUbi
    else
      var d := Collect(image, pebSize, volId, |image| / pebSize);
      if d.keys == [] then VolumeNotFound
      else if Leading(Volume(d)) != UbifsMagic then NotUbifs
      else Ok(Volume(d))
  }

  // ---------------------------------------------------------------- the Python code

  lemma BlockFits(n: nat, size: nat, pebSize: nat)
    requires 0 < pebSize && n <= size / pebSize
    ensures n * pebSize <= size
  {
    MulMono(n, size / pebSize, pebSize);
  }

  lemma NextBlock(image: seq<byte>, pebSize: nat, volId: nat, k: nat)
    requires HdrSize <= pebSize && (k + 1) * pebSize <= |image|
    ensures k * pebSize + pebSize == (k + 1) * pebSize
    ensures Collect(image, pebSize, volId, k + 1)
            == PutLeb(Collect(image, pebSize, volId, k), Leb(image, k * pebSize, pebSize, volId))
  {
  }

  /** `lebs` holds the first `k` blocks. */
  ghost predicate Collected(image: seq<byte>, pebSize: nat, volId: nat, k: nat, lebs: Dict) {
    HdrSize <= pebSize && k * pebSize <= |image| && lebs == Collect(image, pebSize, volId, k)
  }

  lemma CollectedNext(image: seq<byte>, pebSize: nat, volId: nat, k: nat, off: nat, lebs: Dict)
    requires Collected(image, pebSize, volId, k, lebs) && k < |image| / pebSize && off == k * pebSize
    ensures off + pebSize <= |image|
    ensures Collected(image, pebSize, volId, k + 1, PutLeb(lebs, Leb(image, off, pebSize, volId)))
  {
    BlockFits(k + 1, |image|, pebSize);
    NextBlock(image, pebSize, volId, k);
  }

  /** The loop over erase blocks. */
  method CollectLebs(image: seq<byte>, pebSize: nat, volId: nat) returns (lebs: Dict)
    requires HdrSize <= pebSize
    ensures |image| / pebSize * pebSize <= |image| && lebs == Collect(image, pebSize, volId, |image| / pebSize)
  {
    lebs := Dict([], map[]);
    var numPebs := |image| / pebSize;
    for k := 0 to numPebs
      invariant Collected(image, pebSize, volId, k, lebs)
    {
      var pebOff := k * pebSize;
      CollectedNext(image, pebSize, volId, k, pebOff, lebs);
      lebs := CollectLeb(lebs, image, pebOff, pebSize, volId);
    }
  }

  lemma LebNone(image: seq<byte>, off: nat, pebSize: nat, volId: nat)
    requires HdrSize <= pebSize && off + pebSize <= |image| && !HasMagic(image, off, EcMagic)
    ensures Leb(image, off, pebSize, volId) == None
  {
  }

  lemma LebSome(image: seq<byte>, off: nat, pebSize: nat, volId: nat, vid: nat, data: nat)
    requires HdrSize <= pebSize && off + pebSize <= |image| && HasMagic(image, off, EcMagic)
    requires vid == WordAt(image, off + 16) && data == WordAt(image, off + 20)
    ensures Leb(image, off, pebSize, volId) == LebAt(image, off + vid, off + data, off + pebSize, volId)
  {
  }

  /** One turn of it. */
  method CollectLeb(lebs: Dict, image: seq<byte>, pebOff: nat, pebSize: nat, volId: nat) returns (lebs': Dict)
    requires HdrSize <= pebSize && pebOff + pebSize <= |image|
    ensures lebs' == PutLeb(lebs, Leb(image, pebOff, pebSize, volId))
  {
    if !HasMagic(image, pebOff, EcMagic) {
      LebNone(image, pebOff, pebSize, volId);
      return lebs;
    }
    var peb, data := WordAt(image, pebOff + 16), WordAt(image, pebOff + 20);
    LebSome(image, pebOff, pebSize, volId, peb, data);
    lebs' := CollectVid(lebs, image, pebOff + peb, pebOff + data, pebOff + pebSize, volId);
  }

  /** The part that depends on the volume header. */
  method CollectVid(lebs: Dict, image: seq<byte>, vidOff: nat, dataOff: nat, end: nat, volId: nat) returns (lebs': Dict)
    requires end <= |image|
    ensures lebs' == PutLeb(lebs, LebAt(image, vidOff, dataOff, end, volId))
  {
    if vidOff + HdrSize > |image| || !HasMagic(image, vidOff, VidMagic) {
      return lebs;
    }
    var pebVolId, lnum := WordAt(image, vidOff + 8), WordAt(image, vidOff + 12);
    if pebVolId != volId {
      return lebs;
    }
    lebs' := lebs.Put(lnum, Span(image, dataOff, end));
  }

  method MaxOf(keys: seq<nat>) returns (m: nat)
    ensures m == MaxKey(keys)
  {
    m := 0;
    for i := 0 to |keys|
      invariant m == MaxKey(keys[..i])
    {
      assert keys[..i + 1][..i] == keys[..i];
      if keys[i] > m {
        m := keys[i];
      }
    }
    assert keys[..|keys|] == keys;
  }

  /** Assembly in order of logical blocks. */
  method Assemble(m: map<nat, seq<byte>>, lebSize: nat, n: nat) returns (result: seq<byte>)
    ensures result == Assembled(m, lebSize, n)
  {
    result := [];
    for i := 0 to n
      invariant result == Assembled(m, lebSize, i)
    {
      result := result + (if i in m then m[i] else Fill(lebSize, 0xFF));
    }
  }

  method TrimTail(whole: seq<byte>, lebSize: nat) returns (result: seq<byte>)
    ensures result == Trim(whole, lebSize)
  {
    result := whole;
    while lebSize > 0 && |result| > lebSize && result[|result| - lebSize..] == Fill(lebSize, 0xFF)
      invariant Trim(result, lebSize) == Trim(whole, lebSize)
      decreases |result|
    {
      result := result[..|result| - lebSize];
    }
  }

  method BuildVolume(lebs: Dict) returns (result: seq<byte>)
    requires lebs.Valid() && lebs.keys != []
    ensures result == Volume(lebs)
  {
    var maxLeb := MaxOf(lebs.keys);
    var lebSize := |lebs.m[lebs.keys[0]]|;
    result := Assemble(lebs.m, lebSize, maxLeb + 1);
    result := TrimTail(result, lebSize);
  }

  /** `extract_ubifs` */
  method ExtractUbifs(image: seq<byte>, pebSize: nat, volId: nat) returns (r: Result)
    requires HdrSize <= pebSize
    ensures r == Extract(image, pebSize, volId)
  {
    if Leading(image) != EcMagic {
      return NotUbi;
    }
    var lebs := CollectLebs(image, pebSize, volId);
    if lebs.keys == [] {
      return VolumeNotFound;
    }
    var result := BuildVolume(lebs);
    r := if Leading(result) != UbifsMagic then NotUbifs else Ok(result);
  }

  // ---------------------------------------------------------------- what the volume is

  /** Every block of the volume has the same size. */
  ghost predicate Uniform(m: map<nat, seq<byte>>, lebSize: nat) {
    0 < lebSize && forall k | k in m :: |m[k]| == lebSize
  }

  lemma {:induction false} AssembledLength(m: map<nat, seq<byte>>, lebSize: nat, n: nat)
    requires Uniform(m, lebSize)
    ensures |Assembled(m, lebSize, n)| == n * lebSize
  {
    if n > 0 {
      AssembledLength(m, lebSize, n - 1);
      assert n * lebSize == (n - 1) * lebSize + lebSize;
    }
  }

  /** Logical block `i` is where it belongs: its data, or 0xFF in a gap. */
  lemma {:induction false} AssembledSlot(m: map<nat, seq<byte>>, lebSize: nat, n: nat, i: nat)
    requires Uniform(m, lebSize) && i < n
    ensures i * lebSize + lebSize <= |Assembled(m, lebSize, n)|
    ensures Assembled(m, lebSize, n)[i * lebSize..i * lebSize + lebSize] == Slot(m, lebSize, i)
  {
    if i < n - 1 {
      AssembledSlot(m, lebSize, n - 1, i);
      SliceOfAppend(Assembled(m, lebSize, n - 1), Slot(m, lebSize, n - 1), i * lebSize, lebSize);
    } else {
      AssembledLength(m, lebSize, i);
      LastOfAppend(Assembled(m, lebSize, i), Slot(m, lebSize, i), i * lebSize, lebSize);
    }
  }

  lemma SliceOfAppend(a: seq<byte>, b: seq<byte>, at: nat, n: nat)
    requires at + n <= |a|
    ensures (a + b)[at..at + n] == a[at..at + n]
  {
  }

  lemma LastOfAppend(a: seq<byte>, b: seq<byte>, at: nat, n: nat)
    requires at == |a| && n == |b|
    ensures (a + b)[at..at + n] == b
  {
  }

  /** `n` is what remains of `total` blocks when exactly the erased ones at the end, but never the first, are dropped. */
  ghost predicate Trimmed(m: map<nat, seq<byte>>, lebSize: nat, total: nat, n: nat) {
    && 1 <= n <= total
    && (n == 1 || Slot(m, lebSize, n - 1) != Fill(lebSize, 0xFF))
    && forall i | n <= i < total :: Slot(m, lebSize, i) == Fill(lebSize, 0xFF)
  }

  lemma TrimStep(head: seq<byte>, slot: seq<byte>, lebSize: nat)
    requires 0 < lebSize == |slot| && head != []
    ensures Trim(head + slot, lebSize) == if slot == Fill(lebSize, 0xFF) then Trim(head, lebSize) else head + slot
  {
    var r := head + slot;
    assert r[|r| - lebSize..] == slot && r[..|r| - lebSize] == head;
  }

  lemma TrimOne(m: map<nat, seq<byte>>, lebSize: nat, n: nat)
    requires Uniform(m, lebSize) && 1 <= n
    ensures Trim(Assembled(m, lebSize, n + 1), lebSize)
            == if Slot(m, lebSize, n) == Fill(lebSize, 0xFF) then Trim(Assembled(m, lebSize, n), lebSize)
               else Assembled(m, lebSize, n + 1)
  {
    AssembledLength(m, lebSize, n);
    MulMono(1, n, lebSize);
    TrimStep(Assembled(m, lebSize, n), Slot(m, lebSize, n), lebSize);
  }

  lemma TrimFirst(m: map<nat, seq<byte>>, lebSize: nat)
    requires Uniform(m, lebSize)
    ensures Trim(Assembled(m, lebSize, 1), lebSize) == Assembled(m, lebSize, 1)
  {
    AssembledLength(m, lebSize, 1);
  }

  /** The first `total` blocks, trimmed, are the first `n`. */
  ghost predicate TrimsTo(m: map<nat, seq<byte>>, lebSize: nat, total: nat, n: nat) {
    forall t: nat, k: nat | IsNat(t, total) && IsNat(k, n) ::
      Trim(Assembled(m, lebSize, t), lebSize) == Assembled(m, lebSize, k)
  }

  lemma TrimsNext(m: map<nat, seq<byte>>, lebSize: nat, total: nat, n: nat)
    requires Uniform(m, lebSize) && 1 <= total
    requires if Slot(m, lebSize, total) == Fill(lebSize, 0xFF) then TrimsTo(m, lebSize, total, n) else n == total + 1
    ensures TrimsTo(m, lebSize, total + 1, n)
  {
    assert IsNat(total, total) && IsNat(n, n);
    TrimOne(m, lebSize, total);
  }

  lemma TrimsOne(m: map<nat, seq<byte>>, lebSize: nat)
    requires Uniform(m, lebSize)
    ensures TrimsTo(m, lebSize, 1, 1)
  {
    TrimFirst(m, lebSize);
  }

  lemma {:induction false} TrimExact(m: map<nat, seq<byte>>, lebSize: nat, total: nat) returns (n: nat)
    requires Uniform(m, lebSize) && 1 <= total
    ensures Trimmed(m, lebSize, total, n) && TrimsTo(m, lebSize, total, n)
  {
    n := total;
    if total == 1 {
      TrimsOne(m, lebSize);
    } else {
      if Slot(m, lebSize, total - 1) == Fill(lebSize, 0xFF) {
        n := TrimExact(m, lebSize, total - 1);
      }
      TrimsNext(m, lebSize, total - 1, n);
    }
  }

  // ---------------------------------------------------------------- the order of the erase blocks

  function PebAt(image: seq<byte>, pebSize: nat, k: nat): (b: seq<byte>)
    requires k * pebSize + pebSize <= |image|
    ensures |b| == pebSize
  {
    image[k * pebSize..k * pebSize + pebSize]
  }

  /** The block's volume header lies inside the block. */
  predicate SelfContained(b: seq<byte>) {
    |b| >= HdrSize && (b[..4] == EcMagic ==> WordAt(b, 16) + HdrSize <= |b|)
  }

  lemma SliceAt(image: seq<byte>, off: nat, size: nat, i: nat, j: nat)
    requires off + size <= |image| && i <= j <= size
    ensures image[off..off + size][i..j] == image[off + i..off + j]
  {
    var l, r := image[off..off + size][i..j], image[off + i..off + j];
    assert |l| == |r| && forall k | 0 <= k < |l| :: l[k] == r[k];
  }

  lemma WordAtSlice(image: seq<byte>, off: nat, size: nat, i: nat)
    requires off + size <= |image| && i + 4 <= size
    ensures WordAt(image[off..off + size], i) == WordAt(image, off + i)
  {
  }

  lemma SpanAt(image: seq<byte>, off: nat, size: nat, from: nat)
    requires off + size <= |image|
    ensures Span(image[off..off + size], from, size) == Span(image, off + from, off + size)
  {
    if from < size {
      SliceAt(image, off, size, from, size);
    }
  }

  lemma BodyIsOwn(image: seq<byte>, off: nat, pebSize: nat, volId: nat, vid: nat, data: nat, b: seq<byte>)
    requires off + pebSize <= |image| && vid + HdrSize <= pebSize && b == image[off..off + pebSize]
    ensures LebAt(image, off + vid, off + data, off + pebSize, volId) == LebAt(b, vid, data, pebSize, volId)
  {
    SliceAt(image, off, pebSize, vid, vid + 4);
    WordAtSlice(image, off, pebSize, vid + 8);
    WordAtSlice(image, off, pebSize, vid + 12);
    SpanAt(image, off, pebSize, data);
  }

  lemma HeaderIsOwn(image: seq<byte>, off: nat, pebSize: nat, b: seq<byte>)
    requires HdrSize <= pebSize && off + pebSize <= |image| && b == image[off..off + pebSize]
    ensures image[off..off + 4] == b[0..4] == b[..4]
    ensures WordAt(image, off + 16) == WordAt(b, 16) && WordAt(image, off + 20) == WordAt(b, 20)
  {
    SliceAt(image, off, pebSize, 0, 4);
    WordAtSlice(image, off, pebSize, 16);
    WordAtSlice(image, off, pebSize, 20);
  }

  /** What a self-contained block contributes does not depend on where it is. */
  lemma LebIsOwn(image: seq<byte>, off: nat, pebSize: nat, volId: nat, b: seq<byte>)
    requires HdrSize <= pebSize && off + pebSize <= |image| && b == image[off..off + pebSize] && SelfContained(b)
    ensures Leb(image, off, pebSize, volId) == Leb(b, 0, pebSize, volId)
  {
    HeaderIsOwn(image, off, pebSize, b);
    var vid, data := WordAt(b, 16), WordAt(b, 20);
    LebUnfold(image, off, pebSize, volId, vid, data);
    LebUnfold(b, 0, pebSize, volId, vid, data);
    if b[..4] == EcMagic {
      BodyIsOwn(image, off, pebSize, volId, vid, data, b);
    }
  }

  lemma LebUnfold(image: seq<byte>, off: nat, pebSize: nat, volId: nat, vid: nat, data: nat)
    requires HdrSize <= pebSize && off + pebSize <= |image|
    requires vid == WordAt(image, off + 16) && data == WordAt(image, off + 20)
    ensures Leb(image, off, pebSize, volId)
            == if !HasMagic(image, off, EcMagic) then None else LebAt(image, off + vid, off + data, off + pebSize, volId)
  {
  }

  /** What one erase block contributes. */
  function LebOf(image: seq<byte>, pebSize: nat, volId: nat, k: nat): Option<(nat, seq<byte>)>
    requires HdrSize <= pebSize && (k + 1) * pebSize <= |image|
  {
    Leb(image, k * pebSize, pebSize, volId)
  }

  /** Blocks of one logical number, among the first `n`, hold the same data. */
  ghost predicate Agreeing(image: seq<byte>, pebSize: nat, volId: nat, n: nat)
    requires HdrSize <= pebSize && n * pebSize <= |image|
  {
    forall i, j | 0 <= i < j < n :: !Clash(image, pebSize, volId, i, j)
  }

  /** Blocks `i` and `j` are copies of one logical block and differ. */
  predicate Clash(image: seq<byte>, pebSize: nat, volId: nat, i: nat, j: nat)
    requires HdrSize <= pebSize
  {
    && (i + 1) * pebSize <= |image| && (j + 1) * pebSize <= |image|
    && LebOf(image, pebSize, volId, i).Some? && LebOf(image, pebSize, volId, j).Some?
    && LebOf(image, pebSize, volId, i).value.0 == LebOf(image, pebSize, volId, j).value.0
    && LebOf(image, pebSize, volId, i).value.1 != LebOf(image, pebSize, volId, j).value.1
  }

  /** Block `i` is among the first `n` and contributes `data` as logical block `lnum`. */
  predicate Contributes(image: seq<byte>, pebSize: nat, volId: nat, n: nat, i: nat, lnum: nat, data: seq<byte>)
    requires HdrSize <= pebSize
  {
    i < n && (i + 1) * pebSize <= |image| && LebOf(image, pebSize, volId, i) == Some((lnum, data))
  }

  /** The dictionary holds exactly what the blocks contribute. */
  ghost predicate Gathers(d: Dict, image: seq<byte>, pebSize: nat, volId: nat, n: nat)
    requires HdrSize <= pebSize
  {
    && (forall i: nat, lnum: nat, data | Contributes(image, pebSize, volId, n, i, lnum, data) ::
          lnum in d.m && d.m[lnum] == data)
    && (forall lnum: nat | lnum in d.m :: exists i: nat :: Contributes(image, pebSize, volId, n, i, lnum, d.m[lnum]))
  }

  lemma {:induction false} CollectGathers(image: seq<byte>, pebSize: nat, volId: nat, n: nat)
    requires HdrSize <= pebSize && n * pebSize <= |image| && Agreeing(image, pebSize, volId, n)
    ensures Gathers(Collect(image, pebSize, volId, n), image, pebSize, volId, n)
  {
    if n > 0 {
      MulMono(n - 1, n, pebSize);
      CollectGathers(image, pebSize, volId, n - 1);
      NextBlock(image, pebSize, volId, n - 1);
      GathersOne(Collect(image, pebSize, volId, n - 1), image, pebSize, volId, n - 1, n);
    }
  }

  /** One more block: what was there, and what it adds, is in the dictionary. */
  lemma GathersAll(d: Dict, image: seq<byte>, pebSize: nat, volId: nat, n: nat, n': nat)
    requires HdrSize <= pebSize && n' == n + 1 && n' * pebSize <= |image| && Agreeing(image, pebSize, volId, n')
    requires Gathers(d, image, pebSize, volId, n)
    ensures var m' := PutLeb(d, LebOf(image, pebSize, volId, n)).m;
            forall i: nat, lnum: nat, data | Contributes(image, pebSize, volId, n', i, lnum, data) ::
              lnum in m' && m'[lnum] == data
  {
    var m' := PutLeb(d, LebOf(image, pebSize, volId, n)).m;
    forall i: nat, lnum: nat, data | Contributes(image, pebSize, volId, n', i, lnum, data)
      ensures lnum in m' && m'[lnum] == data
    {
      if i < n {
        assert Contributes(image, pebSize, volId, n, i, lnum, data);
        assert !Clash(image, pebSize, volId, i, n);
      }
    }
  }

  /** And nothing else is. */
  lemma GathersOnly(d: Dict, image: seq<byte>, pebSize: nat, volId: nat, n: nat, n': nat, lnum: nat)
    requires HdrSize <= pebSize && n' == n + 1 && n' * pebSize <= |image|
    requires Gathers(d, image, pebSize, volId, n) && lnum in PutLeb(d, LebOf(image, pebSize, volId, n)).m
    ensures exists i: nat :: Contributes(image, pebSize, volId, n', i, lnum,
                                         PutLeb(d, LebOf(image, pebSize, volId, n)).m[lnum])
  {
    var leb := LebOf(image, pebSize, volId, n);
    var m' := PutLeb(d, leb).m;
    if leb.Some? && leb.value.0 == lnum {
      assert Contributes(image, pebSize, volId, n', n, lnum, m'[lnum]);
    } else {
      var i: nat :| Contributes(image, pebSize, volId, n, i, lnum, d.m[lnum]);
      assert Contributes(image, pebSize, volId, n', i, lnum, m'[lnum]);
    }
  }

  lemma GathersOne(d: Dict, image: seq<byte>, pebSize: nat, volId: nat, n: nat, n': nat)
    requires HdrSize <= pebSize && n' == n + 1 && n' * pebSize <= |image| && Agreeing(image, pebSize, volId, n')
    requires d.Valid() && Gathers(d, image, pebSize, volId, n)
    ensures Gathers(PutLeb(d, LebOf(image, pebSize, volId, n)), image, pebSize, volId, n')
  {
    GathersAll(d, image, pebSize, volId, n, n');
    forall lnum: nat | lnum in PutLeb(d, LebOf(image, pebSize, volId, n)).m
      ensures exists i: nat :: Contributes(image, pebSize, volId, n', i, lnum,
                                           PutLeb(d, LebOf(image, pebSize, volId, n)).m[lnum])
    {
      GathersOnly(d, image, pebSize, volId, n, n', lnum);
    }
  }

  /** The largest key, whatever the order they came in. */
  lemma {:induction false} MaxKeyIs(keys: seq<nat>)
    requires keys != []
    ensures MaxKey(keys) in keys && forall k | k in keys :: k <= MaxKey(keys)
  {
    var rest := keys[..|keys| - 1];
    assert keys == rest + [keys[|keys| - 1]];
    if rest != [] {
      MaxKeyIs(rest);
    }
  }

  lemma SomeKey(d: Dict, e: Dict)
    requires d.Valid() && e.Valid() && d.m == e.m && d.keys != []
    ensures e.keys != []
  {
    assert d.keys[0] in d.keys;
    assert d.keys[0] in e.keys;
  }

  /** The volume depends on the contents of the dictionary only, when all its blocks have one size. */
  lemma SameVolume(d: Dict, e: Dict, lebSize: nat)
    requires d.Valid() && e.Valid() && d.m == e.m && Uniform(d.m, lebSize)
    ensures d.keys == [] <==> e.keys == []
    ensures d.keys != [] ==> Volume(d) == Volume(e)
  {
    if d.keys != [] { SomeKey(d, e); }
    if e.keys != [] { SomeKey(e, d); }
    if d.keys != [] {
      MaxKeyIs(d.keys);
      MaxKeyIs(e.keys);
      assert d.keys[0] in d.m && e.keys[0] in e.m;
    }
  }

  /** `p` says where each block of `a` is in `b`, and `q` where each block of `b` is in `a`. */
  ghost predicate Shuffled(a: seq<byte>, b: seq<byte>, pebSize: nat, p: seq<nat>, q: seq<nat>)
    requires 0 < pebSize
  {
    && |p| == |q| == |a| / pebSize == |b| / pebSize
    && (forall i | 0 <= i < |p| :: p[i] < |q| && q[p[i]] == i && SameBlock(a, b, pebSize, i, p[i]))
    && (forall k | 0 <= k < |q| :: q[k] < |p| && p[q[k]] == k)
  }

  ghost predicate SameBlock(a: seq<byte>, b: seq<byte>, pebSize: nat, i: nat, j: nat) {
    && (i + 1) * pebSize <= |a| && (j + 1) * pebSize <= |b|
    && i * pebSize + pebSize <= |a| && j * pebSize + pebSize <= |b|
    && PebAt(a, pebSize, i) == PebAt(b, pebSize, j) && SelfContained(PebAt(a, pebSize, i))
  }

  lemma SameLeb(a: seq<byte>, b: seq<byte>, pebSize: nat, volId: nat, i: nat, j: nat)
    requires HdrSize <= pebSize && SameBlock(a, b, pebSize, i, j)
    ensures LebOf(a, pebSize, volId, i) == LebOf(b, pebSize, volId, j)
  {
    LebIsOwn(a, i * pebSize, pebSize, volId, PebAt(a, pebSize, i));
    LebIsOwn(b, j * pebSize, pebSize, volId, PebAt(b, pebSize, j));
  }

  /** A contribution moves with its block. */
  lemma Moves(a: seq<byte>, b: seq<byte>, pebSize: nat, volId: nat, p: seq<nat>, q: seq<nat>, n: nat,
              i: nat, lnum: nat, data: seq<byte>)
    requires HdrSize <= pebSize && Shuffled(a, b, pebSize, p, q) && n == |p|
    requires Contributes(a, pebSize, volId, n, i, lnum, data)
    ensures Contributes(b, pebSize, volId, n, p[i], lnum, data)
  {
    SameLeb(a, b, pebSize, volId, i, p[i]);
  }

  lemma Unshuffled(a: seq<byte>, b: seq<byte>, pebSize: nat, p: seq<nat>, q: seq<nat>)
    requires 0 < pebSize && Shuffled(a, b, pebSize, p, q)
    ensures Shuffled(b, a, pebSize, q, p)
  {
    forall k | 0 <= k < |q|
      ensures SameBlock(b, a, pebSize, k, q[k])
    {
      assert SameBlock(a, b, pebSize, q[k], p[q[k]]);
    }
  }

  lemma ClashMoves(a: seq<byte>, b: seq<byte>, pebSize: nat, volId: nat, i: nat, j: nat, i': nat, j': nat)
    requires HdrSize <= pebSize && SameBlock(a, b, pebSize, i, i') && SameBlock(a, b, pebSize, j, j')
    ensures Clash(a, pebSize, volId, i, j) ==> Clash(b, pebSize, volId, i', j') && Clash(b, pebSize, volId, j', i')
  {
    SameLeb(a, b, pebSize, volId, i, i');
    SameLeb(a, b, pebSize, volId, j, j');
  }

  lemma NoClashMoves(a: seq<byte>, b: seq<byte>, pebSize: nat, volId: nat, n: nat, i: nat, j: nat, i': nat, j': nat)
    requires HdrSize <= pebSize && n * pebSize <= |a| && Agreeing(a, pebSize, volId, n)
    requires i' < n && j' < n && i' != j' && SameBlock(b, a, pebSize, i, i') && SameBlock(b, a, pebSize, j, j')
    ensures !Clash(b, pebSize, volId, i, j)
  {
    ClashMoves(b, a, pebSize, volId, i, j, i', j');
    if i' < j' {
      assert !Clash(a, pebSize, volId, i', j');
    } else {
      assert !Clash(a, pebSize, volId, j', i');
    }
  }

  lemma AgreeingMoves(a: seq<byte>, b: seq<byte>, pebSize: nat, volId: nat, p: seq<nat>, q: seq<nat>, n: nat)
    requires HdrSize <= pebSize && Shuffled(a, b, pebSize, p, q) && n == |p|
    requires n * pebSize <= |a| && n * pebSize <= |b| && Agreeing(a, pebSize, volId, n)
    ensures Agreeing(b, pebSize, volId, n)
  {
    Unshuffled(a, b, pebSize, p, q);
    forall i, j | 0 <= i < j < n
      ensures !Clash(b, pebSize, volId, i, j)
    {
      NoClashMoves(a, b, pebSize, volId, n, i, j, q[i], q[j]);
    }
  }

  lemma GatheredAt(d: Dict, e: Dict, a: seq<byte>, b: seq<byte>, pebSize: nat, volId: nat, p: seq<nat>, q: seq<nat>,
                   n: nat, k: nat)
    requires HdrSize <= pebSize && Shuffled(a, b, pebSize, p, q) && n == |p| && k in d.m
    requires Gathers(d, a, pebSize, volId, n) && Gathers(e, b, pebSize, volId, n)
    ensures k in e.m && e.m[k] == d.m[k]
  {
    var i: nat :| Contributes(a, pebSize, volId, n, i, k, d.m[k]);
    Moves(a, b, pebSize, volId, p, q, n, i, k, d.m[k]);
  }

  lemma Gathered(d: Dict, e: Dict, a: seq<byte>, b: seq<byte>, pebSize: nat, volId: nat, p: seq<nat>, q: seq<nat>, n: nat)
    requires HdrSize <= pebSize && Shuffled(a, b, pebSize, p, q) && n == |p|
    requires Gathers(d, a, pebSize, volId, n) && Gathers(e, b, pebSize, volId, n)
    ensures forall k: nat | k in d.m :: k in e.m && e.m[k] == d.m[k]
  {
    forall k: nat | k in d.m
      ensures k in e.m && e.m[k] == d.m[k]
    {
      GatheredAt(d, e, a, b, pebSize, volId, p, q, n, k);
    }
  }

  lemma SameContents(d: Dict, e: Dict)
    requires forall k: nat | k in d.m :: k in e.m && e.m[k] == d.m[k]
    requires forall k: nat | k in e.m :: k in d.m && d.m[k] == e.m[k]
    ensures d.m == e.m
  {
  }

  /** Erase blocks in any order, with foreign volumes and other blocks anywhere between, give the same volume, as
      long as copies of one logical block agree and all blocks of the volume are of one size. (The one thing that
      depends on the order is whether the image still begins with an erase-counter header.) */
  lemma OrderIrrelevant(a: seq<byte>, b: seq<byte>, pebSize: nat, volId: nat, p: seq<nat>, q: seq<nat>, lebSize: nat)
    requires HdrSize <= pebSize && Shuffled(a, b, pebSize, p, q) && Leading(a) == EcMagic
    requires |a| / pebSize * pebSize <= |a| && Agreeing(a, pebSize, volId, |a| / pebSize)
    requires Uniform(Collect(a, pebSize, volId, |a| / pebSize).m, lebSize)
    ensures Extract(b, pebSize, volId) == if Leading(b) == EcMagic then Extract(a, pebSize, volId) else NotUbi
  {
    var n := |p|;
    BlockFits(n, |b|, pebSize);
    SameDictionary(a, b, pebSize, volId, p, q, n);
    SameVolume(Collect(a, pebSize, volId, n), Collect(b, pebSize, volId, n), lebSize);
  }

  lemma SameDictionary(a: seq<byte>, b: seq<byte>, pebSize: nat, volId: nat, p: seq<nat>, q: seq<nat>, n: nat)
    requires HdrSize <= pebSize && Shuffled(a, b, pebSize, p, q) && n == |p|
    requires n * pebSize <= |a| && n * pebSize <= |b| && Agreeing(a, pebSize, volId, n)
    ensures Collect(a, pebSize, volId, n).m == Collect(b, pebSize, volId, n).m
  {
    var d, e := Collect(a, pebSize, volId, n), Collect(b, pebSize, volId, n);
    Unshuffled(a, b, pebSize, p, q);
    AgreeingMoves(a, b, pebSize, volId, p, q, n);
    CollectGathers(a, pebSize, volId, n);
    CollectGathers(b, pebSize, volId, n);
    Gathered(d, e, a, b, pebSize, volId, p, q, n);
    Gathered(e, d, b, a, pebSize, volId, q, p, n);
    SameContents(d, e);
  }

  /** What comes out is the logical volume: every block in its place, gaps erased, exactly the erased tail gone. */
  lemma ExtractIsVolume(image: seq<byte>, pebSize: nat, volId: nat, lebSize: nat) returns (n: nat)
    requires HdrSize <= pebSize && |image| / pebSize * pebSize <= |image| && Extract(image, pebSize, volId).Ok?
    requires Uniform(Collect(image, pebSize, volId, |image| / pebSize).m, lebSize)
    ensures var d := Collect(image, pebSize, volId, |image| / pebSize);
            && Trimmed(d.m, lebSize, MaxKey(d.keys) + 1, n)
            && Extract(image, pebSize, volId).ubifs == Assembled(d.m, lebSize, n)
  {
    var d := Collect(image, pebSize, volId, |image| / pebSize);
    assert d.keys[0] in d.m;
    n := TrimExact(d.m, lebSize, MaxKey(d.keys) + 1);
    assert IsNat(MaxKey(d.keys) + 1, MaxKey(d.keys) + 1) && IsNat(n, n);
  }
}
