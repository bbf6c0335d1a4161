/**
  COBS framing (agent/cobs.c:8-51, src/defib/agent/cobs.py:13-61). The encoders back-patch a code byte
  in front of each block; the specification builds the blocks from the front.
 */
module Cobs {
  import opened Bytes

  /** The encoding of `x` when `blk` is the block collected so far. */
  function Encoding(x: seq<byte>, blk: seq<byte>): (r: seq<byte>)
    requires |blk| < 254
    ensures |r| > 0
  {
    if x == [] then [(|blk| + 1) as byte] + blk
    else if x[0] == 0 then [(|blk| + 1) as byte] + blk + Encoding(x[1..], [])
    else if |blk| == 253 then [0xFF] + blk + [x[0]] + Encoding(x[1..], [])
    else Encoding(x[1..], blk + [x[0]])
  }

  function Encode(x: seq<byte>): seq<byte> {
    Encoding(x, [])
  }

  /** `None` for a zero code byte or a truncated block. */
  function Decode(y: seq<byte>): Option<seq<byte>> {
    if y == [] then Some([])
    else
      var code := y[0] as int;
      if code == 0 || code > |y| then None
      else
        var rest := y[code..];
        match Decode(rest)
        case None => None
        case Some(r) => Some(y[1..code] + (if code < 0xFF && rest != [] then [0x00] else []) + r)
  }

  ghost predicate NoZero(s: seq<byte>) {
    forall i | 0 <= i < |s| :: s[i] != 0
  }

  // ---------------------------------------------------------------- the laws

  /** Decoding takes the leading block and goes on with the rest. */
  lemma DecodeUnfold(y: seq<byte>, code: byte, blk: seq<byte>, rest: seq<byte>)
    requires code as int == |blk| + 1 && y == [code] + blk + rest && Decode(rest).Some?
    ensures Decode(y) == Some(blk + (if code != 0xFF && rest != [] then [0x00] else []) + Decode(rest).value)
  {
    assert y[0] == code && y[1..code as int] == blk && y[code as int..] == rest;
  }

  lemma CodeValue(n: nat)
    requires n < 255
    ensures ((n + 1) as byte) as int == n + 1
    ensures (n + 1) as byte != 0
    ensures n < 254 ==> (n + 1) as byte != 0xFF
  {
  }

  lemma DecodeNothing()
    ensures Decode([]) == Some([])
  {
  }

  lemma AppendNothing<T>(x: seq<T>)
    ensures x + [] == x && [] + x == x
  {
  }

  ghost predicate Decodes(e: seq<byte>, want: seq<byte>) {
    e != [] && forall y {:trigger Is(y, e)} | Is(y, e) :: Decode(y) == Some(want)
  }

  lemma DecodeLast(blk: seq<byte>, code: byte)
    requires |blk| < 254 && code as int == |blk| + 1
    ensures Decodes([code] + blk, blk)
  {
    AppendNothing([code] + blk);
    AppendNothing(blk);
    DecodeNothing();
    DecodeUnfold([code] + blk, code, blk, []);
  }

  lemma DecodeZero(blk: seq<byte>, code: byte, x: seq<byte>, e: seq<byte>)
    requires |blk| < 254 && code as int == |blk| + 1 && code != 0xFF
    requires x != [] && x[0] == 0 && Decodes(e, x[1..])
    ensures Decodes([code] + blk + e, blk + x)
  {
    assert Is(e, e);
    DecodeUnfold([code] + blk + e, code, blk, e);
    assert blk + [0x00] + x[1..] == blk + x;
  }

  lemma DecodeFull(blk: seq<byte>, x: seq<byte>, e: seq<byte>)
    requires |blk| == 253 && x != [] && Decodes(e, x[1..])
    ensures Decodes([0xFF] + blk + [x[0]] + e, blk + x)
  {
    assert Is(e, e);
    assert [0xFF] + blk + [x[0]] + e == [0xFF] + (blk + [x[0]]) + e;
    DecodeUnfold([0xFF] + blk + [x[0]] + e, 0xFF, blk + [x[0]], e);
    assert blk + [x[0]] + [] + x[1..] == blk + x;
  }

  lemma {:induction false} DecodeEncoding(x: seq<byte>, blk: seq<byte>)
    requires |blk| < 254
    ensures Decodes(Encoding(x, blk), blk + x)
    decreases |x|
  {
    if x == [] {
      CodeValue(|blk|);
      DecodeLast(blk, (|blk| + 1) as byte);
      assert blk + x == blk;
    } else {
      assert [] + x[1..] == x[1..];
      if x[0] == 0 {
        DecodeEncoding(x[1..], []);
        CodeValue(|blk|);
        DecodeZero(blk, (|blk| + 1) as byte, x, Encoding(x[1..], []));
      } else if |blk| == 253 {
        DecodeEncoding(x[1..], []);
        DecodeFull(blk, x, Encoding(x[1..], []));
      } else {
        DecodeEncoding(x[1..], blk + [x[0]]);
        assert blk + [x[0]] + x[1..] == blk + x;
      }
    }
  }

  /** Decoding undoes encoding, for every byte string. */
  lemma RoundTrip(x: seq<byte>)
    ensures Decode(Encode(x)) == Some(x)
  {
    DecodeEncoding(x, []);
    assert [] + x == x && Is(Encode(x), Encode(x));
  }

  lemma NoZeroJoin(a: seq<byte>, b: seq<byte>)
    ensures NoZero(a + b) <==> NoZero(a) && NoZero(b)
  {
    assert forall i | 0 <= i < |a| :: (a + b)[i] == a[i];
    assert forall i | 0 <= i < |b| :: (a + b)[|a| + i] == b[i];
  }

  lemma {:induction false} EncodingNoZero(x: seq<byte>, blk: seq<byte>)
    requires |blk| < 254 && NoZero(blk)
    ensures NoZero(Encoding(x, blk))
    decreases |x|
  {
    CodeValue(|blk|);
    var code := [(|blk| + 1) as byte];
    NoZeroJoin(code, blk);
    if x != [] {
      if x[0] == 0 {
        EncodingNoZero(x[1..], []);
        NoZeroJoin(code + blk, Encoding(x[1..], []));
      } else if |blk| == 253 {
        EncodingNoZero(x[1..], []);
        NoZeroJoin([0xFF], blk);
        NoZeroJoin([0xFF] + blk, [x[0]]);
        NoZeroJoin([0xFF] + blk + [x[0]], Encoding(x[1..], []));
      } else {
        NoZeroJoin(blk, [x[0]]);
        EncodingNoZero(x[1..], blk + [x[0]]);
      }
    }
  }

  /** One code byte, plus one for every 254 bytes. */
  lemma {:induction false} EncodingLength(x: seq<byte>, blk: seq<byte>)
    requires |blk| < 254
    ensures |Encoding(x, blk)| <= |x| + |blk| + (|x| + |blk|) / 254 + 1
    decreases |x|
  {
    if x != [] {
      if x[0] == 0 || |blk| == 253 {
        EncodingLength(x[1..], []);
      } else {
        EncodingLength(x[1..], blk + [x[0]]);
      }
    }
  }

  /** The encoding can be delimited by a zero byte, and fits the buffer size the header asks for. */
  lemma EncodeShape(x: seq<byte>)
    ensures NoZero(Encode(x)) && 0 < |Encode(x)| <= |x| + |x| / 254 + 1
  {
    EncodingNoZero(x, []);
    EncodingLength(x, []);
  }

  /** Distinct inputs have distinct encodings. */
  lemma EncodeInjective(x: seq<byte>, y: seq<byte>)
    ensures Encode(x) == Encode(y) ==> x == y
  {
    RoundTrip(x);
    RoundTrip(y);
  }

  // ---------------------------------------------------------------- the Python code

  /** `head` followed by the encoding of `x` with block `blk` is `want`. */
  ghost predicate Completes(head: seq<byte>, x: seq<byte>, blk: seq<byte>, want: seq<byte>) {
    |blk| < 254 && forall y {:trigger Is(y, x)} | Is(y, x) :: head + Encoding(y, blk) == want
  }

  lemma CompletesStart(x: seq<byte>)
    ensures Completes([], x, [], Encode(x))
  {
    forall y | Is(y, x)
      ensures [] + Encoding(y, []) == Encode(x)
    {
    }
  }

  lemma CompletesZero(head: seq<byte>, x: seq<byte>, blk: seq<byte>, want: seq<byte>)
    requires x != [] && x[0] == 0 && Completes(head, x, blk, want)
    ensures Completes(head + [(|blk| + 1) as byte] + blk, x[1..], [], want)
  {
    assert Is(x, x);
    var code := (|blk| + 1) as byte;
    assert head + ([code] + blk + Encoding(x[1..], [])) == (head + [code] + blk) + Encoding(x[1..], []);
  }

  lemma CompletesFull(head: seq<byte>, x: seq<byte>, blk: seq<byte>, want: seq<byte>)
    requires x != [] && x[0] != 0 && |blk| == 253 && Completes(head, x, blk, want)
    ensures Completes(head + [0xFF] + (blk + [x[0]]), x[1..], [], want)
  {
    assert Is(x, x);
    assert head + ([0xFF] + blk + [x[0]] + Encoding(x[1..], []))
           == (head + [0xFF] + (blk + [x[0]])) + Encoding(x[1..], []);
  }

  lemma CompletesByte(head: seq<byte>, x: seq<byte>, blk: seq<byte>, want: seq<byte>)
    requires x != [] && x[0] != 0 && |blk| < 253 && Completes(head, x, blk, want)
    ensures Completes(head, x[1..], blk + [x[0]], want)
  {
    assert Is(x, x);
  }

  lemma CompletesEnd(head: seq<byte>, blk: seq<byte>, want: seq<byte>)
    requires Completes(head, [], blk, want)
    ensures want == head + [(|blk| + 1) as byte] + blk
  {
    assert Is<seq<byte>>([], []);
    assert head + ([(|blk| + 1) as byte] + blk) == head + [(|blk| + 1) as byte] + blk;
  }

  /** The encoder's variables: the bytes in front of the open block's code, the block, and `code`. */
  ghost predicate Open(output: seq<byte>, codeIdx: nat, code: nat, x: seq<byte>, want: seq<byte>) {
    && codeIdx < |output| && code == |output| - codeIdx
    && Completes(output[..codeIdx], x, output[codeIdx + 1..], want)
  }

  /** Once its code byte is written, the block is closed and the bytes so far are final. */
  ghost predicate Closes(output: seq<byte>, codeIdx: nat, code: nat, x: seq<byte>, want: seq<byte>) {
    codeIdx < |output| && code == |output| - codeIdx <= 255 && Completes(output[codeIdx := code as byte], x, [], want)
  }

  lemma Patched(output: seq<byte>, codeIdx: nat, c: byte)
    requires codeIdx < |output|
    ensures output[codeIdx := c] == output[..codeIdx] + [c] + output[codeIdx + 1..]
  {
  }

  lemma Appended(output: seq<byte>, codeIdx: nat, b: byte)
    requires codeIdx < |output|
    ensures (output + [b])[..codeIdx] == output[..codeIdx]
    ensures (output + [b])[codeIdx + 1..] == output[codeIdx + 1..] + [b]
  {
  }

  lemma ClosesZero(output: seq<byte>, codeIdx: nat, code: nat, x: seq<byte>, want: seq<byte>)
    requires x != [] && x[0] == 0x00 && Open(output, codeIdx, code, x, want)
    ensures Closes(output, codeIdx, code, x[1..], want)
  {
    CompletesZero(output[..codeIdx], x, output[codeIdx + 1..], want);
    Patched(output, codeIdx, code as byte);
  }

  lemma ClosesFull(output: seq<byte>, codeIdx: nat, code: nat, x: seq<byte>, want: seq<byte>)
    requires x != [] && x[0] != 0x00 && code + 1 == 0xFF && Open(output, codeIdx, code, x, want)
    ensures Closes(output + [x[0]], codeIdx, code + 1, x[1..], want)
  {
    CompletesFull(output[..codeIdx], x, output[codeIdx + 1..], want);
    Appended(output, codeIdx, x[0]);
    Patched(output + [x[0]], codeIdx, 0xFF);
    FullCode(code + 1);
  }

  lemma FullCode(n: nat)
    requires n == 0xFF
    ensures n as byte == 0xFF
  {
  }

  lemma OpenByte(output: seq<byte>, codeIdx: nat, code: nat, x: seq<byte>, want: seq<byte>)
    requires x != [] && x[0] != 0x00 && code + 1 < 0xFF && Open(output, codeIdx, code, x, want)
    ensures Open(output + [x[0]], codeIdx, code + 1, x[1..], want)
  {
    CompletesByte(output[..codeIdx], x, output[codeIdx + 1..], want);
    Appended(output, codeIdx, x[0]);
  }

  /** A new block starts with room for its code byte. */
  lemma OpensNext(output: seq<byte>, codeIdx: nat, code: nat, x: seq<byte>, want: seq<byte>, room: byte)
    requires Closes(output, codeIdx, code, x, want)
    ensures Open(output[codeIdx := code as byte] + [room], |output|, 1, x, want)
  {
    var done := output[codeIdx := code as byte];
    assert (done + [room])[..|output|] == done && (done + [room])[|output| + 1..] == [];
  }

  lemma OpenCode(output: seq<byte>, codeIdx: nat, code: nat, x: seq<byte>, want: seq<byte>)
    requires Open(output, codeIdx, code, x, want)
    ensures 1 <= code < 0xFF
  {
  }

  lemma OpenEnd(output: seq<byte>, codeIdx: nat, code: nat, want: seq<byte>)
    requires Open(output, codeIdx, code, [], want)
    ensures code < 0xFF && output[codeIdx := code as byte] == want
  {
    CompletesEnd(output[..codeIdx], output[codeIdx + 1..], want);
    Patched(output, codeIdx, code as byte);
  }

  /** Close the open block and start a new one. */
  method CloseBlock(output: seq<byte>, codeIdx: nat, code: nat, ghost x: seq<byte>, ghost want: seq<byte>)
    returns (output': seq<byte>, codeIdx': nat)
    requires Closes(output, codeIdx, code, x, want)
    ensures Open(output', codeIdx', 1, x, want)
  {
    OpensNext(output, codeIdx, code, x, want, 0x00);
    output' := output[codeIdx := code as byte];
    codeIdx' := |output'|;
    output' := output' + [0x00];
  }

  /** One turn of the encoder's loop. */
  method EncodeByte(output: seq<byte>, codeIdx: nat, code: nat, b: byte, ghost x: seq<byte>, ghost want: seq<byte>)
    returns (output': seq<byte>, codeIdx': nat, code': nat)
    requires x != [] && x[0] == b && Open(output, codeIdx, code, x, want)
    ensures Open(output', codeIdx', code', x[1..], want)
  {
    OpenCode(output, codeIdx, code, x, want);
    if b == 0x00 {
      ClosesZero(output, codeIdx, code, x, want);
      output', codeIdx' := CloseBlock(output, codeIdx, code, x[1..], want);
      code' := 1;
    } else {
      output', codeIdx', code' := output + [b], codeIdx, code + 1;
      if code' == 0xFF {
        ClosesFull(output, codeIdx, code, x, want);
        output', codeIdx' := CloseBlock(output', codeIdx, code', x[1..], want);
        code' := 1;
      } else {
        OpenByte(output, codeIdx, code, x, want);
      }
    }
  }

  lemma OpenStart(x: seq<byte>, room: byte)
    ensures Open([room], 0, 1, x, Encode(x))
  {
    CompletesStart(x);
    assert [room][..0] == [] && [room][1..] == [];
  }

  /** `cobs.encode`: appends to a bytearray and back-patches `output[code_idx]`. */
  method EncodePython(data: seq<byte>) returns (output: seq<byte>)
    ensures output == Encode(data)
  {
    ghost var want := Encode(data);
    output := [0x00];
    var codeIdx: nat, code: nat := 0, 1;
    OpenStart(data, 0x00);
    assert data[0..] == data;
    var i := 0;
    while i < |data|
      invariant 0 <= i <= |data| && Open(output, codeIdx, code, data[i..], want)
    {
      output, codeIdx, code := EncodeByte(output, codeIdx, code, data[i], data[i..], want);
      assert data[i..][1..] == data[i + 1..];
      i := i + 1;
    }
    assert data[i..] == [];
    OpenEnd(output, codeIdx, code, want);
    output := output[codeIdx := code as byte];
  }

  /** What is left to decode of `y` after `output`, and the verdict `want` on the whole. */
  ghost predicate Resumes(output: seq<byte>, y: seq<byte>, want: Option<seq<byte>>) {
    forall z {:trigger Is(z, y)} | Is(z, y) ::
      want == if Decode(z).None? then None else Some(output + Decode(z).value)
  }

  lemma ResumesStart(y: seq<byte>)
    ensures Resumes([], y, Decode(y))
  {
    if Decode(y).Some? {
      assert [] + Decode(y).value == Decode(y).value;
    }
  }

  lemma ResumesBlock(output: seq<byte>, y: seq<byte>, want: Option<seq<byte>>, code: nat)
    requires y != [] && code == y[0] as int && 0 < code <= |y| && Resumes(output, y, want)
    ensures Resumes(output + y[1..code] + (if code < 0xFF && y[code..] != [] then [0x00] else []), y[code..], want)
  {
    assert Is(y, y);
    var rest := y[code..];
    var z := if code < 0xFF && rest != [] then [0x00] else [];
    if Decode(rest).Some? {
      var r := Decode(rest).value;
      assert output + (y[1..code] + z + r) == (output + y[1..code] + z) + r;
    }
  }

  /** The same, addressed inside the whole input. */
  lemma TailSlices(data: seq<byte>, idx: nat, code: nat)
    requires 0 < code && idx + code <= |data|
    ensures data[idx..][1..code] == data[idx + 1..idx + code] && data[idx..][code..] == data[idx + code..]
    ensures data[idx..][code..] != [] <==> idx + code < |data|
  {
  }

  lemma ResumesAt(output: seq<byte>, data: seq<byte>, idx: nat, code: nat, want: Option<seq<byte>>)
    requires idx < |data| && code == data[idx] as int && 0 < code <= |data| - idx && Resumes(output, data[idx..], want)
    ensures Resumes(output + data[idx + 1..idx + code] + (if code < 0xFF && idx + code < |data| then [0x00] else []),
                    data[idx + code..], want)
  {
    TailSlices(data, idx, code);
    ResumesBlock(output, data[idx..], want, code);
  }

  lemma ResumesBad(output: seq<byte>, y: seq<byte>, want: Option<seq<byte>>)
    requires y != [] && (y[0] == 0 || y[0] as int > |y|) && Resumes(output, y, want)
    ensures want == None
  {
    assert Is(y, y);
  }

  /** The verdict on a block that is bad, and what is left after a good one. */
  lemma ResumesNext(output: seq<byte>, data: seq<byte>, idx: nat, code: nat, want: Option<seq<byte>>)
    requires idx < |data| && code == data[idx] as int && Resumes(output, data[idx..], want)
    ensures code == 0 || code > |data| - idx ==> want == None
    ensures 0 < code <= |data| - idx ==>
              Resumes(output + data[idx + 1..idx + code] + (if code < 0xFF && idx + code < |data| then [0x00] else []),
                      data[idx + code..], want)
  {
    if code == 0 || code > |data| - idx {
      ResumesBad(output, data[idx..], want);
    } else {
      ResumesAt(output, data, idx, code, want);
    }
  }

  lemma ResumesEnd(output: seq<byte>, want: Option<seq<byte>>)
    requires Resumes(output, [], want)
    ensures want == Some(output)
  {
    assert Is<seq<byte>>([], []);
    assert output + [] == output;
  }

  /** `cobs.decode`; `None` stands for its ValueError. */
  method DecodePython(data: seq<byte>) returns (result: Option<seq<byte>>)
    ensures result == Decode(data)
  {
    ghost var want := Decode(data);
    var output: seq<byte> := [];
    var idx := 0;
    ResumesStart(data);
    assert data[0..] == data;
    while idx < |data|
      invariant 0 <= idx <= |data| && Resumes(output, data[idx..], want)
    {
      var code := data[idx] as int;
      var block := CopyBlock(data, idx + 1, code);
      if block.None? {
        ResumesBad(output, data[idx..], want);
        return None;
      }
      ResumesAt(output, data, idx, code, want);
      output := output + block.value;
      AppendNothing(output);
      idx := idx + code;
      if code < 0xFF && idx < |data| {
        output := output + [0x00];
      }
    }
    assert data[idx..] == [];
    ResumesEnd(output, want);
    result := Some(output);
  }

  /** The inner loop: `code - 1` bytes from `idx` on, or nothing for a zero code or a short input. */
  method CopyBlock(data: seq<byte>, idx: nat, code: nat) returns (block: Option<seq<byte>>)
    requires idx <= |data|
    ensures block == if code == 0 || idx + code - 1 > |data| then None else Some(data[idx..idx + code - 1])
  {
    if code == 0 {
      return None;
    }
    var out: seq<byte> := [];
    var i := 1;
    while i < code
      invariant 1 <= i <= code && idx + i - 1 <= |data| && out == data[idx..idx + i - 1]
    {
      if idx + i - 1 >= |data| {
        return None;
      }
      out := out + [data[idx + i - 1]];
      i := i + 1;
    }
    block := Some(out);
  }

  // ---------------------------------------------------------------- the C code

  /** Every byte still to come takes at least one byte of output. */
  lemma {:induction false} EncodingGrows(x: seq<byte>, blk: seq<byte>)
    requires |blk| < 254
    ensures |Encoding(x, blk)| >= |x| + |blk| + 1
    decreases |x|
  {
    if x != [] {
      if x[0] == 0 || |blk| == 253 {
        EncodingGrows(x[1..], []);
      } else {
        EncodingGrows(x[1..], blk + [x[0]]);
      }
    }
  }

  lemma CompletesBound(head: seq<byte>, x: seq<byte>, blk: seq<byte>, want: seq<byte>)
    requires Completes(head, x, blk, want)
    ensures |head| + 1 + |blk| + |x| <= |want|
  {
    assert Is(x, x);
    EncodingGrows(x, blk);
  }

  lemma ClosesBound(output: seq<byte>, codeIdx: nat, code: nat, x: seq<byte>, want: seq<byte>)
    requires Closes(output, codeIdx, code, x, want)
    ensures |output| + 1 <= |want|
  {
    CompletesBound(output[codeIdx := code as byte], x, [], want);
  }

  lemma OpenBound(output: seq<byte>, codeIdx: nat, code: nat, x: seq<byte>, want: seq<byte>)
    requires Open(output, codeIdx, code, x, want)
    ensures |output| + |x| <= |want|
  {
    CompletesBound(output[..codeIdx], x, output[codeIdx + 1..], want);
  }

  /** `output[code_idx] = code; code_idx = out_idx++;` */
  method CloseBlockC(output: array<byte>, outIdx: nat, codeIdx: nat, code: nat, ghost x: seq<byte>, ghost want: seq<byte>)
    returns (outIdx': nat, codeIdx': nat)
    requires outIdx <= output.Length && |want| <= output.Length && Closes(output[..outIdx], codeIdx, code, x, want)
    modifies output
    ensures outIdx' <= output.Length && Open(output[..outIdx'], codeIdx', 1, x, want)
  {
    ghost var out := output[..outIdx];
    ClosesBound(out, codeIdx, code, x, want);
    output[codeIdx] := code as byte;
    codeIdx', outIdx' := outIdx, outIdx + 1;
    OpensNext(out, codeIdx, code, x, want, output[outIdx]);
    assert output[..outIdx'] == out[codeIdx := code as byte] + [output[outIdx]];
  }

  /** `output[out_idx++] = b;` */
  method PutC(output: array<byte>, outIdx: nat, b: byte)
    requires outIdx < output.Length
    modifies output
    ensures output[..outIdx + 1] == old(output[..outIdx]) + [b]
  {
    output[outIdx] := b;
  }

  /** The branch for a non-zero byte. */
  method StoreByteC(output: array<byte>, outIdx: nat, codeIdx: nat, code: nat, b: byte,
                    ghost x: seq<byte>, ghost want: seq<byte>)
    returns (outIdx': nat, codeIdx': nat, code': nat)
    requires outIdx <= output.Length && |want| <= output.Length
    requires x != [] && x[0] == b && b != 0 && Open(output[..outIdx], codeIdx, code, x, want)
    modifies output
    ensures outIdx' <= output.Length && Open(output[..outIdx'], codeIdx', code', x[1..], want)
  {
    ghost var out := output[..outIdx];
    OpenCode(out, codeIdx, code, x, want);
    OpenBound(out, codeIdx, code, x, want);
    PutC(output, outIdx, b);
    outIdx', codeIdx', code' := outIdx + 1, codeIdx, code + 1;
    if code' == 0xFF {
      ClosesFull(out, codeIdx, code, x, want);
      outIdx', codeIdx' := CloseBlockC(output, outIdx', codeIdx, code', x[1..], want);
      code' := 1;
    } else {
      OpenByte(out, codeIdx, code, x, want);
    }
  }

  /** One turn of the C encoder's loop. */
  method EncodeByteC(output: array<byte>, outIdx: nat, codeIdx: nat, code: nat, b: byte,
                     ghost x: seq<byte>, ghost want: seq<byte>)
    returns (outIdx': nat, codeIdx': nat, code': nat)
    requires outIdx <= output.Length && |want| <= output.Length
    requires x != [] && x[0] == b && Open(output[..outIdx], codeIdx, code, x, want)
    modifies output
    ensures outIdx' <= output.Length && Open(output[..outIdx'], codeIdx', code', x[1..], want)
  {
    if b == 0x00 {
      ClosesZero(output[..outIdx], codeIdx, code, x, want);
      outIdx', codeIdx' := CloseBlockC(output, outIdx, codeIdx, code, x[1..], want);
      code' := 1;
    } else {
      outIdx', codeIdx', code' := StoreByteC(output, outIdx, codeIdx, code, b, x, want);
    }
  }

  /** `cobs_encode`: the same bytes as the Python encoder, inside a buffer of the documented size. */
  method EncodeC(input: seq<byte>, output: array<byte>) returns (n: nat)
    requires output.Length >= |input| + |input| / 254 + 1
    modifies output
    ensures n <= output.Length && output[..n] == Encode(input)
  {
    ghost var want := Encode(input);
    EncodeShape(input);
    assert input[0..] == input;
    var outIdx: nat, codeIdx: nat, code: nat := 1, 0, 1;
    OpenStart(input, output[0]);
    assert output[..1] == [output[0]];
    var i := 0;
    while i < |input|
      invariant 0 <= i <= |input| && outIdx <= output.Length
      invariant Open(output[..outIdx], codeIdx, code, input[i..], want)
    {
      outIdx, codeIdx, code := EncodeByteC(output, outIdx, codeIdx, code, input[i], input[i..], want);
      assert input[i..][1..] == input[i + 1..];
      i := i + 1;
    }
    assert input[i..] == [];
    FinishC(output, outIdx, codeIdx, code, want);
    n := outIdx;
  }

  /** The last code byte. */
  method FinishC(output: array<byte>, outIdx: nat, codeIdx: nat, code: nat, ghost want: seq<byte>)
    requires outIdx <= output.Length && Open(output[..outIdx], codeIdx, code, [], want)
    modifies output
    ensures output[..outIdx] == want
  {
    ghost var out := output[..outIdx];
    OpenEnd(out, codeIdx, code, want);
    output[codeIdx] := code as byte;
    assert output[..outIdx] == out[codeIdx := code as byte];
  }

  /** `cobs_decode`: the number of bytes written, 0 on error. */
  method DecodeC(input: seq<byte>, output: array<byte>) returns (n: nat)
    requires output.Length >= |input|
    modifies output
    ensures n <= output.Length
    ensures if Decode(input).None? then n == 0 else output[..n] == Decode(input).value
  {
    ghost var want := Decode(input);
    var outIdx, idx := 0, 0;
    ResumesStart(input);
    assert input[0..] == input && output[..0] == [];
    while idx < |input|
      invariant 0 <= idx <= |input| && 0 <= outIdx <= idx && Resumes(output[..outIdx], input[idx..], want)
    {
      var ok;
      ok, idx, outIdx := DecodeBlockC(input, idx, output, outIdx, want);
      if !ok {
        return 0;
      }
    }
    assert input[idx..] == [];
    ResumesEnd(output[..outIdx], want);
    n := outIdx;
  }

  /** One code byte, its block, and the zero it stands for. */
  method DecodeBlockC(input: seq<byte>, idx: nat, output: array<byte>, outIdx: nat, ghost want: Option<seq<byte>>)
    returns (ok: bool, idx': nat, outIdx': nat)
    requires outIdx <= idx < |input| <= output.Length && Resumes(output[..outIdx], input[idx..], want)
    modifies output
    ensures ok ==> outIdx' <= idx' <= |input| && idx < idx' && Resumes(output[..outIdx'], input[idx'..], want)
    ensures !ok ==> want == None
  {
    var code := input[idx] as int;
    ResumesNext(output[..outIdx], input, idx, code, want);
    if code == 0 {
      return false, idx + 1, outIdx;
    }
    idx' := idx + code;
    ok, outIdx' := BlockC(input, idx, code, output, outIdx);
  }

  /** The bytes of a block and the zero behind it. */
  method BlockC(input: seq<byte>, idx: nat, code: nat, output: array<byte>, outIdx: nat) returns (ok: bool, outIdx': nat)
    requires outIdx <= idx < |input| <= output.Length && 0 < code
    modifies output
    ensures ok == (idx + code <= |input|)
    ensures ok ==> outIdx' <= idx + code
                   && output[..outIdx'] == old(output[..outIdx]) + input[idx + 1..idx + code]
                                           + (if code < 0xFF && idx + code < |input| then [0x00] else [])
  {
    ok, outIdx' := CopyBytesC(input, idx + 1, code - 1, output, outIdx);
    if ok {
      outIdx' := AppendZeroC(output, outIdx', code < 0xFF && idx + code < |input|);
    }
  }

  method AppendZeroC(output: array<byte>, outIdx: nat, needed: bool) returns (outIdx': nat)
    requires outIdx + (if needed then 1 else 0) <= output.Length
    modifies output
    ensures outIdx' == outIdx + if needed then 1 else 0
    ensures output[..outIdx'] == old(output[..outIdx]) + (if needed then [0x00] else [])
  {
    outIdx' := outIdx;
    if needed {
      output[outIdx] := 0x00;
      outIdx' := outIdx + 1;
    }
  }

  /** The inner copy loop, which gives up where the input ends. */
  method CopyBytesC(input: seq<byte>, idx: nat, len: nat, output: array<byte>, outIdx: nat) returns (ok: bool, outIdx': nat)
    requires outIdx < idx <= |input| <= output.Length
    modifies output
    ensures ok == (idx + len <= |input|)
    ensures ok ==> outIdx' == outIdx + len && output[..outIdx'] == old(output[..outIdx]) + input[idx..idx + len]
  {
    var i := 0;
    outIdx' := outIdx;
    while i < len
      invariant 0 <= i <= len && idx + i <= |input| && outIdx' == outIdx + i
      invariant output[..outIdx'] == old(output[..outIdx]) + input[idx..idx + i]
    {
      if idx + i >= |input| {
        return false, outIdx';
      }
      output[outIdx'] := input[idx + i];
      assert output[..outIdx' + 1] == output[..outIdx'] + [input[idx + i]];
      outIdx' := outIdx' + 1;
      i := i + 1;
    }
    ok := true;
  }
}
