/**
  COBS as its documentation describes it, a list of blocks each behind a byte that says where it ends
  (src/defib/agent/cobs.py:1-10, 14-19), and the encoder and the decoder against that description.
 */
module CobsBlocks {
  import opened Bytes
  import opened Cobs

  /** Every block goes out behind its length plus one. */
  function Framed(blocks: seq<seq<byte>>): seq<byte>
    requires forall k | 0 <= k < |blocks| :: |blocks[k]| <= 254
  {
    if blocks == [] then [] else [(|blocks[0]| + 1) as byte] + blocks[0] + Framed(blocks[1..])
  }

  /** The text of the blocks: a zero between two of them, unless the first has 254 bytes. */
  function Text(blocks: seq<seq<byte>>): seq<byte> {
    if blocks == [] then []
    else blocks[0] + (if |blocks[0]| < 254 && |blocks| > 1 then [0x00] else []) + Text(blocks[1..])
  }

  ghost predicate Blocks(blocks: seq<seq<byte>>) {
    forall k | 0 <= k < |blocks| :: |blocks[k]| <= 254
  }

  /** What an encoder emits: blocks without zeros, at least one, the last of them not full. */
  ghost predicate Canonical(blocks: seq<seq<byte>>) {
    && blocks != [] && Blocks(blocks) && (forall k | 0 <= k < |blocks| :: NoZero(blocks[k]))
    && |blocks[|blocks| - 1]| < 254
  }

  ghost predicate IsEncoding(x: seq<byte>, e: seq<byte>) {
    exists blocks :: Canonical(blocks) && Framed(blocks) == e && Text(blocks) == x
  }

  ghost predicate IsDecoding(e: seq<byte>, d: seq<byte>) {
    exists blocks :: Blocks(blocks) && Framed(blocks) == e && Text(blocks) == d
  }

  // ---------------------------------------------------------------- one block

  lemma CodeIs(b: seq<byte>)
    requires |b| <= 254
    ensures ((|b| + 1) as byte) as int == |b| + 1
    ensures (|b| + 1) as byte == 0xFF <==> |b| == 254
  {
    if (|b| + 1) as byte == 0xFF {
      assert ((|b| + 1) as byte) as int == 255;
    }
  }

  lemma FramedFirst(b: seq<byte>, blocks: seq<seq<byte>>)
    requires |b| <= 254 && Blocks(blocks)
    ensures Blocks([b] + blocks) && Framed([b] + blocks) == [(|b| + 1) as byte] + b + Framed(blocks)
    ensures Text([b] + blocks) == b + (if |b| < 254 && blocks != [] then [0x00] else []) + Text(blocks)
  {
    assert ([b] + blocks)[1..] == blocks;
  }

  lemma FramedEmpty(blocks: seq<seq<byte>>)
    requires Blocks(blocks)
    ensures Framed(blocks) == [] <==> blocks == []
  {
  }

  lemma BlocksApart(blocks: seq<seq<byte>>)
    requires blocks != []
    ensures blocks == [blocks[0]] + blocks[1..]
    ensures Blocks(blocks) ==> |blocks[0]| <= 254 && Blocks(blocks[1..])
  {
  }

  // ---------------------------------------------------------------- the decoder

  /** The decoder takes the blocks apart. */
  lemma {:induction false} DecodesBlocks(blocks: seq<seq<byte>>)
    requires Blocks(blocks)
    ensures Decode(Framed(blocks)) == Some(Text(blocks))
  {
    if blocks != [] {
      var b, rest := blocks[0], blocks[1..];
      BlocksApart(blocks);
      DecodesBlocks(rest);
      FramedFirst(b, rest);
      FramedEmpty(rest);
      CodeIs(b);
      DecodeUnfold(Framed(blocks), (|b| + 1) as byte, b, Framed(rest));
    }
  }

  lemma AcceptsRest(e: seq<byte>) returns (b: seq<byte>, rest: seq<byte>)
    requires e != [] && Decode(e).Some?
    ensures e[0] as int == |b| + 1 && e == [e[0]] + b + rest && |rest| < |e| && Decode(rest).Some?
  {
    var code := e[0] as int;
    assert 0 < code <= |e|;
    b, rest := e[1..code], e[code..];
    assert e == [e[0]] + b + rest;
  }

  /** Whatever it accepts consists of blocks. */
  lemma {:induction false} AcceptsBlocks(e: seq<byte>) returns (blocks: seq<seq<byte>>)
    requires Decode(e).Some?
    ensures Blocks(blocks) && Framed(blocks) == e
    decreases |e|
  {
    if e == [] {
      blocks := [];
    } else {
      var b, rest := AcceptsRest(e);
      var others := AcceptsBlocks(rest);
      FirstByte(e[0], b);
      FramedFirst(b, others);
      blocks := [b] + others;
    }
  }

  lemma FirstByte(code: byte, b: seq<byte>)
    requires code as int == |b| + 1
    ensures |b| <= 254 && (|b| + 1) as byte == code
  {
  }

  /** The decoder accepts exactly what consists of blocks, and returns their text. */
  lemma DecodeIff(e: seq<byte>, d: seq<byte>)
    ensures Decode(e) == Some(d) <==> IsDecoding(e, d)
  {
    if Decode(e) == Some(d) {
      var blocks := AcceptsBlocks(e);
      DecodesBlocks(blocks);
    }
    if IsDecoding(e, d) {
      var blocks :| Blocks(blocks) && Framed(blocks) == e && Text(blocks) == d;
      DecodesBlocks(blocks);
    }
  }

  // ---------------------------------------------------------------- the encoder

  /** A run without zeros only fills the block. */
  lemma {:induction false} FillsBlock(run: seq<byte>, rest: seq<byte>, blk: seq<byte>)
    requires NoZero(run) && |blk| + |run| < 254
    ensures Encoding(run + rest, blk) == Encoding(rest, blk + run)
    decreases |run|
  {
    if run == [] {
      assert run + rest == rest && blk + run == blk;
    } else {
      assert (run + rest)[1..] == run[1..] + rest && blk + [run[0]] + run[1..] == blk + run;
      FillsBlock(run[1..], rest, blk + [run[0]]);
    }
  }

  lemma LastBlock(b: seq<byte>)
    requires NoZero(b) && |b| < 254
    ensures Encode(b) == [(|b| + 1) as byte] + b
  {
    FillsBlock(b, [], []);
    assert b + [] == b && [] + b == b;
  }

  lemma ShortBlock(b: seq<byte>, rest: seq<byte>)
    requires NoZero(b) && |b| < 254
    ensures Encode(b + [0x00] + rest) == [(|b| + 1) as byte] + b + Encode(rest)
  {
    var x := [0x00] + rest;
    FillsBlock(b, x, []);
    assert b + x == b + [0x00] + rest && x[1..] == rest && [] + b == b;
  }

  lemma FullBlock(b: seq<byte>, rest: seq<byte>)
    requires NoZero(b) && |b| == 254
    ensures Encode(b + rest) == [0xFF] + b + Encode(rest)
  {
    var head, last := b[..253], [b[253]];
    FillsBlock(head, last + rest, []);
    assert head + (last + rest) == b + rest && [] + head == head && (last + rest)[1..] == rest;
    assert [0xFF] + head + [b[253]] == [0xFF] + b;
  }

  /** The encoding of the text of canonical blocks is the blocks, each behind its code. */
  lemma {:induction false} EncodesBlocks(blocks: seq<seq<byte>>)
    requires Canonical(blocks)
    ensures Encode(Text(blocks)) == Framed(blocks)
  {
    var b, rest := blocks[0], blocks[1..];
    BlocksApart(blocks);
    FramedFirst(b, rest);
    CodeIs(b);
    if rest == [] {
      LastBlock(b);
      assert b + [] + [] == b && Framed(rest) == [];
    } else {
      EncodesBlocks(rest);
      if |b| == 254 {
        FullBlock(b, Text(rest));
        assert b + [] + Text(rest) == b + Text(rest);
      } else {
        ShortBlock(b, Text(rest));
      }
    }
  }

  /** `blocks` are canonical, and `t` is their text. */
  ghost predicate Cuts(blocks: seq<seq<byte>>, t: seq<byte>) {
    forall y {:trigger Is(y, t)} | Is(y, t) :: Canonical(blocks) && Text(blocks) == y
  }

  lemma CutsLast(b: seq<byte>)
    requires |b| < 254 && NoZero(b)
    ensures Cuts([b], b)
  {
    assert b + [] + [] == b && [b][1..] == [];
  }

  lemma CutsMore(b: seq<byte>, rest: seq<seq<byte>>, t: seq<byte>)
    requires |b| <= 254 && NoZero(b) && Cuts(rest, t)
    ensures Cuts([b] + rest, b + (if |b| < 254 then [0x00] else []) + t)
  {
    assert Is(t, t);
    FramedFirst(b, rest);
  }

  /** Every text has such blocks; `blk` is the beginning of the first. */
  lemma {:induction false} CutsBlocks(x: seq<byte>, blk: seq<byte>) returns (blocks: seq<seq<byte>>)
    requires |blk| < 254 && NoZero(blk)
    ensures Cuts(blocks, blk + x)
    decreases |x|
  {
    if x == [] {
      blocks := [blk];
      CutsLast(blk);
      assert blk + [] == blk;
    } else if x[0] == 0 {
      var rest := CutsBlocks(x[1..], []);
      blocks := [blk] + rest;
      assert [] + x[1..] == x[1..] && blk + [0x00] + x[1..] == blk + x;
      CutsMore(blk, rest, x[1..]);
    } else if |blk| == 253 {
      var rest := CutsBlocks(x[1..], []);
      var full := blk + [x[0]];
      blocks := [full] + rest;
      assert [] + x[1..] == x[1..] && full + [] + x[1..] == blk + x;
      CutsMore(full, rest, x[1..]);
    } else {
      blocks := CutsBlocks(x[1..], blk + [x[0]]);
      assert blk + [x[0]] + x[1..] == blk + x;
    }
  }

  /** The encoder emits exactly the canonical blocks of its input. */
  lemma EncodeIff(x: seq<byte>, e: seq<byte>)
    ensures Encode(x) == e <==> IsEncoding(x, e)
  {
    var blocks := CutsBlocks(x, []);
    assert [] + x == x && Is(x, x);
    EncodesBlocks(blocks);
    if IsEncoding(x, e) {
      var bs :| Canonical(bs) && Framed(bs) == e && Text(bs) == x;
      EncodesBlocks(bs);
    }
  }
}
