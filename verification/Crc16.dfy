/**
  CRC-16/CCITT in the two forms the repository uses: HiSilicon's, seeded 0 and finished with two zero bytes
  (src/defib/protocol/crc.py:50-78), and Rockchip's direct register (src/defib/rockusb/codec.py:25-35).
 */
module Crc16 {
  import opened Bytes
  import opened CrcAlgebra

  /** One bit of division by 0x1021, most significant bit first. */
  function Shift(x: bv16): bv16 {
    if x & 0x8000 != 0 then (x << 1) ^ 0x1021 else x << 1
  }

  function Shift8(x: bv16): bv16 {
    Shift(Shift(Shift(Shift(Shift(Shift(Shift(Shift(x))))))))
  }

  /** `CRC_TABLE`, entry by entry, as a decision on the bits of the index. */
  function Table(b: byte): bv16 {
    if b & 0x80 != 0 then
      if b & 0x40 != 0 then
        if b & 0x20 != 0 then
          if b & 0x10 != 0 then
            if b & 0x08 != 0 then
              if b & 0x04 != 0 then
                if b & 0x02 != 0 then if b & 0x01 != 0 then 0x1EF0 else 0x0ED1
                else if b & 0x01 != 0 then 0x3EB2 else 0x2E93
              else
                if b & 0x02 != 0 then if b & 0x01 != 0 then 0x5E74 else 0x4E55
                else if b & 0x01 != 0 then 0x7E36 else 0x6E17
            else
              if b & 0x04 != 0 then
                if b & 0x02 != 0 then if b & 0x01 != 0 then 0x9FF8 else 0x8FD9
                else if b & 0x01 != 0 then 0xBFBA else 0xAF9B
              else
                if b & 0x02 != 0 then if b & 0x01 != 0 then 0xDF7C else 0xCF5D
                else if b & 0x01 != 0 then 0xFF3E else 0xEF1F
          else
            if b & 0x08 != 0 then
              if b & 0x04 != 0 then
                if b & 0x02 != 0 then if b & 0x01 != 0 then 0x0CC1 else 0x1CE0
                else if b & 0x01 != 0 then 0x2C83 else 0x3CA2
              else
                if b & 0x02 != 0 then if b & 0x01 != 0 then 0x4C45 else 0x5C64
                else if b & 0x01 != 0 then 0x6C07 else 0x7C26
            else
              if b & 0x04 != 0 then
                if b & 0x02 != 0 then if b & 0x01 != 0 then 0x8DC9 else 0x9DE8
                else if b & 0x01 != 0 then 0xAD8B else 0xBDAA
              else
                if b & 0x02 != 0 then if b & 0x01 != 0 then 0xCD4D else 0xDD6C
                else if b & 0x01 != 0 then 0xED0F else 0xFD2E
        else
          if b & 0x10 != 0 then
            if b & 0x08 != 0 then
              if b & 0x04 != 0 then
                if b & 0x02 != 0 then if b & 0x01 != 0 then 0x3A92 else 0x2AB3
                else if b & 0x01 != 0 then 0x1AD0 else 0x0AF1
              else
                if b & 0x02 != 0 then if b & 0x01 != 0 then 0x7A16 else 0x6A37
                else if b & 0x01 != 0 then 0x5A54 else 0x4A75
            else
              if b & 0x04 != 0 then
                if b & 0x02 != 0 then if b & 0x01 != 0 then 0xBB9A else 0xABBB
                else if b & 0x01 != 0 then 0x9BD8 else 0x8BF9
              else
                if b & 0x02 != 0 then if b & 0x01 != 0 then 0xFB1E else 0xEB3F
                else if b & 0x01 != 0 then 0xDB5C else 0xCB7D
          else
            if b & 0x08 != 0 then
              if b & 0x04 != 0 then
                if b & 0x02 != 0 then if b & 0x01 != 0 then 0x28A3 else 0x3882
                else if b & 0x01 != 0 then 0x08E1 else 0x18C0
              else
                if b & 0x02 != 0 then if b & 0x01 != 0 then 0x6827 else 0x7806
                else if b & 0x01 != 0 then 0x4865 else 0x5844
            else
              if b & 0x04 != 0 then
                if b & 0x02 != 0 then if b & 0x01 != 0 then 0xA9AB else 0xB98A
                else if b & 0x01 != 0 then 0x89E9 else 0x99C8
              else
                if b & 0x02 != 0 then if b & 0x01 != 0 then 0xE92F else 0xF90E
                else if b & 0x01 != 0 then 0xC96D else 0xD94C
      else
        if b & 0x20 != 0 then
          if b & 0x10 != 0 then
            if b & 0x08 != 0 then
              if b & 0x04 != 0 then
                if b & 0x02 != 0 then if b & 0x01 != 0 then 0x5634 else 0x4615
                else if b & 0x01 != 0 then 0x7676 else 0x6657
              else
                if b & 0x02 != 0 then if b & 0x01 != 0 then 0x16B0 else 0x0691
                else if b & 0x01 != 0 then 0x36F2 else 0x26D3
            else
              if b & 0x04 != 0 then
                if b & 0x02 != 0 then if b & 0x01 != 0 then 0xD73C else 0xC71D
                else if b & 0x01 != 0 then 0xF77E else 0xE75F
              else
                if b & 0x02 != 0 then if b & 0x01 != 0 then 0x97B8 else 0x8799
                else if b & 0x01 != 0 then 0xB7FA else 0xA7DB
          else
            if b & 0x08 != 0 then
              if b & 0x04 != 0 then
                if b & 0x02 != 0 then if b & 0x01 != 0 then 0x4405 else 0x5424
                else if b & 0x01 != 0 then 0x6447 else 0x7466
              else
                if b & 0x02 != 0 then if b & 0x01 != 0 then 0x0481 else 0x14A0
                else if b & 0x01 != 0 then 0x24C3 else 0x34E2
            else
              if b & 0x04 != 0 then
                if b & 0x02 != 0 then if b & 0x01 != 0 then 0xC50D else 0xD52C
                else if b & 0x01 != 0 then 0xE54F else 0xF56E
              else
                if b & 0x02 != 0 then if b & 0x01 != 0 then 0x8589 else 0x95A8
                else if b & 0x01 != 0 then 0xA5CB else 0xB5EA
        else
          if b & 0x10 != 0 then
            if b & 0x08 != 0 then
              if b & 0x04 != 0 then
                if b & 0x02 != 0 then if b & 0x01 != 0 then 0x7256 else 0x6277
                else if b & 0x01 != 0 then 0x5214 else 0x4235
              else
                if b & 0x02 != 0 then if b & 0x01 != 0 then 0x32D2 else 0x22F3
                else if b & 0x01 != 0 then 0x1290 else 0x02B1
            else
              if b & 0x04 != 0 then
                if b & 0x02 != 0 then if b & 0x01 != 0 then 0xF35E else 0xE37F
                else if b & 0x01 != 0 then 0xD31C else 0xC33D
              else
                if b & 0x02 != 0 then if b & 0x01 != 0 then 0xB3DA else 0xA3FB
                else if b & 0x01 != 0 then 0x9398 else 0x83B9
          else
            if b & 0x08 != 0 then
              if b & 0x04 != 0 then
                if b & 0x02 != 0 then if b & 0x01 != 0 then 0x6067 else 0x7046
                else if b & 0x01 != 0 then 0x4025 else 0x5004
              else
                if b & 0x02 != 0 then if b & 0x01 != 0 then 0x20E3 else 0x30C2
                else if b & 0x01 != 0 then 0x00A1 else 0x1080
            else
              if b & 0x04 != 0 then
                if b & 0x02 != 0 then if b & 0x01 != 0 then 0xE16F else 0xF14E
                else if b & 0x01 != 0 then 0xC12D else 0xD10C
              else
                if b & 0x02 != 0 then if b & 0x01 != 0 then 0xA1EB else 0xB1CA
                else if b & 0x01 != 0 then 0x81A9 else 0x9188
    else
      if b & 0x40 != 0 then
        if b & 0x20 != 0 then
          if b & 0x10 != 0 then
            if b & 0x08 != 0 then
              if b & 0x04 != 0 then
                if b & 0x02 != 0 then if b & 0x01 != 0 then 0x8F78 else 0x9F59
                else if b & 0x01 != 0 then 0xAF3A else 0xBF1B
              else
                if b & 0x02 != 0 then if b & 0x01 != 0 then 0xCFFC else 0xDFDD
                else if b & 0x01 != 0 then 0xEFBE else 0xFF9F
            else
              if b & 0x04 != 0 then
                if b & 0x02 != 0 then if b & 0x01 != 0 then 0x0E70 else 0x1E51
                else if b & 0x01 != 0 then 0x2E32 else 0x3E13
              else
                if b & 0x02 != 0 then if b & 0x01 != 0 then 0x4EF4 else 0x5ED5
                else if b & 0x01 != 0 then 0x6EB6 else 0x7E97
          else
            if b & 0x08 != 0 then
              if b & 0x04 != 0 then
                if b & 0x02 != 0 then if b & 0x01 != 0 then 0x9D49 else 0x8D68
                else if b & 0x01 != 0 then 0xBD0B else 0xAD2A
              else
                if b & 0x02 != 0 then if b & 0x01 != 0 then 0xDDCD else 0xCDEC
                else if b & 0x01 != 0 then 0xFD8F else 0xEDAE
            else
              if b & 0x04 != 0 then
                if b & 0x02 != 0 then if b & 0x01 != 0 then 0x1C41 else 0x0C60
                else if b & 0x01 != 0 then 0x3C03 else 0x2C22
              else
                if b & 0x02 != 0 then if b & 0x01 != 0 then 0x5CC5 else 0x4CE4
                else if b & 0x01 != 0 then 0x7C87 else 0x6CA6
        else
          if b & 0x10 != 0 then
            if b & 0x08 != 0 then
              if b & 0x04 != 0 then
                if b & 0x02 != 0 then if b & 0x01 != 0 then 0xAB1A else 0xBB3B
                else if b & 0x01 != 0 then 0x8B58 else 0x9B79
              else
                if b & 0x02 != 0 then if b & 0x01 != 0 then 0xEB9E else 0xFBBF
                else if b & 0x01 != 0 then 0xCBDC else 0xDBFD
            else
              if b & 0x04 != 0 then
                if b & 0x02 != 0 then if b & 0x01 != 0 then 0x2A12 else 0x3A33
                else if b & 0x01 != 0 then 0x0A50 else 0x1A71
              else
                if b & 0x02 != 0 then if b & 0x01 != 0 then 0x6A96 else 0x7AB7
                else if b & 0x01 != 0 then 0x4AD4 else 0x5AF5
          else
            if b & 0x08 != 0 then
              if b & 0x04 != 0 then
                if b & 0x02 != 0 then if b & 0x01 != 0 then 0xB92B else 0xA90A
                else if b & 0x01 != 0 then 0x9969 else 0x8948
              else
                if b & 0x02 != 0 then if b & 0x01 != 0 then 0xF9AF else 0xE98E
                else if b & 0x01 != 0 then 0xD9ED else 0xC9CC
            else
              if b & 0x04 != 0 then
                if b & 0x02 != 0 then if b & 0x01 != 0 then 0x3823 else 0x2802
                else if b & 0x01 != 0 then 0x1861 else 0x0840
              else
                if b & 0x02 != 0 then if b & 0x01 != 0 then 0x78A7 else 0x6886
                else if b & 0x01 != 0 then 0x58E5 else 0x48C4
      else
        if b & 0x20 != 0 then
          if b & 0x10 != 0 then
            if b & 0x08 != 0 then
              if b & 0x04 != 0 then
                if b & 0x02 != 0 then if b & 0x01 != 0 then 0xC7BC else 0xD79D
                else if b & 0x01 != 0 then 0xE7FE else 0xF7DF
              else
                if b & 0x02 != 0 then if b & 0x01 != 0 then 0x8738 else 0x9719
                else if b & 0x01 != 0 then 0xA77A else 0xB75B
            else
              if b & 0x04 != 0 then
                if b & 0x02 != 0 then if b & 0x01 != 0 then 0x46B4 else 0x5695
                else if b & 0x01 != 0 then 0x66F6 else 0x76D7
              else
                if b & 0x02 != 0 then if b & 0x01 != 0 then 0x0630 else 0x1611
                else if b & 0x01 != 0 then 0x2672 else 0x3653
          else
            if b & 0x08 != 0 then
              if b & 0x04 != 0 then
                if b & 0x02 != 0 then if b & 0x01 != 0 then 0xD58D else 0xC5AC
                else if b & 0x01 != 0 then 0xF5CF else 0xE5EE
              else
                if b & 0x02 != 0 then if b & 0x01 != 0 then 0x9509 else 0x8528
                else if b & 0x01 != 0 then 0xB54B else 0xA56A
            else
              if b & 0x04 != 0 then
                if b & 0x02 != 0 then if b & 0x01 != 0 then 0x5485 else 0x44A4
                else if b & 0x01 != 0 then 0x74C7 else 0x64E6
              else
                if b & 0x02 != 0 then if b & 0x01 != 0 then 0x1401 else 0x0420
                else if b & 0x01 != 0 then 0x3443 else 0x2462
        else
          if b & 0x10 != 0 then
            if b & 0x08 != 0 then
              if b & 0x04 != 0 then
                if b & 0x02 != 0 then if b & 0x01 != 0 then 0xE3DE else 0xF3FF
                else if b & 0x01 != 0 then 0xC39C else 0xD3BD
              else
                if b & 0x02 != 0 then if b & 0x01 != 0 then 0xA35A else 0xB37B
                else if b & 0x01 != 0 then 0x8318 else 0x9339
            else
              if b & 0x04 != 0 then
                if b & 0x02 != 0 then if b & 0x01 != 0 then 0x62D6 else 0x72F7
                else if b & 0x01 != 0 then 0x4294 else 0x52B5
              else
                if b & 0x02 != 0 then if b & 0x01 != 0 then 0x2252 else 0x3273
                else if b & 0x01 != 0 then 0x0210 else 0x1231
          else
            if b & 0x08 != 0 then
              if b & 0x04 != 0 then
                if b & 0x02 != 0 then if b & 0x01 != 0 then 0xF1EF else 0xE1CE
                else if b & 0x01 != 0 then 0xD1AD else 0xC18C
              else
                if b & 0x02 != 0 then if b & 0x01 != 0 then 0xB16B else 0xA14A
                else if b & 0x01 != 0 then 0x9129 else 0x8108
            else
              if b & 0x04 != 0 then
                if b & 0x02 != 0 then if b & 0x01 != 0 then 0x70E7 else 0x60C6
                else if b & 0x01 != 0 then 0x50A5 else 0x4084
              else
                if b & 0x02 != 0 then if b & 0x01 != 0 then 0x3063 else 0x2042
                else if b & 0x01 != 0 then 0x1021 else 0x0000
  }

  lemma TableLow(b: byte)
    requires b & 0x30 == 0
    ensures Table(b) == Shift8((b as bv16) << 8)
  {
  }

  lemma TableFifth(b: byte)
    requires b & 0x30 == 0x10
    ensures Table(b) == Shift8((b as bv16) << 8)
  {
  }

  lemma TableSixth(b: byte)
    requires b & 0x30 == 0x20
    ensures Table(b) == Shift8((b as bv16) << 8)
  {
  }

  lemma TableBoth(b: byte)
    requires b & 0x30 == 0x30
    ensures Table(b) == Shift8((b as bv16) << 8)
  {
  }

  lemma TwoBits(b: byte)
    ensures b & 0x30 == 0 || b & 0x30 == 0x10 || b & 0x30 == 0x20 || b & 0x30 == 0x30
  {
  }

  /** Every table entry is the division of its index. */
  lemma TableIsDivision(b: byte)
    ensures Table(b) == Shift8((b as bv16) << 8)
  {
    TwoBits(b);
    if b & 0x30 == 0 {
      TableLow(b);
    } else if b & 0x30 == 0x10 {
      TableFifth(b);
    } else if b & 0x30 == 0x20 {
      TableSixth(b);
    } else {
      TableBoth(b);
    }
  }

  function Xor(x: bv16, y: bv16): bv16 {
    x ^ y
  }

  function Up(w: bv16): bv16 {
    w << 8
  }

  predicate Fits(w: bv16) {
    w < 0x100
  }

  function Ops16(): Ops<bv16> {
    Ops(Shift, 8, Xor, 0, Up, Fits)
  }

  /** A byte as the low end of a register. */
  function Widen(b: byte): bv16 {
    b as bv16
  }

  // ---------------------------------------------------------------- bit patterns

  predicate Top(x: bv16) {
    x & 0x8000 != 0
  }

  lemma ShiftLinearOdd(x: bv16, y: bv16)
    requires Top(x) && Top(y)
    ensures Shift(Xor(x, y)) == Xor(Shift(x), Shift(y))
  {
  }

  lemma ShiftLinearMixed(x: bv16, y: bv16)
    requires Top(x) && !Top(y)
    ensures Shift(Xor(x, y)) == Xor(Shift(x), Shift(y)) && Shift(Xor(y, x)) == Xor(Shift(y), Shift(x))
  {
  }

  lemma ShiftLinearEven(x: bv16, y: bv16)
    requires !Top(x) && !Top(y)
    ensures Shift(Xor(x, y)) == Xor(Shift(x), Shift(y))
  {
  }

  lemma ShiftLinear(x: bv16, y: bv16)
    ensures Shift(Xor(x, y)) == Xor(Shift(x), Shift(y))
  {
    if Top(x) && Top(y) {
      ShiftLinearOdd(x, y);
    } else if Top(x) {
      ShiftLinearMixed(x, y);
    } else if Top(y) {
      ShiftLinearMixed(y, x);
    } else {
      ShiftLinearEven(x, y);
    }
  }

  lemma LawLinear()
    ensures Ops16().Linear()
  {
    var o := Ops16();
    forall x, y
      ensures o.f(o.xor(x, y)) == o.xor(o.f(x), o.f(y))
    {
      ShiftLinear(x, y);
    }
  }

  lemma IterShift(x: bv16)
    ensures Iter(Shift, x, 8) == Shift8(x)
  {
    IterEight(Shift, x, 8);
  }

  /** A byte below the register only moves up. */
  lemma Shift8Low(x: bv16)
    requires x < 0x100
    ensures Shift8(x) == x << 8
  {
  }

  lemma ByteFits(b: byte)
    ensures (b as bv16) < 0x100
  {
  }

  lemma LawRaises(data: seq<byte>)
    ensures Raises(Ops16(), Embed(Widen, data))
  {
    forall i | 0 <= i < |data|
      ensures Iter(Ops16().f, Embed(Widen, data)[i], Ops16().n) == Ops16().up(Embed(Widen, data)[i])
    {
      EmbedAt(data, i);
      ByteFits(data[i]);
      IterShift(data[i] as bv16);
      Shift8Low(data[i] as bv16);
    }
  }

  lemma {:induction false} EmbedAt(data: seq<byte>, i: nat)
    requires i < |data|
    ensures Embed(Widen, data)[i] == data[i] as bv16
  {
    if i > 0 {
      EmbedAt(data[1..], i - 1);
    }
  }

  /** The bit patterns of the table stay behind this property from here on. */
  ghost predicate Divides(table: byte -> bv16) {
    forall b :: table(b) == Iter(Shift, Up(Widen(b)), 8)
  }

  lemma TableDivides()
    ensures Divides(Table)
  {
    forall b
      ensures Table(b) == Iter(Shift, Up(Widen(b)), 8)
    {
      TableIsDivision(b);
      IterShift(Up(Widen(b)));
    }
  }

  function High(r: bv16): byte {
    (r >> 8) as bv8
  }

  function Low(r: bv16): byte {
    (r & 0xFF) as bv8
  }

  lemma Halves(x: bv16)
    ensures Xor(Widen(Low(x)), Up(Widen(High(x)))) == x && Widen(Low(x)) < 0x100 && Up(Widen(Low(x))) == Up(x)
  {
  }

  lemma LowHalf(x: bv16)
    ensures Iter(Shift, Widen(Low(x)), 8) == Up(x)
  {
    Halves(x);
    IterShift(Widen(Low(x)));
    Shift8Low(Widen(Low(x)));
  }

  /** One table step without the byte: eight bits of division. */
  lemma TableWalk(table: byte -> bv16, x: bv16)
    requires Divides(table)
    ensures Xor(Up(x), table(High(x))) == Iter(Shift, x, 8)
  {
    Halves(x);
    LowHalf(x);
    LawLinear();
    IterLinear(Ops16(), Widen(Low(x)), Up(Widen(High(x))), 8);
  }

  // ---------------------------------------------------------------- HiSilicon: calc_crc

  /** A non-negative Python integer: its low 16 bits, and the rest, which nothing ever masks off. */
  datatype PyInt = PyInt(high: nat, low: bv16) {
    function Value(): nat {
      high * 0x10000 + Value16(low)
    }

    /** `(crc << 8) | byte` */
    function ShiftIn(b: byte): PyInt {
      PyInt(high * 0x100 + Value16(low >> 8), Xor(low << 8, b as bv16))
    }

    /** `crc ^ t` for a table entry `t` */
    function Mix(t: bv16): PyInt {
      PyInt(high, Xor(low, t))
    }

    /** `(crc >> 8) & 0xFF` */
    function Index(): byte {
      (low >> 8) as bv8
    }
  }

  function Value16(v: bv16): nat {
    v as int
  }

  lemma SplitValue(v: bv16)
    ensures Value16(v) == 0x100 * Value16(v >> 8) + Value16(v & 0xFF)
  {
  }

  lemma JoinBits(v: bv16, b: byte)
    ensures ((v << 8) ^ (b as bv16)) as int == 0x100 * ((v & 0xFF) as int) + b as int
  {
  }

  lemma JoinValue(v: bv16, b: byte)
    ensures Value16(Xor(v << 8, b as bv16)) == 0x100 * Value16(v & 0xFF) + b as int
  {
    JoinBits(v, b);
  }

  lemma ShiftInArithmetic(high: nat, low: nat, top: nat, bottom: nat, joined: nat, b: nat)
    requires low == 0x100 * top + bottom && joined == 0x100 * bottom + b
    ensures (high * 0x100 + top) * 0x10000 + joined == (high * 0x10000 + low) * 0x100 + b
  {
  }

  /** The representation is right: shifting a byte in multiplies by 256 and adds. */
  lemma ShiftInValue(x: PyInt, b: byte)
    ensures x.ShiftIn(b).Value() == x.Value() * 0x100 + b as int
  {
    SplitValue(x.low);
    JoinValue(x.low, b);
    ShiftInArithmetic(x.high, Value16(x.low), Value16(x.low >> 8), Value16(x.low & 0xFF),
                      Value16(Xor(x.low << 8, b as bv16)), b as int);
  }

  /** One turn of the loop: the accumulator is never masked. */
  function CalcStep(table: byte -> bv16, crc: PyInt, b: byte): PyInt {
    crc.ShiftIn(b).Mix(table(crc.Index()))
  }

  function CalcTurn(table: byte -> bv16): (PyInt, byte) -> PyInt {
    (crc, b) => CalcStep(table, crc, b)
  }

  function CalcLoop(turn: (PyInt, byte) -> PyInt, crc: PyInt, data: seq<byte>): PyInt
    decreases |data|
  {
    if data == [] then crc else CalcLoop(turn, turn(crc, data[0]), data[1..])
  }

  function CalcWith(turn: (PyInt, byte) -> PyInt, data: seq<byte>, crc: PyInt): PyInt {
    turn(turn(CalcLoop(turn, crc, data), 0), 0)
  }

  /** `calc_crc`: the loop, two zero bytes, and only then a mask. */
  function CalcCrc(data: seq<byte>, crc: PyInt): bv16 {
    CalcWith(CalcTurn(Table), data, crc).low
  }

  method CalcPython(turn: (PyInt, byte) -> PyInt, data: seq<byte>, start: PyInt) returns (crc: PyInt)
    ensures crc == CalcWith(turn, data, start)
  {
    crc := start;
    assert data[0..] == data;
    for i := 0 to |data|
      invariant CalcLoop(turn, crc, data[i..]) == CalcLoop(turn, start, data)
    {
      assert data[i..][1..] == data[i + 1..];
      crc := turn(crc, data[i]);
    }
    assert data[|data|..] == [];
    crc := turn(crc, 0);
    crc := turn(crc, 0);
  }

  method CalcCrcPython(data: seq<byte>, start: PyInt) returns (r: bv16)
    ensures r == CalcCrc(data, start)
  {
    var crc := CalcPython(CalcTurn(Table), data, start);
    r := crc.low;
  }

  lemma XorRearranged(a: bv16, b: bv16, t: bv16)
    ensures Xor(Xor(a, b), t) == Xor(Xor(a, t), b)
  {
  }

  /** One turn of the unmasked loop is one turn of the 16-bit register fed from below. */
  lemma CalcStepLow(table: byte -> bv16, crc: PyInt, b: byte)
    requires Divides(table)
    ensures CalcStep(table, crc, b).low == Xor(Iter(Shift, crc.low, 8), Widen(b))
  {
    XorRearranged(Up(crc.low), Widen(b), table(High(crc.low)));
    TableWalk(table, crc.low);
  }

  /** The turns of `turn` feed the register of `o` from below. */
  ghost predicate Feeds(o: Ops<bv16>, turn: (PyInt, byte) -> PyInt) {
    forall crc, b :: turn(crc, b).low == o.xor(Iter(o.f, crc.low, o.n), Widen(b))
  }

  lemma CalcFeeds(table: byte -> bv16)
    requires Divides(table)
    ensures Feeds(Ops16(), CalcTurn(table))
  {
    forall crc, b
      ensures CalcTurn(table)(crc, b).low == Ops16().xor(Iter(Ops16().f, crc.low, Ops16().n), Widen(b))
    {
      CalcStepLow(table, crc, b);
    }
  }

  lemma {:induction false} CalcLoopLow(o: Ops<bv16>, turn: (PyInt, byte) -> PyInt, crc: PyInt, data: seq<byte>)
    requires Feeds(o, turn)
    ensures CalcLoop(turn, crc, data).low == Feed(o, crc.low, Embed(Widen, data))
    decreases |data|
  {
    if data != [] {
      CalcLoopLow(o, turn, turn(crc, data[0]), data[1..]);
      FeedOne(o, crc.low, Embed(Widen, data));
      assert Embed(Widen, data)[1..] == Embed(Widen, data[1..]);
    }
  }

  lemma FeedOne(o: Ops<bv16>, r: bv16, us: seq<bv16>)
    requires us != []
    ensures Feed(o, r, us) == Feed(o, o.xor(Iter(o.f, r, o.n), us[0]), us[1..])
  {
  }

  lemma XorZero(x: bv16)
    ensures Xor(x, 0) == x
  {
  }

  // ---------------------------------------------------------------- Rockchip: rk_crc16

  /** `rk_crc16`: bytes enter at the top of a masked register. */
  function RkCrc(data: seq<byte>, crc: bv16): bv16 {
    Update(Ops16(), crc, MapUp(Ops16(), Embed(Widen, data)))
  }

  lemma XorShift(crc: bv16, b: byte)
    ensures Up(Xor(crc, Up(Widen(b)))) == Up(crc) && High(Xor(crc, Up(Widen(b)))) == High(crc) ^ b
  {
  }

  /** The loop body, table and all. */
  function Walk(table: byte -> bv16): (bv16, byte) -> bv16 {
    (crc, b) => Xor(Up(crc), table(High(crc) ^ b))
  }

  lemma RkStep(table: byte -> bv16, crc: bv16, b: byte)
    requires Divides(table)
    ensures Walk(table)(crc, b) == Iter(Shift, Xor(crc, Up(Widen(b))), 8)
  {
    XorShift(crc, b);
    TableWalk(table, Xor(crc, Up(Widen(b))));
  }

  /** The register `c` with `rest` still to come leads to `want`. */
  ghost predicate Leads(o: Ops<bv16>, c: bv16, rest: seq<byte>, want: bv16) {
    forall y {:trigger Is(y, rest)} | Is(y, rest) :: Update(o, c, MapUp(o, Embed(Widen, y))) == want
  }

  ghost predicate Walks(o: Ops<bv16>, walk: (bv16, byte) -> bv16) {
    forall c, b :: walk(c, b) == Iter(o.f, o.xor(c, o.up(Widen(b))), o.n)
  }

  lemma TableWalks(table: byte -> bv16)
    requires Divides(table)
    ensures Walks(Ops16(), Walk(table))
  {
    forall c, b
      ensures Walk(table)(c, b) == Iter(Ops16().f, Ops16().xor(c, Ops16().up(Widen(b))), Ops16().n)
    {
      RkStep(table, c, b);
    }
  }

  lemma LeadsOn(o: Ops<bv16>, walk: (bv16, byte) -> bv16, c: bv16, rest: seq<byte>, want: bv16)
    requires rest != [] && Walks(o, walk) && Leads(o, c, rest, want)
    ensures Leads(o, walk(c, rest[0]), rest[1..], want)
  {
    assert Is(rest, rest);
    assert Embed(Widen, rest)[1..] == Embed(Widen, rest[1..]);
    assert MapUp(o, Embed(Widen, rest))[1..] == MapUp(o, Embed(Widen, rest)[1..]);
  }

  lemma LeadsEnd(o: Ops<bv16>, c: bv16, want: bv16)
    requires Leads(o, c, [], want)
    ensures c == want
  {
    assert Is<seq<byte>>([], []);
  }

  method RkLoop(ghost o: Ops<bv16>, walk: (bv16, byte) -> bv16, start: bv16, data: seq<byte>) returns (crc: bv16)
    requires Walks(o, walk)
    ensures crc == Update(o, start, MapUp(o, Embed(Widen, data)))
  {
    crc := start;
    ghost var want := Update(o, crc, MapUp(o, Embed(Widen, data)));
    assert data[0..] == data;
    var i := 0;
    while i < |data|
      invariant 0 <= i <= |data| && Leads(o, crc, data[i..], want)
    {
      LeadsOn(o, walk, crc, data[i..], want);
      assert data[i..][1..] == data[i + 1..];
      crc := walk(crc, data[i]);
      i := i + 1;
    }
    assert data[i..] == [];
    LeadsEnd(o, crc, want);
  }

  method RkCrc16(data: seq<byte>, start: bv16) returns (crc: bv16)
    ensures crc == RkCrc(data, start)
  {
    TableDivides();
    TableWalks(Table);
    crc := RkLoop(Ops16(), Walk(Table), start, data);
  }

  // ---------------------------------------------------------------- main results

  lemma ZeroStays()
    ensures Iter(Shift, 0, 8) == 0
  {
    IterShift(0);
  }

  /** Two zero bytes more move the register on by two symbols. */
  lemma CalcWithLow(o: Ops<bv16>, turn: (PyInt, byte) -> PyInt, data: seq<byte>, crc: PyInt)
    requires Feeds(o, turn) && o.Associative() && o.zero == Widen(0)
    ensures CalcWith(turn, data, crc).low
            == Iter(o.f, Iter(o.f, Feed(o, crc.low, Embed(Widen, data)), o.n), o.n)
  {
    CalcLoopLow(o, turn, crc, data);
    var x := CalcLoop(turn, crc, data);
    assert turn(x, 0).low == o.xor(Iter(o.f, x.low, o.n), o.zero);
    assert turn(turn(x, 0), 0).low == o.xor(Iter(o.f, turn(x, 0).low, o.n), o.zero);
  }

  /** HiSilicon's unmasked loop with its two zero bytes is Rockchip's register, started two zero bytes on. */
  lemma CalcIsRk(data: seq<byte>, crc: PyInt)
    ensures CalcCrc(data, crc) == RkCrc(data, Iter(Shift, Iter(Shift, crc.low, 8), 8))
  {
    LawAssociative();
    TableDivides();
    CalcFeeds(Table);
    CalcWithLow(Ops16(), CalcTurn(Table), data, crc);
    LawLinear();
    LawRaises(data);
    FeedIsUpdate(Ops16(), crc.low, Embed(Widen, data));
  }

  /** With seed 0 the two formulations coincide on every byte string. */
  lemma Coincide(data: seq<byte>)
    ensures CalcCrc(data, PyInt(0, 0)) == RkCrc(data, 0)
  {
    CalcIsRk(data, PyInt(0, 0));
    ZeroStays();
  }

  /** The CRC's own two bytes, most significant first. */
  function BigEndian(r: bv16): seq<byte> {
    [High(r), Low(r)]
  }

  lemma ResidueBits(r: bv16)
    ensures Xor(r, Up(High(r) as bv16)) == Low(r) as bv16
    ensures Xor((Low(r) as bv16) << 8, Up(Low(r) as bv16)) == 0
  {
  }

  lemma UpdateOne(o: Ops<bv16>, r: bv16, u: bv16, us: seq<bv16>)
    ensures Update(o, r, [u] + us) == Update(o, Iter(o.f, o.xor(r, u), o.n), us)
  {
    assert ([u] + us)[1..] == us;
  }

  lemma RaisedOne(o: Ops<bv16>, b: byte, rest: seq<byte>)
    ensures MapUp(o, Embed(Widen, [b] + rest)) == [o.up(b as bv16)] + MapUp(o, Embed(Widen, rest))
  {
    assert ([b] + rest)[1..] == rest;
    MapUpOne(o, b as bv16, Embed(Widen, rest));
  }

  lemma MapUpOne(o: Ops<bv16>, u: bv16, us: seq<bv16>)
    ensures MapUp(o, [u] + us) == [o.up(u)] + MapUp(o, us)
  {
    assert ([u] + us)[1..] == us;
  }

  lemma TwoBytes(o: Ops<bv16>, r: bv16, a: byte, b: byte)
    ensures Update(o, r, MapUp(o, Embed(Widen, [a, b])))
            == Iter(o.f, o.xor(Iter(o.f, o.xor(r, o.up(a as bv16)), o.n), o.up(b as bv16)), o.n)
  {
    assert [a, b] == [a] + ([b] + []);
    RaisedOne(o, a, [b] + []);
    RaisedOne(o, b, []);
    UpdateOne(o, r, o.up(a as bv16), MapUp(o, Embed(Widen, [b] + [])));
    UpdateOne(o, Iter(o.f, o.xor(r, o.up(a as bv16)), o.n), o.up(b as bv16), MapUp(o, Embed(Widen, [])));
  }

  /** Appending the CRC, most significant byte first, leaves a zero register: any seed, any data. */
  lemma Residue(data: seq<byte>, seed: bv16)
    ensures RkCrc(data + BigEndian(RkCrc(data, seed)), seed) == 0
  {
    var o, r := Ops16(), RkCrc(data, seed);
    EmbedAppend(Widen, data, BigEndian(r));
    MapUpAppend(o, Embed(Widen, data), Embed(Widen, BigEndian(r)));
    UpdateAppend(o, seed, MapUp(o, Embed(Widen, data)), MapUp(o, Embed(Widen, BigEndian(r))));
    TwoBytes(o, r, High(r), Low(r));
    ResidueTail(r);
  }

  lemma ResidueTail(r: bv16)
    ensures Iter(Shift, Xor(Iter(Shift, Xor(r, Up(High(r) as bv16)), 8), Up(Low(r) as bv16)), 8) == 0
  {
    ResidueBits(r);
    ByteFits(Low(r));
    IterShift(Low(r) as bv16);
    Shift8Low(Low(r) as bv16);
    ZeroStays();
  }

  /** `append_crc` */
  function AppendCrc(data: seq<byte>): seq<byte> {
    data + BigEndian(CalcCrc(data, PyInt(0, 0)))
  }

  /** The register is zero over what was appended to: the CRC goes behind the data, most significant byte first. */
  lemma AppendResidue(data: seq<byte>)
    ensures |AppendCrc(data)| == |data| + 2 && AppendCrc(data)[..|data|] == data && RkCrc(AppendCrc(data), 0) == 0
  {
    Coincide(data);
    Residue(data, 0);
  }

  /** `verify_crc` */
  predicate VerifyCrc(frame: seq<byte>) {
    |frame| >= 3 && BigEndian(CalcCrc(frame[..|frame| - 2], PyInt(0, 0))) == frame[|frame| - 2..]
  }

  /** What was appended verifies, unless there was nothing to append to. */
  lemma AppendVerifies(data: seq<byte>)
    ensures VerifyCrc(AppendCrc(data)) <==> data != []
  {
    var f := AppendCrc(data);
    assert f[..|f| - 2] == data && f[|f| - 2..] == BigEndian(CalcCrc(data, PyInt(0, 0)));
  }

  // ---------------------------------------------------------------- long division

  function Bit(b: byte, mask: byte): bv16 {
    if b & mask != 0 then 1 else 0
  }

  /** The bits of a byte, most significant first. */
  function ByteBits(b: byte): (r: seq<bv16>)
    ensures |r| == 8
  {
    [Bit(b, 0x80), Bit(b, 0x40), Bit(b, 0x20), Bit(b, 0x10), Bit(b, 0x08), Bit(b, 0x04), Bit(b, 0x02), Bit(b, 0x01)]
  }

  function Bits(data: seq<byte>): seq<bv16> {
    if data == [] then [] else ByteBits(data[0]) + Bits(data[1..])
  }

  /** Textbook binary long division by 0x11021: bring down the next bit, subtract when the top bit falls out. */
  function Divide(r: bv16, bits: seq<bv16>): bv16 {
    BitByBit(Ops16(), r, bits)
  }

  function In(x: bv16, bit: bv16): bv16 {
    Xor(Shift(x), bit)
  }

  /** Eight bits brought down into an empty register are the byte. */
  lemma EightBits(b: byte)
    ensures In(In(In(In(In(In(In(In(0, Bit(b, 0x80)), Bit(b, 0x40)), Bit(b, 0x20)), Bit(b, 0x10)),
                  Bit(b, 0x08)), Bit(b, 0x04)), Bit(b, 0x02)), Bit(b, 0x01)) == b as bv16
  {
  }

  lemma DivideByte(b: byte)
    ensures Divide(0, ByteBits(b)) == Widen(b)
  {
    var high := [Bit(b, 0x80), Bit(b, 0x40), Bit(b, 0x20), Bit(b, 0x10)];
    var low := [Bit(b, 0x08), Bit(b, 0x04), Bit(b, 0x02), Bit(b, 0x01)];
    assert ByteBits(b) == high + low;
    BitByBitAppend(Ops16(), 0, high, low);
    BitByBitFour(Ops16(), 0, high);
    BitByBitFour(Ops16(), Divide(0, high), low);
    EightBits(b);
  }

  lemma LawAssociative()
    ensures Ops16().Associative() && Ops16().f(Ops16().zero) == Ops16().zero
  {
    var o := Ops16();
    forall x, y, z {:trigger o.xor(o.xor(x, y), z)}
      ensures o.xor(o.xor(x, y), z) == o.xor(x, o.xor(y, z))
    {
      XorAssoc(x, y, z);
    }
    forall x
      ensures o.xor(x, o.zero) == x
    {
      XorZero(x);
    }
  }

  lemma XorAssoc(x: bv16, y: bv16, z: bv16)
    ensures Xor(Xor(x, y), z) == Xor(x, Xor(y, z))
  {
  }

  /** Eight turns of long division are one turn of the byte-wise register. */
  lemma DivideEight(r: bv16, b: byte)
    ensures Divide(r, ByteBits(b)) == Xor(Iter(Shift, r, 8), Widen(b))
  {
    LawLinear();
    LawAssociative();
    BitByBitSplit(Ops16(), r, ByteBits(b));
    DivideByte(b);
  }

  /** The bits of a byte, brought down one by one, are one symbol of `o`. */
  ghost predicate BitsFeed(o: Ops<bv16>) {
    forall r, b :: BitByBit(o, r, ByteBits(b)) == o.xor(Iter(o.f, r, o.n), Widen(b))
  }

  lemma DivisionFeeds()
    ensures BitsFeed(Ops16())
  {
    var o := Ops16();
    forall r, b
      ensures BitByBit(o, r, ByteBits(b)) == o.xor(Iter(o.f, r, o.n), Widen(b))
    {
      DivideEight(r, b);
    }
  }

  lemma {:induction false} DivideBytes(o: Ops<bv16>, r: bv16, data: seq<byte>)
    requires BitsFeed(o)
    ensures BitByBit(o, r, Bits(data)) == Feed(o, r, Embed(Widen, data))
    decreases |data|
  {
    if data != [] {
      BitByBitAppend(o, r, ByteBits(data[0]), Bits(data[1..]));
      DivideBytes(o, o.xor(Iter(o.f, r, o.n), Widen(data[0])), data[1..]);
      FeedOne(o, r, Embed(Widen, data));
      assert Embed(Widen, data)[1..] == Embed(Widen, data[1..]);
    }
  }

  lemma {:induction false} CalcLoopAppend(turn: (PyInt, byte) -> PyInt, crc: PyInt, a: seq<byte>, b: seq<byte>)
    ensures CalcLoop(turn, crc, a + b) == CalcLoop(turn, CalcLoop(turn, crc, a), b)
    decreases |a|
  {
    if a == [] {
      assert a + b == b;
    } else {
      assert (a + b)[1..] == a[1..] + b;
      CalcLoopAppend(turn, turn(crc, a[0]), a[1..], b);
    }
  }

  lemma CalcTwo(turn: (PyInt, byte) -> PyInt, crc: PyInt, a: byte, b: byte)
    ensures CalcLoop(turn, crc, [a, b]) == turn(turn(crc, a), b)
  {
    assert [a, b][1..] == [b] && [b][1..] == [];
    assert CalcLoop(turn, turn(crc, a), [b]) == CalcLoop(turn, turn(turn(crc, a), b), []);
  }

  /** The two zero bytes are two more turns of the loop. */
  lemma CalcWithZeros(turn: (PyInt, byte) -> PyInt, data: seq<byte>, crc: PyInt)
    ensures CalcWith(turn, data, crc) == CalcLoop(turn, crc, data + [0, 0])
  {
    CalcLoopAppend(turn, crc, data, [0, 0]);
    CalcTwo(turn, CalcLoop(turn, crc, data), 0, 0);
  }

  /** Both formulations are the remainder of the message, shifted up by 16 bits, on division by 0x11021. */
  lemma LongDivision(data: seq<byte>)
    ensures CalcCrc(data, PyInt(0, 0)) == Divide(0, Bits(data + [0, 0]))
    ensures RkCrc(data, 0) == Divide(0, Bits(data + [0, 0]))
  {
    CalcWithZeros(CalcTurn(Table), data, PyInt(0, 0));
    TableDivides();
    CalcFeeds(Table);
    CalcLoopLow(Ops16(), CalcTurn(Table), PyInt(0, 0), data + [0, 0]);
    DivisionFeeds();
    DivideBytes(Ops16(), 0, data + [0, 0]);
    Coincide(data);
  }
}
