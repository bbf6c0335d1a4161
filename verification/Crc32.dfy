/**
  The CRC-32 of agent packets and flash ranges (agent/protocol.c:10-54): a byte-wise table walk that equals
  bit-wise division by the reflected polynomial 0xEDB88320.
 */
module Crc32 {
  import opened Bytes
  import opened CrcAlgebra

  /** One bit of the division. */
  function Shift(x: bv32): bv32 {
    if x & 1 != 0 then (x >> 1) ^ 0xEDB88320 else x >> 1
  }

  /** Eight bits of it. */
  function Shift8(x: bv32): bv32 {
    Shift(Shift(Shift(Shift(Shift(Shift(Shift(Shift(x))))))))
  }

  /** The table of the C code, entry by entry, as a decision on the bits of the index. */
  function Table(b: byte): bv32 {
    if b & 0x80 != 0 then
      if b & 0x40 != 0 then
        if b & 0x20 != 0 then
          if b & 0x10 != 0 then
            if b & 0x08 != 0 then
              if b & 0x04 != 0 then
                if b & 0x02 != 0 then if b & 0x01 != 0 then 0x2D02EF8D else 0x5A05DF1B
                else if b & 0x01 != 0 then 0xC30C8EA1 else 0xB40BBE37
              else
                if b & 0x02 != 0 then if b & 0x01 != 0 then 0x2A6F2B94 else 0x5D681B02
                else if b & 0x01 != 0 then 0xC4614AB8 else 0xB3667A2E
            else
              if b & 0x04 != 0 then
                if b & 0x02 != 0 then if b & 0x01 != 0 then 0x23D967BF else 0x54DE5729
                else if b & 0x01 != 0 then 0xCDD70693 else 0xBAD03605
              else
                if b & 0x02 != 0 then if b & 0x01 != 0 then 0x24B4A3A6 else 0x53B39330
                else if b & 0x01 != 0 then 0xCABAC28A else 0xBDBDF21C
          else
            if b & 0x08 != 0 then
              if b & 0x04 != 0 then
                if b & 0x02 != 0 then if b & 0x01 != 0 then 0x30B5FFE9 else 0x47B2CF7F
                else if b & 0x01 != 0 then 0xDEBB9EC5 else 0xA9BCAE53
              else
                if b & 0x02 != 0 then if b & 0x01 != 0 then 0x37D83BF0 else 0x40DF0B66
                else if b & 0x01 != 0 then 0xD9D65ADC else 0xAED16A4A
            else
              if b & 0x04 != 0 then
                if b & 0x02 != 0 then if b & 0x01 != 0 then 0x3E6E77DB else 0x4969474D
                else if b & 0x01 != 0 then 0xD06016F7 else 0xA7672661
              else
                if b & 0x02 != 0 then if b & 0x01 != 0 then 0x3903B3C2 else 0x4E048354
                else if b & 0x01 != 0 then 0xD70DD2EE else 0xA00AE278
        else
          if b & 0x10 != 0 then
            if b & 0x08 != 0 then
              if b & 0x04 != 0 then
                if b & 0x02 != 0 then if b & 0x01 != 0 then 0x166CCF45 else 0x616BFFD3
                else if b & 0x01 != 0 then 0xF862AE69 else 0x8F659EFF
              else
                if b & 0x02 != 0 then if b & 0x01 != 0 then 0x11010B5C else 0x66063BCA
                else if b & 0x01 != 0 then 0xFF0F6A70 else 0x88085AE6
            else
              if b & 0x04 != 0 then
                if b & 0x02 != 0 then if b & 0x01 != 0 then 0x18B74777 else 0x6FB077E1
                else if b & 0x01 != 0 then 0xF6B9265B else 0x81BE16CD
              else
                if b & 0x02 != 0 then if b & 0x01 != 0 then 0x1FDA836E else 0x68DDB3F8
                else if b & 0x01 != 0 then 0xF1D4E242 else 0x86D3D2D4
          else
            if b & 0x08 != 0 then
              if b & 0x04 != 0 then
                if b & 0x02 != 0 then if b & 0x01 != 0 then 0x0BDBDF21 else 0x7CDCEFB7
                else if b & 0x01 != 0 then 0xE5D5BE0D else 0x92D28E9B
              else
                if b & 0x02 != 0 then if b & 0x01 != 0 then 0x0CB61B38 else 0x7BB12BAE
                else if b & 0x01 != 0 then 0xE2B87A14 else 0x95BF4A82
            else
              if b & 0x04 != 0 then
                if b & 0x02 != 0 then if b & 0x01 != 0 then 0x05005713 else 0x72076785
                else if b & 0x01 != 0 then 0xEB0E363F else 0x9C0906A9
              else
                if b & 0x02 != 0 then if b & 0x01 != 0 then 0x026D930A else 0x756AA39C
                else if b & 0x01 != 0 then 0xEC63F226 else 0x9B64C2B0
      else
        if b & 0x20 != 0 then
          if b & 0x10 != 0 then
            if b & 0x08 != 0 then
              if b & 0x04 != 0 then
                if b & 0x02 != 0 then if b & 0x01 != 0 then 0x5BDEAE1D else 0x2CD99E8B
                else if b & 0x01 != 0 then 0xB5D0CF31 else 0xC2D7FFA7
              else
                if b & 0x02 != 0 then if b & 0x01 != 0 then 0x5CB36A04 else 0x2BB45A92
                else if b & 0x01 != 0 then 0xB2BD0B28 else 0xC5BA3BBE
            else
              if b & 0x04 != 0 then
                if b & 0x02 != 0 then if b & 0x01 != 0 then 0x5505262F else 0x220216B9
                else if b & 0x01 != 0 then 0xBB0B4703 else 0xCC0C7795
              else
                if b & 0x02 != 0 then if b & 0x01 != 0 then 0x5268E236 else 0x256FD2A0
                else if b & 0x01 != 0 then 0xBC66831A else 0xCB61B38C
          else
            if b & 0x08 != 0 then
              if b & 0x04 != 0 then
                if b & 0x02 != 0 then if b & 0x01 != 0 then 0x4669BE79 else 0x316E8EEF
                else if b & 0x01 != 0 then 0xA867DF55 else 0xDF60EFC3
              else
                if b & 0x02 != 0 then if b & 0x01 != 0 then 0x41047A60 else 0x36034AF6
                else if b & 0x01 != 0 then 0xAF0A1B4C else 0xD80D2BDA
            else
              if b & 0x04 != 0 then
                if b & 0x02 != 0 then if b & 0x01 != 0 then 0x48B2364B else 0x3FB506DD
                else if b & 0x01 != 0 then 0xA6BC5767 else 0xD1BB67F1
              else
                if b & 0x02 != 0 then if b & 0x01 != 0 then 0x4FDFF252 else 0x38D8C2C4
                else if b & 0x01 != 0 then 0xA1D1937E else 0xD6D6A3E8
        else
          if b & 0x10 != 0 then
            if b & 0x08 != 0 then
              if b & 0x04 != 0 then
                if b & 0x02 != 0 then if b & 0x01 != 0 then 0x60B08ED5 else 0x17B7BE43
                else if b & 0x01 != 0 then 0x8EBEEFF9 else 0xF9B9DF6F
              else
                if b & 0x02 != 0 then if b & 0x01 != 0 then 0x67DD4ACC else 0x10DA7A5A
                else if b & 0x01 != 0 then 0x89D32BE0 else 0xFED41B76
            else
              if b & 0x04 != 0 then
                if b & 0x02 != 0 then if b & 0x01 != 0 then 0x6E6B06E7 else 0x196C3671
                else if b & 0x01 != 0 then 0x806567CB else 0xF762575D
              else
                if b & 0x02 != 0 then if b & 0x01 != 0 then 0x6906C2FE else 0x1E01F268
                else if b & 0x01 != 0 then 0x8708A3D2 else 0xF00F9344
          else
            if b & 0x08 != 0 then
              if b & 0x04 != 0 then
                if b & 0x02 != 0 then if b & 0x01 != 0 then 0x7D079EB1 else 0x0A00AE27
                else if b & 0x01 != 0 then 0x9309FF9D else 0xE40ECF0B
              else
                if b & 0x02 != 0 then if b & 0x01 != 0 then 0x7A6A5AA8 else 0x0D6D6A3E
                else if b & 0x01 != 0 then 0x94643B84 else 0xE3630B12
            else
              if b & 0x04 != 0 then
                if b & 0x02 != 0 then if b & 0x01 != 0 then 0x73DC1683 else 0x04DB2615
                else if b & 0x01 != 0 then 0x9DD277AF else 0xEAD54739
              else
                if b & 0x02 != 0 then if b & 0x01 != 0 then 0x74B1D29A else 0x03B6E20C
                else if b & 0x01 != 0 then 0x9ABFB3B6 else 0xEDB88320
    else
      if b & 0x40 != 0 then
        if b & 0x20 != 0 then
          if b & 0x10 != 0 then
            if b & 0x08 != 0 then
              if b & 0x04 != 0 then
                if b & 0x02 != 0 then if b & 0x01 != 0 then 0xC0BA6CAD else 0xB7BD5C3B
                else if b & 0x01 != 0 then 0x2EB40D81 else 0x59B33D17
              else
                if b & 0x02 != 0 then if b & 0x01 != 0 then 0xC7D7A8B4 else 0xB0D09822
                else if b & 0x01 != 0 then 0x29D9C998 else 0x5EDEF90E
            else
              if b & 0x04 != 0 then
                if b & 0x02 != 0 then if b & 0x01 != 0 then 0xCE61E49F else 0xB966D409
                else if b & 0x01 != 0 then 0x206F85B3 else 0x5768B525
              else
                if b & 0x02 != 0 then if b & 0x01 != 0 then 0xC90C2086 else 0xBE0B1010
                else if b & 0x01 != 0 then 0x270241AA else 0x5005713C
          else
            if b & 0x08 != 0 then
              if b & 0x04 != 0 then
                if b & 0x02 != 0 then if b & 0x01 != 0 then 0xDD0D7CC9 else 0xAA0A4C5F
                else if b & 0x01 != 0 then 0x33031DE5 else 0x44042D73
              else
                if b & 0x02 != 0 then if b & 0x01 != 0 then 0xDA60B8D0 else 0xAD678846
                else if b & 0x01 != 0 then 0x346ED9FC else 0x4369E96A
            else
              if b & 0x04 != 0 then
                if b & 0x02 != 0 then if b & 0x01 != 0 then 0xD3D6F4FB else 0xA4D1C46D
                else if b & 0x01 != 0 then 0x3DD895D7 else 0x4ADFA541
              else
                if b & 0x02 != 0 then if b & 0x01 != 0 then 0xD4BB30E2 else 0xA3BC0074
                else if b & 0x01 != 0 then 0x3AB551CE else 0x4DB26158
        else
          if b & 0x10 != 0 then
            if b & 0x08 != 0 then
              if b & 0x04 != 0 then
                if b & 0x02 != 0 then if b & 0x01 != 0 then 0xFBD44C65 else 0x8CD37CF3
                else if b & 0x01 != 0 then 0x15DA2D49 else 0x62DD1DDF
              else
                if b & 0x02 != 0 then if b & 0x01 != 0 then 0xFCB9887C else 0x8BBEB8EA
                else if b & 0x01 != 0 then 0x12B7E950 else 0x65B0D9C6
            else
              if b & 0x04 != 0 then
                if b & 0x02 != 0 then if b & 0x01 != 0 then 0xF50FC457 else 0x8208F4C1
                else if b & 0x01 != 0 then 0x1B01A57B else 0x6C0695ED
              else
                if b & 0x02 != 0 then if b & 0x01 != 0 then 0xF262004E else 0x856530D8
                else if b & 0x01 != 0 then 0x1C6C6162 else 0x6B6B51F4
          else
            if b & 0x08 != 0 then
              if b & 0x04 != 0 then
                if b & 0x02 != 0 then if b & 0x01 != 0 then 0xE6635C01 else 0x91646C97
                else if b & 0x01 != 0 then 0x086D3D2D else 0x7F6A0DBB
              else
                if b & 0x02 != 0 then if b & 0x01 != 0 then 0xE10E9818 else 0x9609A88E
                else if b & 0x01 != 0 then 0x0F00F934 else 0x7807C9A2
            else
              if b & 0x04 != 0 then
                if b & 0x02 != 0 then if b & 0x01 != 0 then 0xE8B8D433 else 0x9FBFE4A5
                else if b & 0x01 != 0 then 0x06B6B51F else 0x71B18589
              else
                if b & 0x02 != 0 then if b & 0x01 != 0 then 0xEFD5102A else 0x98D220BC
                else if b & 0x01 != 0 then 0x01DB7106 else 0x76DC4190
      else
        if b & 0x20 != 0 then
          if b & 0x10 != 0 then
            if b & 0x08 != 0 then
              if b & 0x04 != 0 then
                if b & 0x02 != 0 then if b & 0x01 != 0 then 0xB6662D3D else 0xC1611DAB
                else if b & 0x01 != 0 then 0x58684C11 else 0x2F6F7C87
              else
                if b & 0x02 != 0 then if b & 0x01 != 0 then 0xB10BE924 else 0xC60CD9B2
                else if b & 0x01 != 0 then 0x5F058808 else 0x2802B89E
            else
              if b & 0x04 != 0 then
                if b & 0x02 != 0 then if b & 0x01 != 0 then 0xB8BDA50F else 0xCFBA9599
                else if b & 0x01 != 0 then 0x56B3C423 else 0x21B4F4B5
              else
                if b & 0x02 != 0 then if b & 0x01 != 0 then 0xBFD06116 else 0xC8D75180
                else if b & 0x01 != 0 then 0x51DE003A else 0x26D930AC
          else
            if b & 0x08 != 0 then
              if b & 0x04 != 0 then
                if b & 0x02 != 0 then if b & 0x01 != 0 then 0xABD13D59 else 0xDCD60DCF
                else if b & 0x01 != 0 then 0x45DF5C75 else 0x32D86CE3
              else
                if b & 0x02 != 0 then if b & 0x01 != 0 then 0xACBCF940 else 0xDBBBC9D6
                else if b & 0x01 != 0 then 0x42B2986C else 0x35B5A8FA
            else
              if b & 0x04 != 0 then
                if b & 0x02 != 0 then if b & 0x01 != 0 then 0xA50AB56B else 0xD20D85FD
                else if b & 0x01 != 0 then 0x4B04D447 else 0x3C03E4D1
              else
                if b & 0x02 != 0 then if b & 0x01 != 0 then 0xA2677172 else 0xD56041E4
                else if b & 0x01 != 0 then 0x4C69105E else 0x3B6E20C8
        else
          if b & 0x10 != 0 then
            if b & 0x08 != 0 then
              if b & 0x04 != 0 then
                if b & 0x02 != 0 then if b & 0x01 != 0 then 0x8D080DF5 else 0xFA0F3D63
                else if b & 0x01 != 0 then 0x63066CD9 else 0x14015C4F
              else
                if b & 0x02 != 0 then if b & 0x01 != 0 then 0x8A65C9EC else 0xFD62F97A
                else if b & 0x01 != 0 then 0x646BA8C0 else 0x136C9856
            else
              if b & 0x04 != 0 then
                if b & 0x02 != 0 then if b & 0x01 != 0 then 0x83D385C7 else 0xF4D4B551
                else if b & 0x01 != 0 then 0x6DDDE4EB else 0x1ADAD47D
              else
                if b & 0x02 != 0 then if b & 0x01 != 0 then 0x84BE41DE else 0xF3B97148
                else if b & 0x01 != 0 then 0x6AB020F2 else 0x1DB71064
          else
            if b & 0x08 != 0 then
              if b & 0x04 != 0 then
                if b & 0x02 != 0 then if b & 0x01 != 0 then 0x90BF1D91 else 0xE7B82D07
                else if b & 0x01 != 0 then 0x7EB17CBD else 0x09B64C2B
              else
                if b & 0x02 != 0 then if b & 0x01 != 0 then 0x97D2D988 else 0xE0D5E91E
                else if b & 0x01 != 0 then 0x79DCB8A4 else 0x0EDB8832
            else
              if b & 0x04 != 0 then
                if b & 0x02 != 0 then if b & 0x01 != 0 then 0x9E6495A3 else 0xE963A535
                else if b & 0x01 != 0 then 0x706AF48F else 0x076DC419
              else
                if b & 0x02 != 0 then if b & 0x01 != 0 then 0x990951BA else 0xEE0E612C
                else if b & 0x01 != 0 then 0x77073096 else 0x00000000
  }

  /** Every table entry is the division of its index. */
  lemma TableIsDivision(b: byte)
    ensures Table(b) == Shift8(b as bv32)
  {
  }

  // ---------------------------------------------------------------- the checksum

  function Xor(x: bv32, y: bv32): bv32 {
    x ^ y
  }

  function Up(w: bv32): bv32 {
    w << 8
  }

  predicate Fits(w: bv32) {
    w < 0x1000000
  }

  function Ops32(): Ops<bv32> {
    Ops(Shift, 8, Xor, 0, Up, Fits)
  }

  /** A byte as the low end of a register. */
  function Widen(b: byte): bv32 {
    b as bv32
  }

  /** `crc32(crc, buf, len)`: the register is inverted on the way in and on the way out. */
  function Crc(crc: bv32, data: seq<byte>): bv32 {
    CrcWith(Ops32(), crc, data)
  }

  function CrcWith(o: Ops<bv32>, crc: bv32, data: seq<byte>): bv32 {
    Flip(Update(o, Flip(crc), Embed(Widen, data)))
  }

  function Flip(x: bv32): bv32 {
    x ^ 0xFFFFFFFF
  }

  // ---------------------------------------------------------------- bit patterns

  lemma ShiftLinearOdd(x: bv32, y: bv32)
    requires x & 1 != 0 && y & 1 != 0
    ensures Shift(x ^ y) == Shift(x) ^ Shift(y)
  {
  }

  lemma ShiftLinearMixed(x: bv32, y: bv32)
    requires x & 1 != 0 && y & 1 == 0
    ensures Shift(x ^ y) == Shift(x) ^ Shift(y) && Shift(y ^ x) == Shift(y) ^ Shift(x)
  {
  }

  lemma ShiftLinearEven(x: bv32, y: bv32)
    requires x & 1 == 0 && y & 1 == 0
    ensures Shift(x ^ y) == Shift(x) ^ Shift(y)
  {
  }

  lemma ShiftLinear(x: bv32, y: bv32)
    ensures Shift(Xor(x, y)) == Xor(Shift(x), Shift(y))
  {
    if x & 1 != 0 {
      if y & 1 != 0 {
        ShiftLinearOdd(x, y);
      } else {
        ShiftLinearMixed(x, y);
      }
    } else if y & 1 != 0 {
      ShiftLinearMixed(y, x);
    } else {
      ShiftLinearEven(x, y);
    }
  }

  lemma XorAssoc(x: bv32, y: bv32, z: bv32)
    ensures Xor(Xor(x, y), z) == Xor(x, Xor(y, z)) && Xor(x, 0) == x
  {
  }

  lemma XorCancels(x: bv32, y: bv32, z: bv32)
    ensures Xor(z, x) == Xor(z, y) ==> x == y
    ensures Xor(x, z) == Xor(y, z) ==> x == y
  {
  }

  /** The polynomial's top bit keeps the division reversible. */
  lemma ShiftInjective(x: bv32, y: bv32)
    requires Shift(x) == Shift(y)
    ensures x == y
  {
  }

  /** Bits above the low byte only move down. */
  lemma Shift8High(x: bv32)
    requires x & 0xFF == 0
    ensures Shift8(x) == x >> 8
  {
  }

  lemma ShiftBack(w: bv32)
    requires w < 0x1000000
    ensures (w << 8) & 0xFF == 0 && (w << 8) >> 8 == w
  {
  }

  lemma LawLinear()
    ensures Ops32().Linear()
  {
    var o := Ops32();
    forall x, y
      ensures o.f(o.xor(x, y)) == o.xor(o.f(x), o.f(y))
    {
      ShiftLinear(x, y);
    }
  }

  lemma LawInjective()
    ensures Ops32().Injective()
  {
    var o := Ops32();
    forall x, y | o.f(x) == o.f(y)
      ensures x == y
    {
      ShiftInjective(x, y);
    }
  }

  lemma LawAssociative()
    ensures Ops32().Associative()
  {
    var o := Ops32();
    forall x, y, z {:trigger o.xor(o.xor(x, y), z)}
      ensures o.xor(o.xor(x, y), z) == o.xor(x, o.xor(y, z))
    {
      XorAssoc(x, y, z);
    }
    forall x
      ensures o.xor(x, o.zero) == x
    {
      XorAssoc(x, 0, 0);
    }
  }

  lemma LawCancels()
    ensures Ops32().Cancels()
  {
    var o := Ops32();
    forall x, y, z {:trigger o.xor(z, x), o.xor(z, y)}
      ensures o.xor(z, x) == o.xor(z, y) ==> x == y
    {
      XorCancels(x, y, z);
    }
    forall x, y, z {:trigger o.xor(x, z), o.xor(y, z)}
      ensures o.xor(x, z) == o.xor(y, z) ==> x == y
    {
      XorCancels(x, y, z);
    }
  }

  lemma LawUp()
    ensures Ops32().UpUndone()
  {
    var o := Ops32();
    forall w | o.fits(w)
      ensures Iter(o.f, o.up(w), o.n) == w
    {
      ShiftBack(w);
      Shift8High(w << 8);
      IterEight(o.f, w << 8, 8);
    }
  }

  // ---------------------------------------------------------------- the table walk

  lemma IterShift(x: bv32)
    ensures Iter(Shift, x, 8) == Shift8(x)
  {
    IterEight(Shift, x, 8);
  }

  /** The bit patterns of the table stay behind this property from here on. */
  ghost predicate Divides(table: byte -> bv32) {
    forall b :: table(b) == Iter(Shift, Widen(b), 8)
  }

  lemma TableDivides()
    ensures Divides(Table)
  {
    forall b
      ensures Table(b) == Iter(Shift, Widen(b), 8)
    {
      TableIsDivision(b);
      IterShift(Widen(b));
    }
  }

  function Low(x: bv32): byte {
    (x & 0xFF) as bv8
  }

  function High(x: bv32): bv32 {
    x & 0xFFFFFF00
  }

  function Down(x: bv32): bv32 {
    x >> 8
  }

  lemma Halves(x: bv32)
    ensures Xor(Widen(Low(x)), High(x)) == x && High(x) & 0xFF == 0 && Down(High(x)) == Down(x)
  {
  }

  lemma HighHalf(x: bv32)
    ensures Iter(Shift, High(x), 8) == Down(x)
  {
    Halves(x);
    IterShift(High(x));
    Shift8High(High(x));
  }

  /** One table step is eight bits of division. */
  lemma TableWalk(table: byte -> bv32, x: bv32)
    requires Divides(table)
    ensures Xor(table(Low(x)), Down(x)) == Iter(Shift, x, 8)
  {
    Halves(x);
    HighHalf(x);
    LawLinear();
    IterLinear(Ops32(), Widen(Low(x)), High(x), 8);
  }

  /** The register `c` with `rest` still to come leads to `want`. */
  ghost predicate Leads(o: Ops<bv32>, c: bv32, rest: seq<byte>, want: bv32) {
    forall y {:trigger Is(y, rest)} | Is(y, rest) :: Update(o, c, Embed(Widen, y)) == want
  }

  /** One step of the C loop. */
  function Walk(table: byte -> bv32): (bv32, byte) -> bv32 {
    (c, b) => Xor(table(Low(Xor(c, Widen(b)))), Down(c))
  }

  lemma MixedHigh(c: bv32, b: byte)
    ensures Down(Xor(c, Widen(b))) == Down(c)
  {
  }

  /** The table walk is the division of `o`. */
  ghost predicate Walks(o: Ops<bv32>, walk: (bv32, byte) -> bv32) {
    forall c, b :: walk(c, b) == Iter(o.f, o.xor(c, Widen(b)), o.n)
  }

  lemma TableWalks(table: byte -> bv32)
    requires Divides(table)
    ensures Walks(Ops32(), Walk(table))
  {
    forall c, b
      ensures Walk(table)(c, b) == Iter(Ops32().f, Ops32().xor(c, Widen(b)), Ops32().n)
    {
      MixedHigh(c, b);
      TableWalk(table, Xor(c, Widen(b)));
    }
  }

  lemma LeadsOn(o: Ops<bv32>, walk: (bv32, byte) -> bv32, c: bv32, rest: seq<byte>, want: bv32)
    requires rest != [] && Walks(o, walk) && Leads(o, c, rest, want)
    ensures Leads(o, walk(c, rest[0]), rest[1..], want)
  {
    assert Is(rest, rest);
    assert Embed(Widen, rest)[1..] == Embed(Widen, rest[1..]);
  }

  lemma LeadsEnd(o: Ops<bv32>, c: bv32, want: bv32)
    requires Leads(o, c, [], want)
    ensures c == want
  {
    assert Is<seq<byte>>([], []);
  }

  /** The loop, for any table walk that is a division. */
  method CrcLoop(ghost o: Ops<bv32>, walk: (bv32, byte) -> bv32, start: bv32, buf: seq<byte>) returns (c: bv32)
    requires Walks(o, walk)
    ensures c == Update(o, start, Embed(Widen, buf))
  {
    c := start;
    ghost var want := Update(o, c, Embed(Widen, buf));
    assert buf[0..] == buf;
    var i := 0;
    while i < |buf|
      invariant 0 <= i <= |buf| && Leads(o, c, buf[i..], want)
    {
      LeadsOn(o, walk, c, buf[i..], want);
      assert buf[i..][1..] == buf[i + 1..];
      c := walk(c, buf[i]);
      i := i + 1;
    }
    assert buf[i..] == [];
    LeadsEnd(o, c, want);
  }

  /** `crc32`: the table walk over a buffer. */
  method CrcC(crc: bv32, buf: seq<byte>) returns (c: bv32)
    ensures c == Crc(crc, buf)
  {
    TableDivides();
    TableWalks(Table);
    c := CrcLoop(Ops32(), Walk(Table), Flip(crc), buf);
    c := Flip(c);
  }

  // ---------------------------------------------------------------- main results

  lemma FlipTwice(x: bv32)
    ensures Flip(Flip(x)) == x
  {
  }

  lemma CrcOfNothing(crc: bv32)
    ensures Crc(crc, []) == crc
  {
    FlipTwice(crc);
  }

  lemma ChainWith(o: Ops<bv32>, crc: bv32, a: seq<byte>, b: seq<byte>)
    ensures CrcWith(o, CrcWith(o, crc, a), b) == CrcWith(o, crc, a + b)
  {
    EmbedAppend(Widen, a, b);
    UpdateAppend(o, Flip(crc), Embed(Widen, a), Embed(Widen, b));
    FlipTwice(Update(o, Flip(crc), Embed(Widen, a)));
  }

  /** Feeding the result of one chunk into the next is the CRC of both. */
  lemma Chain(crc: bv32, a: seq<byte>, b: seq<byte>)
    ensures Crc(Crc(crc, a), b) == Crc(crc, a + b)
  {
    ChainWith(Ops32(), crc, a, b);
  }

  /** A register that covers `before`, fed `buf`. */
  method CrcNext(crc: bv32, ghost before: seq<byte>, buf: seq<byte>) returns (crc': bv32)
    requires crc == Crc(0, before)
    ensures crc' == Crc(0, before + buf)
  {
    Chain(0, before, buf);
    crc' := CrcC(crc, buf);
  }

  /** A byte in front of a word. */
  function Prefix(u: byte, w: bv32): bv32 {
    (u as bv32) ^ (w << 8)
  }

  lemma PrefixBound(u: byte, w: bv32)
    ensures w < 0x10000 ==> Prefix(u, w) < 0x1000000
    ensures w < 0x100 ==> Prefix(u, w) < 0x10000
    ensures w < 0x1 ==> Prefix(u, w) < 0x100
  {
  }

  lemma WordEmbed(u: seq<byte>)
    requires u != []
    ensures Word(Ops32(), Embed(Widen, u)) == Prefix(u[0], Word(Ops32(), Embed(Widen, u[1..])))
  {
    assert Embed(Widen, u)[1..] == Embed(Widen, u[1..]);
    WordUnfold(Ops32(), Embed(Widen, u));
    OpsPrefix(u[0], Word(Ops32(), Embed(Widen, u[1..])));
  }

  lemma WordUnfold(o: Ops<bv32>, us: seq<bv32>)
    requires us != []
    ensures Word(o, us) == o.xor(us[0], o.up(Word(o, us[1..])))
  {
  }

  lemma OpsPrefix(u: byte, w: bv32)
    ensures Ops32().xor(u as bv32, Ops32().up(w)) == Prefix(u, w)
  {
  }

  /** A word of `k` bytes uses `8 * k` bits. */
  lemma {:induction false} WordBound(u: seq<byte>)
    requires |u| <= 3
    ensures Word(Ops32(), Embed(Widen, u)) < 0x1000000
    ensures |u| <= 2 ==> Word(Ops32(), Embed(Widen, u)) < 0x10000
    ensures |u| <= 1 ==> Word(Ops32(), Embed(Widen, u)) < 0x100
    ensures |u| == 0 ==> Word(Ops32(), Embed(Widen, u)) < 0x1
  {
    if u != [] {
      WordBound(u[1..]);
      WordEmbed(u);
      PrefixBound(u[0], Word(Ops32(), Embed(Widen, u[1..])));
    }
  }

  lemma {:induction false} BurstFits(u: seq<byte>)
    requires |u| <= 4
    ensures TailsFit(Ops32(), Embed(Widen, u))
  {
    if u != [] {
      assert Embed(Widen, u)[1..] == Embed(Widen, u[1..]);
      WordBound(u[1..]);
      BurstFits(u[1..]);
    }
  }

  lemma PrefixInjective(a: byte, x: bv32, b: byte, y: bv32)
    requires x < 0x1000000 && y < 0x1000000 && Prefix(a, x) == Prefix(b, y)
    ensures a == b && x == y
  {
  }

  lemma SameSeq(u: seq<byte>, v: seq<byte>)
    requires u != [] && v != [] && u[0] == v[0] && u[1..] == v[1..]
    ensures u == v
  {
    assert u == [u[0]] + u[1..] && v == [v[0]] + v[1..];
  }

  lemma {:induction false} WordInjective(u: seq<byte>, v: seq<byte>)
    requires |u| == |v| <= 4 && Word(Ops32(), Embed(Widen, u)) == Word(Ops32(), Embed(Widen, v))
    ensures u == v
  {
    if u != [] {
      WordEmbed(u);
      WordEmbed(v);
      WordBound(u[1..]);
      WordBound(v[1..]);
      var x, y := Word(Ops32(), Embed(Widen, u[1..])), Word(Ops32(), Embed(Widen, v[1..]));
      PrefixInjective(u[0], x, v[0], y);
      WordInjective(u[1..], v[1..]);
      SameSeq(u, v);
    }
  }

  /** Two inputs of one length that differ, and only within four consecutive bytes, have different CRCs. */
  lemma BurstDetected(crc: bv32, a: seq<byte>, u: seq<byte>, v: seq<byte>, b: seq<byte>)
    requires |u| == |v| <= 4 && u != v
    ensures Crc(crc, a + u + b) != Crc(crc, a + v + b)
  {
    if Crc(crc, a + u + b) == Crc(crc, a + v + b) {
      FlipTwice(Update(Ops32(), Flip(crc), Embed(Widen, a + u + b)));
      FlipTwice(Update(Ops32(), Flip(crc), Embed(Widen, a + v + b)));
      SameBurst(Flip(crc), a, u, v, b);
    }
  }

  lemma SameBurst(r: bv32, a: seq<byte>, u: seq<byte>, v: seq<byte>, b: seq<byte>)
    requires |u| == |v| <= 4
    requires Update(Ops32(), r, Embed(Widen, a + u + b)) == Update(Ops32(), r, Embed(Widen, a + v + b))
    ensures u == v
  {
    EmbedAppend(Widen, a + u, b);
    EmbedAppend(Widen, a, u);
    EmbedAppend(Widen, a + v, b);
    EmbedAppend(Widen, a, v);
    BurstFits(u);
    BurstFits(v);
    LawLinear();
    LawInjective();
    LawAssociative();
    LawCancels();
    LawUp();
    BurstWord(Ops32(), r, Embed(Widen, a), Embed(Widen, u), Embed(Widen, v), Embed(Widen, b));
    WordInjective(u, v);
  }

  // ---------------------------------------------------------------- the residue

  lemma WordOfFour(u: seq<byte>)
    requires |u| == 4
    ensures Word(Ops32(), Embed(Widen, u)) == Prefix(u[0], Prefix(u[1], Prefix(u[2], Prefix(u[3], 0))))
  {
    WordEmbed(u);
    WordEmbed(u[1..]);
    WordEmbed(u[2..]);
    WordEmbed(u[3..]);
    assert u[1..][1..] == u[2..] && u[2..][1..] == u[3..] && u[3..][1..] == [];
  }

  lemma ThirtyTwo<T(!new)>(o: Ops<T>, us: seq<T>)
    requires |us| == 4 && o.n == 8
    ensures Bits(o, us) == 32
  {
    WordStep(o, us);
    WordStep(o, us[1..]);
    WordStep(o, us[2..]);
    WordStep(o, us[3..]);
    assert us[1..][1..] == us[2..] && us[2..][1..] == us[3..] && us[3..][1..] == [];
  }

  lemma AllOnes()
    ensures Iter(Shift, 0xFFFFFFFF, 32) == 0xDEBB20E3
  {
    IterAdd(Shift, 0xFFFFFFFF, 8, 24);
    IterShift(0xFFFFFFFF);
    IterAdd(Shift, 0x2DFD1072, 8, 16);
    IterShift(0x2DFD1072);
    IterAdd(Shift, 0xBE26ED00, 8, 8);
    IterShift(0xBE26ED00);
    IterShift(0x00BE26ED);
  }

  lemma Opposite(r: bv32)
    ensures Xor(r, Flip(r)) == 0xFFFFFFFF
  {
  }

  /** Four bytes that are the inverted register, as a word, leave the same register whatever was there. */
  lemma ResidueRegister(r: bv32, u: seq<byte>)
    requires |u| == 4 && Word(Ops32(), Embed(Widen, u)) == Flip(r)
    ensures Update(Ops32(), r, Embed(Widen, u)) == 0xDEBB20E3
  {
    BurstFits(u);
    LawLinear();
    LawAssociative();
    LawUp();
    UpdateIsDivision(Ops32(), r, Embed(Widen, u));
    ThirtyTwo(Ops32(), Embed(Widen, u));
    Opposite(r);
    AllOnes();
  }

  /** Data followed by its own CRC, least significant byte first, always has the CRC 0x2144DF1C. */
  lemma Residue(d: seq<byte>, u: seq<byte>)
    requires |u| == 4 && Prefix(u[0], Prefix(u[1], Prefix(u[2], Prefix(u[3], 0)))) == Crc(0, d)
    ensures Crc(0, d + u) == 0x2144DF1C
  {
    WordOfFour(u);
    EmbedAppend(Widen, d, u);
    UpdateAppend(Ops32(), Flip(0), Embed(Widen, d), Embed(Widen, u));
    ResidueRegister(Update(Ops32(), Flip(0), Embed(Widen, d)), u);
  }

  lemma OneByte(d: seq<byte>, i: nat, r: bv32, r': bv32)
    requires i < |d| && Shift8(r ^ (d[i] as bv32)) == r'
    ensures Update(Ops32(), r, Embed(Widen, d[i..])) == Update(Ops32(), r', Embed(Widen, d[i + 1..]))
  {
    IterShift(r ^ (d[i] as bv32));
    assert d[i..][1..] == d[i + 1..];
    UpdateUnfold(Ops32(), r, d[i] as bv32, Embed(Widen, d[i + 1..]));
  }

  lemma UpdateUnfold(o: Ops<bv32>, r: bv32, u: bv32, us: seq<bv32>)
    ensures Update(o, r, [u] + us) == Update(o, Iter(o.f, o.xor(r, u), o.n), us)
  {
    assert ([u] + us)[1..] == us;
  }

  lemma FirstDigits(d: seq<byte>)
    requires |d| == 9 && d[..5] == [0x31, 0x32, 0x33, 0x34, 0x35]
    ensures Update(Ops32(), 0xFFFFFFFF, Embed(Widen, d)) == Update(Ops32(), 0x340AC5E3, Embed(Widen, d[5..]))
  {
    var p := d[..5];
    assert d[0] == p[0] && d[1] == p[1] && d[2] == p[2] && d[3] == p[3] && d[4] == p[4];
    assert d[0..] == d;
    OneByte(d, 0, 0xFFFFFFFF, 0x7C231048);
    OneByte(d, 1, 0x7C231048, 0xB0ACBB32);
    OneByte(d, 2, 0xB0ACBB32, 0x77B79C2D);
    OneByte(d, 3, 0x77B79C2D, 0x641C1F5C);
    OneByte(d, 4, 0x641C1F5C, 0x340AC5E3);
  }

  lemma LastDigits(d: seq<byte>)
    requires |d| == 9 && d[5..] == [0x36, 0x37, 0x38, 0x39]
    ensures Update(Ops32(), 0x340AC5E3, Embed(Widen, d[5..])) == 0x340BC6D9
  {
    var p := d[5..];
    assert d[5] == p[0] && d[6] == p[1] && d[7] == p[2] && d[8] == p[3];
    OneByte(d, 5, 0x340AC5E3, 0xF68D2C9E);
    OneByte(d, 6, 0xF68D2C9E, 0xAFFC9660);
    OneByte(d, 7, 0xAFFC9660, 0x651F2550);
    OneByte(d, 8, 0x651F2550, 0x340BC6D9);
    assert d[9..] == [];
    NoBytes(0x340BC6D9);
  }

  /** The check value of CRC-32: that of the nine digits "123456789". */
  lemma CheckValue()
    ensures Crc(0, [0x31, 0x32, 0x33, 0x34, 0x35, 0x36, 0x37, 0x38, 0x39]) == 0xCBF43926
  {
    var d: seq<byte> := [0x31, 0x32, 0x33, 0x34, 0x35, 0x36, 0x37, 0x38, 0x39];
    FirstDigits(d);
    LastDigits(d);
    CrcIs(d, 0x340BC6D9);
  }

  lemma NoBytes(r: bv32)
    ensures Update(Ops32(), r, Embed(Widen, [])) == r
  {
  }

  lemma CrcIs(d: seq<byte>, r: bv32)
    requires Update(Ops32(), 0xFFFFFFFF, Embed(Widen, d)) == r
    ensures Crc(0, d) == r ^ 0xFFFFFFFF
  {
  }
}
