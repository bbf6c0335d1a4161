/**
  The NOR half of agent/spi_flash.c:632-655, 822-850: register-mode reads through a 256-byte I/O buffer with a
  three-byte address.
 */
module NorFlash {
  import opened Bytes
  import Crc32

  const IoSize: nat := 256
  /** What three address bytes reach. */
  const Reach: nat := 0x1000000

  lemma InReach(at: nat)
    requires at < Reach
    ensures at % Reach == at
  {
  }

  class Controller {
    const cells: array<byte>
    const iobuf: array<byte>

    ghost predicate Valid() {
      iobuf.Length == IoSize && iobuf != cells
    }

    /** SPI READ of `n` bytes: only the low 24 bits of the address leave the controller. */
    method Fetch(addr: nat, n: nat)
      requires Valid() && n <= IoSize && addr % Reach + n <= cells.Length
      modifies iobuf
      ensures iobuf[..n] == cells[addr % Reach..addr % Reach + n]
    {
      forall i | 0 <= i < n {
        iobuf[i] := cells[addr % Reach + i];
      }
    }

    /** `flash_read` */
    method Read(addr: nat, len: nat) returns (buf: seq<byte>)
      requires Valid() && addr + len <= cells.Length && addr + len <= Reach
      modifies iobuf
      ensures buf == cells[addr..addr + len]
    {
      buf := [];
      var at, left := addr, len;
      while left > 0
        invariant addr <= at && 0 <= left && at + left == addr + len && buf == cells[addr..at]
      {
        var chunk := if left > 256 then 256 else left;
        Fetch(at, chunk);
        assert at % Reach == at;
        assert cells[addr..at] + cells[at..at + chunk] == cells[addr..at + chunk];
        buf := buf + iobuf[..chunk];
        at, left := at + chunk, left - chunk;
      }
    }

    /** One turn of the CRC loop. */
    method CrcChunk(addr: nat, at: nat, chunk: nat, crc: bv32) returns (crc': bv32)
      requires Valid() && addr <= at && chunk <= IoSize && at + chunk <= cells.Length && at + chunk <= Reach && at < Reach
      requires crc == Crc32.Crc(0, cells[addr..at])
      modifies iobuf
      ensures crc' == Crc32.Crc(0, cells[addr..at + chunk])
    {
      assert at % Reach == at by {
        InReach(at);
      }
      Fetch(at, chunk);
      var tmp := iobuf[..chunk];
      assert tmp == cells[at..at + chunk];
      crc' := Crc32.CrcNext(crc, cells[addr..at], tmp);
      assert cells[addr..at] + tmp == cells[addr..at + chunk];
    }

    /** `flash_crc32` */
    method Crc(addr: nat, len: nat) returns (c: bv32)
      requires Valid() && addr + len <= cells.Length && addr + len <= Reach
      modifies iobuf
      ensures c == Crc32.Crc(0, cells[addr..addr + len])
    {
      c := 0;
      Crc32.CrcOfNothing(0);
      var at, left := addr, len;
      assert cells[addr..addr] == [];
      while left > 0
        invariant addr <= at && 0 <= left && at + left == addr + len && c == Crc32.Crc(0, cells[addr..at])
      {
        var chunk := if left > 256 then 256 else left;
        c := CrcChunk(addr, at, chunk, c);
        at, left := at + chunk, left - chunk;
      }
    }
  }
}
