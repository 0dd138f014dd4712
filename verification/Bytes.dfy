/** Bytes, and the 512-byte sectors of the block devices. */
module Bytes {
  type Byte = b: nat | b < 256

  const SECTOR_SIZE := 512

  type Sector = s: seq<Byte> | |s| == SECTOR_SIZE witness seq(SECTOR_SIZE, i => 0)

  function Fill(n: nat, b: Byte): (r: seq<Byte>)
    ensures |r| == n && forall i :: 0 <= i < n ==> r[i] == b
  {
    seq(n, i => b)
  }

  const ZERO_SECTOR: Sector := Fill(SECTOR_SIZE, 0)

  /** memcpy of `data` over `s` from `offset` on. */
  function Patch(s: Sector, offset: nat, data: seq<Byte>): (r: Sector)
    requires offset + |data| <= SECTOR_SIZE
    ensures forall i :: 0 <= i < SECTOR_SIZE ==>
            r[i] == if offset <= i < offset + |data| then data[i - offset] else s[i]
  {
    s[..offset] + data + s[offset + |data|..]
  }
}
