/** Byte-addressed memory: RAM as a finite map in which unlisted cells hold zero,
    and the SPI flash as the 2^24 bytes that a 24-bit read command can name. */
module Memory {
  import opened Words

  type Ram = map<int, uint8>

  const FLASH_SIZE := 0x100_0000

  type Flash = f: seq<uint8> | |f| == FLASH_SIZE witness seq(FLASH_SIZE, _ => 0)

  function Get(m: Ram, x: int): uint8 {
    if x in m then m[x] else 0
  }

  /** The memory after a run of bytes is stored at an address. */
  function Blit(m: Ram, at: int, bytes: seq<uint8>): (m': Ram)
    ensures forall x {:trigger Get(m', x)} {:trigger x in m'} ::
      Get(m', x) == if at <= x < at + |bytes| then bytes[x - at] else Get(m, x)
    decreases |bytes|
  {
    var n := |bytes| - 1;
    if bytes == [] then m else Blit(m, at, bytes[..n])[at + n := bytes[n]]
  }

  function FlashByte(flash: Flash, a: int): uint8 {
    flash[a % FLASH_SIZE]
  }

  function Load32(m: Ram, a: int): uint32 {
    Word32(Get(m, a), Get(m, a + 1), Get(m, a + 2), Get(m, a + 3))
  }

  /** Little-endian. */
  function Word32(b0: uint8, b1: uint8, b2: uint8, b3: uint8): uint32 {
    b0 + 0x100 * b1 + 0x1_0000 * b2 + 0x100_0000 * b3
  }

  function Bytes32(v: uint32): (s: seq<uint8>)
    ensures |s| == 4
    ensures Word32(s[0], s[1], s[2], s[3]) == v
  {
    [v % 0x100, v / 0x100 % 0x100, v / 0x100 / 0x100 % 0x100, v / 0x100 / 0x100 / 0x100]
  }
}
