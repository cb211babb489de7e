/**
 * The CRC-32 of the PNG specification (ISO/IEC 15948, section 5.5 and Annex D),
 * which is also what `zlib.crc32` computes: reflected polynomial 0xEDB88320,
 * register preset to all ones and complemented at the end.
 */
module Crc {
  import opened Bytes

  const Polynomial: bv32 := 0xEDB8_8320

  /** One bit of the reflected shift register. */
  function ShiftBit(c: bv32): bv32 {
    if c & 1 == 1 then Polynomial ^ (c >> 1) else c >> 1
  }

  function ShiftBits(c: bv32, k: nat): bv32
    decreases k
  {
    if k == 0 then c else ShiftBits(ShiftBit(c), k - 1)
  }

  /** Annex D's `update_crc` for one byte: xor it in, then eight register shifts. */
  function UpdateByte(c: bv32, b: byte): bv32 {
    ShiftBits(c ^ (b as bv32), 8)
  }

  /** Run the register, now holding `c`, over the rest of the buffer `s`. */
  function Register(c: bv32, s: seq<byte>): bv32
    decreases |s|
  {
    if |s| == 0 then c else Register(UpdateByte(c, s[0]), s[1..])
  }

  /** Annex D's `crc`: preset the register to all ones, run it over `s`, complement it, and
      read it as an unsigned 32-bit number (the checksum stored in a chunk's last four bytes). */
  function Crc32(s: seq<byte>): (r: nat)
    ensures r < 0x1_0000_0000
  {
    (Register(0xFFFF_FFFF, s) ^ 0xFFFF_FFFF) as nat
  }

  /** The checksum of the bytes "IEND" is AE 42 60 82, the value every PNG file ends with. */
  lemma IendCrc()
    ensures Crc32([0x49, 0x45, 0x4E, 0x44]) == 0xAE42_6082
  {
    var s: seq<byte> := [0x49, 0x45, 0x4E, 0x44];
    IendRegister();
    RegisterStep(0xFFFF_FFFF, s, 0x22FD_E946);
    RegisterStep(0x22FD_E946, s[1..], 0x992B_AC53);
    RegisterStep(0x992B_AC53, s[2..], 0x639F_4775);
    RegisterStep(0x639F_4775, s[3..], 0x51BD_9F7D);
    assert s[1..][1..] == s[2..] && s[2..][1..] == s[3..] && s[3..][1..] == [];
    assert (0x51BD_9F7D as bv32 ^ 0xFFFF_FFFF) == 0xAE42_6082;
  }

  /** One byte of the register run. */
  lemma RegisterStep(c: bv32, s: seq<byte>, next: bv32)
    requires |s| > 0 && UpdateByte(c, s[0]) == next
    ensures Register(c, s) == Register(next, s[1..])
  {
  }

  /** The register after each byte of "IEND". */
  lemma IendRegister()
    ensures UpdateByte(0xFFFF_FFFF, 0x49) == 0x22FD_E946
    ensures UpdateByte(0x22FD_E946, 0x45) == 0x992B_AC53
    ensures UpdateByte(0x992B_AC53, 0x4E) == 0x639F_4775
    ensures UpdateByte(0x639F_4775, 0x44) == 0x51BD_9F7D
  {
  }
}
