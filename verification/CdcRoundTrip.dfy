/** Characters written with `udi_cdc_putc` and read with `udi_cdc_getc`: what the bytes of one give
    back through the other. */
module CdcRoundTrip {
  import CdcReceive
  import CdcTransmit

  /** What the reader makes of the bytes that the writer stored for `value`. */
  function ReadBack(value: nat, nineBits: bool): nat {
    CdcReceive.ValueOf(CdcTransmit.PutcBytes(value, nineBits))
  }

  /** The writer stores the low byte first, the reader takes the first byte for the high one. */
  lemma ReadsSwapped(value: nat)
    ensures ReadBack(value, false) == value % 256
    ensures ReadBack(value, true) == 256 * (value % 256) + value / 256 % 256
  {
    ByteValue(value % 256);
    ByteValue(value / 256 % 256);
  }

  /** What is stored and what is read of one 9-bit character, in bytes. */
  lemma InBytes()
    ensures CdcTransmit.PutcBytes(0x141, true) == [0x41, 0x01] && CdcTransmit.PutcBytes(0x141, false) == [0x41]
    ensures CdcReceive.ValueOf([0x41, 0x01]) == 0x4101 && CdcReceive.ValueOf([0x41]) == 0x41
  {
  }

  lemma ByteValue(n: nat)
    requires n < 256
    ensures (n as bv8) as nat == n
  {
    var b := ByteOf(n);
    SameByte(b);
  }

  lemma SameByte(b: bv8)
    ensures (b as nat) as bv8 == b
  {
  }

  lemma {:induction false} ByteOf(n: nat) returns (b: bv8)
    requires n < 256
    ensures b as nat == n
  {
    if n == 0 {
      b := 0;
    } else {
      b := ByteOf(n - 1);
      b := b + 1;
    }
  }

  /** A character of up to eight bits comes back. A 9-bit character comes back with its two bytes
      swapped, so it comes back exactly if they are equal: of the 512 characters, 0 and 257 do. */
  lemma ComesBackExactly(value: nat)
    ensures ReadBack(value, false) == value % 0x100
    ensures ReadBack(value, true) == value % 0x1_0000 <==> value % 256 == value / 256 % 256
    ensures value < 512 ==> (ReadBack(value, true) == value <==> value == 0 || value == 257)
  {
    hide ReadBack;
    ReadsSwapped(value);
    LowAndHigh(value);
  }

  lemma LowAndHigh(value: nat)
    ensures value % 0x1_0000 == 256 * (value / 256 % 256) + value % 256
  {
  }

  /** The ninth bit alone comes back as the lowest. */
  lemma NinthBitMoves()
    ensures ReadBack(256, true) == 1
  {
    hide ReadBack;
    ReadsSwapped(256);
  }
}
