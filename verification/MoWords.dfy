/** The 32-bit words of a message catalogue (src/installer/language.c:297-328). */
module MoWords {

  type byte = n: nat | n < 0x100
  type u32 = n: nat | n < 0x1_0000_0000

  const MO_MAGIC: u32 := 0x950412de
  const MO_MAGIC_SWAPPED: u32 := 0xde120495

  /** The byte order of a machine or a file. */
  datatype Order = Little | Big

  function Join(o: Order, a: byte, b: byte, c: byte, d: byte): u32 {
    if o == Little then a + 0x100 * b + 0x1_0000 * c + 0x100_0000 * d
    else d + 0x100 * c + 0x1_0000 * b + 0x100_0000 * a
  }

  /** The four bytes of a word, as they lie in memory. */
  function Bytes(o: Order, i: u32): (b: seq<byte>)
    ensures |b| == 4
  {
    var a, b, c, d := i % 0x100, i / 0x100 % 0x100, i / 0x1_0000 % 0x100, i / 0x100_0000;
    if o == Little then [a, b, c, d] else [d, c, b, a]
  }

  /** The four bytes in the opposite order.  The shifted and masked parts of the source share no bit, so
      that they can be added. */
  function Swap(i: u32): u32 {
    i % 0x100 * 0x100_0000 + i / 0x100 % 0x100 * 0x1_0000 + i / 0x1_0000 % 0x100 * 0x100 + i / 0x100_0000
  }

  lemma LastDigit(a: byte, rest: nat)
    ensures (a + 0x100 * rest) % 0x100 == a && (a + 0x100 * rest) / 0x100 == rest
  {
  }

  lemma DigitsOfJoin(a: byte, b: byte, c: byte, d: byte)
    ensures var i := Join(Little, a, b, c, d);
            i % 0x100 == a && i / 0x100 % 0x100 == b && i / 0x1_0000 % 0x100 == c && i / 0x100_0000 == d
  {
    var i := Join(Little, a, b, c, d);
    LastDigit(a, b + 0x100 * (c + 0x100 * d));
    LastDigit(b, c + 0x100 * d);
    LastDigit(c, d);
    assert i / 0x1_0000 == i / 0x100 / 0x100;
    assert i / 0x100_0000 == i / 0x1_0000 / 0x100;
  }

  lemma JoinOfBytes(o: Order, i: u32)
    ensures Join(o, Bytes(o, i)[0], Bytes(o, i)[1], Bytes(o, i)[2], Bytes(o, i)[3]) == i
  {
    assert i / 0x1_0000 == i / 0x100 / 0x100;
    assert i / 0x100_0000 == i / 0x1_0000 / 0x100;
  }

  function Other(o: Order): Order {
    if o == Little then Big else Little
  }

  /** Swapping reads the same bytes in the other order. */
  lemma SwapJoin(o: Order, a: byte, b: byte, c: byte, d: byte)
    ensures Swap(Join(o, a, b, c, d)) == Join(Other(o), a, b, c, d)
  {
    DigitsOfJoin(a, b, c, d);
    DigitsOfJoin(d, c, b, a);
  }

  /** SWAP is its own inverse. */
  lemma SwapTwice(i: u32)
    ensures Swap(Swap(i)) == i
  {
    var b := Bytes(Little, i);
    JoinOfBytes(Little, i);
    SwapJoin(Little, b[0], b[1], b[2], b[3]);
    SwapJoin(Big, b[0], b[1], b[2], b[3]);
  }

  lemma SwappedMagic()
    ensures Swap(MO_MAGIC) == MO_MAGIC_SWAPPED
  {
    SwapJoin(Little, 0xde, 0x12, 0x04, 0x95);
  }
}
