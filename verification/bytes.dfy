/** Bytes and little-endian 32-bit words over a byte image.
    The tool reads and writes `uint32_t` fields of the mapped file in the
    host's byte order; this model fixes that order to little-endian. */
module Bytes {

  newtype byte = x: int | 0 <= x < 0x100
  newtype u32 = x: int | 0 <= x < 0x1_0000_0000

  /** The word whose bytes, least significant first, are b0, b1, b2, b3. */
  function Word(b0: byte, b1: byte, b2: byte, b3: byte): u32
  {
    (b0 as int + 0x100 * (b1 as int) + 0x1_0000 * (b2 as int) + 0x100_0000 * (b3 as int)) as u32
  }

  /** The 32-bit word stored at byte offset `i`. */
  function U32At(b: seq<byte>, i: nat): u32
    requires i + 4 <= |b|
  {
    Word(b[i], b[i + 1], b[i + 2], b[i + 3])
  }

  /** The four bytes that store `x`, least significant byte first. */
  function LeBytes(x: u32): (r: seq<byte>)
    ensures |r| == 4
    ensures U32At(r, 0) == x
  {
    var n0 := x as int;
    var n1 := n0 / 0x100;
    var n2 := n1 / 0x100;
    var n3 := n2 / 0x100;
    SplitByte(n0 % 0x100, n1);
    SplitByte(n1 % 0x100, n2);
    SplitByte(n2 % 0x100, n3);
    [(n0 % 0x100) as byte, (n1 % 0x100) as byte, (n2 % 0x100) as byte, n3 as byte]
  }

  /** Dividing `lo + 0x100 * hi` by 0x100 separates the low byte from the rest. */
  lemma SplitByte(lo: int, hi: int)
    requires 0 <= lo < 0x100
    ensures (lo + 0x100 * hi) / 0x100 == hi
    ensures (lo + 0x100 * hi) % 0x100 == lo
  {
  }

  /** Reading a word back from the bytes that were stored for it gives the word. */
  lemma ReadStoredWord(b: seq<byte>, i: nat, x: u32)
    requires i + 4 <= |b|
    requires b[i..i + 4] == LeBytes(x)
    ensures U32At(b, i) == x
  {
  }

  /** Storing the word read at `i` gives back exactly the four bytes at `i`. */
  lemma StoreReadWord(b: seq<byte>, i: nat)
    requires i + 4 <= |b|
    ensures LeBytes(U32At(b, i)) == b[i..i + 4]
  {
    var hi2 := b[i + 2] as int + 0x100 * (b[i + 3] as int);
    var hi1 := b[i + 1] as int + 0x100 * hi2;
    SplitByte(b[i] as int, hi1);
    SplitByte(b[i + 1] as int, hi2);
    SplitByte(b[i + 2] as int, b[i + 3] as int);
  }

  /** Reads a word from an array, as the tool dereferences a `uint32_t *`
      into the mapped file. */
  method LoadU32(a: array<byte>, i: nat) returns (x: u32)
    requires i + 4 <= a.Length
    ensures x == U32At(a[..], i)
  {
    x := Word(a[i], a[i + 1], a[i + 2], a[i + 3]);
  }
}
