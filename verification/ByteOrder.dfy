/** Fixed-width little-endian integers, as every persisted and wire format writes them. */
module ByteOrder {
  import opened Common

  type Word32 = w: nat | w <= MAX_U32

  /** A checksum of a byte sequence. */
  type Checksum = seq<Byte> -> Word32

  /** The low `n` bytes of a number, least significant first. */
  function LittleEndian(value: nat, n: nat): (bytes: seq<Byte>)
    ensures |bytes| == n
  {
    if n == 0 then [] else [value % 256] + LittleEndian(value / 256, n - 1)
  }

  function Number(bytes: seq<Byte>): nat {
    if bytes == [] then 0 else bytes[0] + 256 * Number(bytes[1..])
  }

  function Power(n: nat): nat { if n == 0 then 1 else 256 * Power(n - 1) }

  lemma {:induction false} NumberOfLittleEndian(value: nat, n: nat)
    requires value < Power(n)
    ensures Number(LittleEndian(value, n)) == value
  {
    if n > 0 { NumberOfLittleEndian(value / 256, n - 1); }
  }

  lemma FourBytes(value: Word32)
    ensures Number(LittleEndian(value, 4)) == value
  {
    assert Power(4) == 0x1_0000_0000;
    NumberOfLittleEndian(value, 4);
  }

  lemma EightBytes(value: nat)
    requires value <= MAX_U64
    ensures Number(LittleEndian(value, 8)) == value
  {
    assert Power(8) == U64_MODULUS;
    NumberOfLittleEndian(value, 8);
  }

  /** Bytes are the little-endian form of the number they write. */
  lemma {:induction false} LittleEndianOfNumber(bytes: seq<Byte>)
    ensures LittleEndian(Number(bytes), |bytes|) == bytes
  {
    if bytes != [] {
      LowestByte(bytes[0], Number(bytes[1..]));
      LittleEndianOfNumber(bytes[1..]);
      assert bytes == [bytes[0]] + bytes[1..];
    }
  }

  lemma LowestByte(low: Byte, high: nat)
    ensures (low + 256 * high) % 256 == low && (low + 256 * high) / 256 == high
  {
  }

  /** Four bytes write a number exactly when they are its little-endian form. */
  lemma SameNumber(value: Word32, bytes: seq<Byte>)
    requires |bytes| == 4
    ensures Number(bytes) == value <==> bytes == LittleEndian(value, 4)
  {
    FourBytes(value);
    LittleEndianOfNumber(bytes);
  }
}
