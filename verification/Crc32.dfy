/** The table-driven checksum against the bit-at-a-time reflected CRC with polynomial 0xEDB88320 (section 3.2.9 of
    IEEE 802.3). A 32-bit word is its bits, the low bit first. */
module Crc32 {
  import opened Common

  const WIDTH: nat := 32

  type Word = w: seq<bool> | |w| == WIDTH witness Zeros(WIDTH)

  function Zeros(n: nat): seq<bool> { seq(n, _ => false) }

  function ToBits(value: nat, n: nat): (bits: seq<bool>)
    ensures |bits| == n
  {
    if n == 0 then [] else [value % 2 == 1] + ToBits(value / 2, n - 1)
  }

  function Value(bits: seq<bool>): nat {
    if bits == [] then 0 else (if bits[0] then 1 else 0) + 2 * Value(bits[1..])
  }

  function Xor(a: Word, b: Word): Word { seq(WIDTH, i requires 0 <= i < WIDTH => a[i] != b[i]) }

  function ShiftRight(a: Word, n: nat): Word
    requires n <= WIDTH
  {
    a[n..] + Zeros(n)
  }

  /** The word masked with 0xFF. */
  function LowByte(a: Word): Word { a[..8] + Zeros(24) }

  const POLYNOMIAL: Word := ToBits(0xEDB8_8320, WIDTH)
  const ALL_ONES: Word := ToBits(0xFFFF_FFFF, WIDTH)

  // ---------------------------------------------------------------- the reference: one message bit at a time

  /** One step of the shift register. */
  function Shift(p: Word, register: Word): Word {
    if register[0] then Xor(p, ShiftRight(register, 1)) else ShiftRight(register, 1)
  }

  function MessageBits(data: seq<Byte>): seq<bool> {
    if data == [] then [] else ToBits(data[0], 8) + MessageBits(data[1..])
  }

  /** The register after taking in some bits, each added at the low end before its step. */
  function TakeBits(p: Word, register: Word, bits: seq<bool>): Word
    decreases |bits|
  {
    if bits == [] then register else TakeBits(p, Shift(p, register[0 := register[0] != bits[0]]), bits[1..])
  }

  /** Start from a full register, take in the message, and complement the register. */
  function Reference(p: Word, full: Word, data: seq<Byte>): Word { Xor(TakeBits(p, full, MessageBits(data)), full) }

  // ---------------------------------------------------------------- several steps at once

  function Shifts(p: Word, register: Word, n: nat): Word
    decreases n
  {
    if n == 0 then register else Shifts(p, Shift(p, register), n - 1)
  }

  lemma ShiftIsLinear(p: Word, a: Word, b: Word)
    ensures Shift(p, Xor(a, b)) == Xor(Shift(p, a), Shift(p, b))
  {
    var both := Xor(a, b);
    forall i | 0 <= i < WIDTH ensures Shift(p, both)[i] == Xor(Shift(p, a), Shift(p, b))[i] {
      assert ShiftRight(both, 1)[i] == (ShiftRight(a, 1)[i] != ShiftRight(b, 1)[i]);
    }
  }

  lemma {:induction false} ShiftsIsLinear(p: Word, a: Word, b: Word, n: nat)
    ensures Shifts(p, Xor(a, b), n) == Xor(Shifts(p, a, n), Shifts(p, b, n))
    decreases n
  {
    if n > 0 {
      ShiftIsLinear(p, a, b);
      ShiftsIsLinear(p, Shift(p, a), Shift(p, b), n - 1);
    }
  }

  lemma ShiftRightAgain(a: Word, n: nat)
    requires 1 <= n <= WIDTH
    ensures ShiftRight(ShiftRight(a, 1), n - 1) == ShiftRight(a, n)
  {
    var once := ShiftRight(a, 1);
    forall i | 0 <= i < WIDTH ensures ShiftRight(once, n - 1)[i] == ShiftRight(a, n)[i] {
      if i < WIDTH - n {
        assert ShiftRight(once, n - 1)[i] == once[i + n - 1] == a[i + n];
      } else if i < WIDTH - n + 1 {
        assert ShiftRight(once, n - 1)[i] == once[WIDTH - 1] == false;
      }
    }
  }

  /** Steps of a register that ends in as many zeros only move it. */
  lemma {:induction false} ZerosOnlyMove(p: Word, register: Word, n: nat)
    requires n <= WIDTH && forall i :: 0 <= i < n ==> !register[i]
    ensures Shifts(p, register, n) == ShiftRight(register, n)
    decreases n
  {
    if n == 0 {
      assert ShiftRight(register, 0) == register;
    } else {
      var moved := ShiftRight(register, 1);
      assert forall i :: 0 <= i < n - 1 ==> moved[i] == register[i + 1];
      ZerosOnlyMove(p, moved, n - 1);
      ShiftRightAgain(register, n);
    }
  }

  function Widened(bits: seq<bool>): Word
    requires |bits| <= WIDTH
  {
    bits + Zeros(WIDTH - |bits|)
  }

  /** Taking in bits one at a time is adding them all and making as many steps. */
  lemma {:induction false} TakeBitsAtOnce(p: Word, register: Word, bits: seq<bool>)
    requires |bits| <= WIDTH
    ensures TakeBits(p, register, bits) == Shifts(p, Xor(register, Widened(bits)), |bits|)
    decreases |bits|
  {
    if bits == [] {
      assert Xor(register, Widened([])) == register;
    } else {
      var first := register[0 := register[0] != bits[0]];
      var others := Widened([false] + bits[1..]);
      assert Xor(register, Widened(bits)) == Xor(first, others);
      ShiftIsLinear(p, first, others);
      assert Shift(p, others) == Widened(bits[1..]);
      TakeBitsAtOnce(p, Shift(p, first), bits[1..]);
    }
  }

  /** Eight steps are the table entry for the low byte added to the other bytes moved along. */
  lemma EightSteps(p: Word, a: Word)
    ensures Shifts(p, a, 8) == Xor(Shifts(p, LowByte(a), 8), ShiftRight(a, 8))
  {
    var high: Word := Zeros(8) + a[8..];
    assert a == Xor(LowByte(a), high);
    ShiftsIsLinear(p, LowByte(a), high, 8);
    ZerosOnlyMove(p, high, 8);
    assert ShiftRight(high, 8) == ShiftRight(a, 8);
  }

  lemma {:induction false} TakeBitsSplits(p: Word, register: Word, a: seq<bool>, b: seq<bool>)
    ensures TakeBits(p, register, a + b) == TakeBits(p, TakeBits(p, register, a), b)
    decreases |a|
  {
    if a == [] {
      assert a + b == b;
    } else {
      assert (a + b)[1..] == a[1..] + b;
      TakeBitsSplits(p, Shift(p, register[0 := register[0] != a[0]]), a[1..], b);
    }
  }

  lemma {:induction false} MessageBitsAppend(data: seq<Byte>, byte: Byte)
    ensures MessageBits(data + [byte]) == MessageBits(data) + ToBits(byte, 8)
  {
    if data == [] {
      assert [byte][1..] == [];
    } else {
      assert (data + [byte])[1..] == data[1..] + [byte];
      MessageBitsAppend(data[1..], byte);
    }
  }

  // ---------------------------------------------------------------- numbers and bits

  lemma {:induction false} BitsOfValue(bits: seq<bool>)
    ensures ToBits(Value(bits), |bits|) == bits
  {
    if bits != [] { BitsOfValue(bits[1..]); }
  }

  function Power(n: nat): nat { if n == 0 then 1 else 2 * Power(n - 1) }

  lemma {:induction false} ValueBound(bits: seq<bool>)
    ensures Value(bits) < Power(|bits|)
  {
    if bits != [] { ValueBound(bits[1..]); }
  }

  /** A number small enough fills only the low bits. */
  lemma {:induction false} SmallBits(value: nat, n: nat, more: nat)
    requires value < Power(n)
    ensures ToBits(value, n + more) == ToBits(value, n) + Zeros(more)
    decreases n + more
  {
    if n == 0 {
      if more > 0 {
        SmallBits(0, 0, more - 1);
        assert [false] + Zeros(more - 1) == Zeros(more);
      }
    } else {
      SmallBits(value / 2, n - 1, more);
    }
  }

  // ---------------------------------------------------------------- the table and the checksum

  ghost predicate IsTable(p: Word, table: seq<Word>) {
    |table| == 256 && forall i :: 0 <= i < 256 ==> table[i] == Shifts(p, ToBits(i, WIDTH), 8)
  }

  method TableEntry(p: Word, index: nat) returns (value: Word)
    ensures value == Shifts(p, ToBits(index, WIDTH), 8)
  {
    value := ToBits(index, WIDTH);
    ghost var entry := Shifts(p, value, 8);
    var bit := 0;
    while bit < 8
      invariant 0 <= bit <= 8
      invariant Shifts(p, value, 8 - bit) == entry
    {
      value := if value[0] then Xor(p, ShiftRight(value, 1)) else ShiftRight(value, 1);
      bit := bit + 1;
    }
  }

  method BuildTable(p: Word) returns (table: array<Word>)
    ensures fresh(table) && IsTable(p, table[..])
  {
    table := new Word[256](_ => Zeros(WIDTH));
    var index := 0;
    while index < 256
      invariant 0 <= index <= 256
      invariant forall i :: 0 <= i < index ==> table[i] == Shifts(p, ToBits(i, WIDTH), 8)
    {
      table[index] := TableEntry(p, index);
      index := index + 1;
    }
  }

  /** A number of few bits, as a word. */
  lemma NarrowWord(value: nat, n: nat)
    requires n <= WIDTH && value < Power(n)
    ensures ToBits(value, WIDTH) == Widened(ToBits(value, n))
  {
    SmallBits(value, n, WIDTH - n);
  }

  /** The low bits of a word, as a number, stand for themselves. */
  lemma LowBitsAsNumber(a: Word, n: nat)
    requires n <= WIDTH
    ensures Value(a[..n]) < Power(n) && ToBits(Value(a[..n]), WIDTH) == Widened(a[..n])
  {
    ValueBound(a[..n]);
    BitsOfValue(a[..n]);
    NarrowWord(Value(a[..n]), n);
  }

  /** Adding low bits does not reach the bits above them. */
  lemma HighBitsStay(a: Word, bits: seq<bool>)
    requires |bits| <= WIDTH
    ensures ShiftRight(Xor(a, Widened(bits)), |bits|) == ShiftRight(a, |bits|)
  {
    var n, mixed := |bits|, Xor(a, Widened(bits));
    forall i | 0 <= i < WIDTH - n ensures ShiftRight(mixed, n)[i] == ShiftRight(a, n)[i] {
      assert ShiftRight(mixed, n)[i] == mixed[n + i] && ShiftRight(a, n)[i] == a[n + i];
    }
  }

  lemma PowerOfEight(n: nat)
    requires n == 8
    ensures Power(n) == 256
  {
    assert Power(3) == 8;
    assert Power(6) == 64;
  }

  /** One round of the checksum loop takes in the eight bits of a byte. */
  lemma TableRound(p: Word, table: seq<Word>, crc: Word, byte: Byte)
    requires IsTable(p, table)
    ensures var index := Value(Xor(crc, ToBits(byte, WIDTH))[..8]);
            index < 256 && Xor(table[index], ShiftRight(crc, 8)) == TakeBits(p, crc, ToBits(byte, 8))
  {
    var n, bits := 8, ToBits(byte, 8);
    PowerOfEight(n);
    NarrowWord(byte, n);
    var mixed := Xor(crc, Widened(bits));
    LowBitsAsNumber(mixed, n);
    HighBitsStay(crc, bits);
    EightSteps(p, mixed);
    TakeBitsAtOnce(p, crc, bits);
  }

  lemma OneMoreByte(p: Word, full: Word, data: seq<Byte>, i: nat)
    requires i < |data|
    ensures TakeBits(p, full, MessageBits(data[..i + 1])) ==
            TakeBits(p, TakeBits(p, full, MessageBits(data[..i])), ToBits(data[i], 8))
  {
    assert data[..i + 1] == data[..i] + [data[i]];
    MessageBitsAppend(data[..i], data[i]);
    TakeBitsSplits(p, full, MessageBits(data[..i]), ToBits(data[i], 8));
  }

  method UpdateThrough(p: Word, full: Word, data: seq<Byte>, table: array<Word>) returns (crc: Word)
    requires IsTable(p, table[..])
    ensures crc == Reference(p, full, data)
  {
    crc := full;
    var i := 0;
    while i < |data|
      invariant 0 <= i <= |data|
      invariant crc == TakeBits(p, full, MessageBits(data[..i]))
    {
      TableRound(p, table[..], crc, data[i]);
      OneMoreByte(p, full, data, i);
      var index := Value(Xor(crc, ToBits(data[i], WIDTH))[..8]);
      crc := Xor(table[index], ShiftRight(crc, 8));
      i := i + 1;
    }
    assert data[..i] == data;
    crc := Xor(crc, full);
  }

  /** The checksum of every byte sequence is the reference CRC of its bits. */
  method Checksum(data: seq<Byte>) returns (crc: Word)
    ensures crc == Reference(POLYNOMIAL, ALL_ONES, data)
  {
    var table := BuildTable(POLYNOMIAL);
    crc := UpdateThrough(POLYNOMIAL, ALL_ONES, data, table);
  }
}
