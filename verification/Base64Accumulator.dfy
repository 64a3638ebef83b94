/** The accumulator of libs/extlib-leftovers/base64.ml: a 63-bit integer whose high bits are shifted out
    unread. */
module Base64Accumulator {
  import opened Base64Format
  import opened ColorCodec

  /** A value as a 63-bit signed integer */
  function Wrap63(x: int): int {
    (x + 0x4000_0000_0000_0000) % 0x8000_0000_0000_0000 - 0x4000_0000_0000_0000
  }

  lemma WrapTurns(x: int) returns (k: int)
    ensures Wrap63(x) == x + k * 0x4000
  {
    k := -((x + 0x4000_0000_0000_0000) / 0x8000_0000_0000_0000) * 0x2_0000_0000_0000;
  }

  lemma Turns12(x: int, k: int)
    ensures (x + k * 0x1000) % 0x1000 == x % 0x1000
  {
  }

  lemma Turns10(x: int, k: int)
    ensures (x + k * 0x400) % 0x400 == x % 0x400
  {
  }

  lemma Turns8(x: int, k: int)
    ensures (x + k * 0x100) % 0x100 == x % 0x100
  {
  }

  lemma Turns6(x: int, k: int)
    ensures (x + k * 0x40) % 0x40 == x % 0x40
  {
  }

  lemma Turns4(x: int, k: int)
    ensures (x + k * 16) % 16 == x % 16
  {
  }

  lemma Turns2(x: int, k: int)
    ensures (x + k * 4) % 4 == x % 4
  {
  }

  /** The shifts that overflow leave the low bits alone. */
  lemma WrapKeepsLow(x: int)
    ensures Wrap63(x) % 0x1000 == x % 0x1000 && Wrap63(x) % 0x400 == x % 0x400
    ensures Wrap63(x) % 0x100 == x % 0x100 && Wrap63(x) % 0x40 == x % 0x40
  {
    hide Wrap63;
    var k := WrapTurns(x);
    Turns12(x, 4 * k);
    Turns10(x, 16 * k);
    Turns8(x, 64 * k);
    Turns6(x, 256 * k);
  }

  /** (data lsl 8) lor c: the byte lands in bits that the shift cleared. */
  function PushByte(data: int, c: Byte): int { Wrap63(data * 0x100 + c) }

  /** (data lsl 6) lor c */
  function PushSextet(data: int, c: Sextet): int { Wrap63(data * 0x40 + c) }

  /** data asr n */
  function Asr(data: int, n: nat): int { data / Pow2(n) }

  lemma SmallShifts(d: int)
    ensures Asr(d, 0) == d && Asr(d, 2) == d / 4 && Asr(d, 4) == d / 16 && Asr(d, 6) == d / 64
  {
  }

  /** A field of bits, read after shifting it down or before */
  lemma Field2(x: int)
    ensures x / 4 % 0x40 == x % 0x100 / 4
  {
    var q, r := x / 0x100, x % 0x100;
    assert x / 4 == q * 0x40 + r / 4;
  }

  lemma Field2Wide(x: int)
    ensures x / 4 % 0x100 == x % 0x400 / 4
  {
    var q, r := x / 0x400, x % 0x400;
    assert x / 4 == q * 0x100 + r / 4;
  }

  lemma Field4(x: int)
    ensures x / 16 % 0x40 == x % 0x400 / 16
  {
    var q, r := x / 0x400, x % 0x400;
    assert x / 16 == q * 0x40 + r / 16;
  }

  lemma Field4Wide(x: int)
    ensures x / 16 % 0x100 == x % 0x1000 / 16
  {
    var q, r := x / 0x1000, x % 0x1000;
    assert x / 16 == q * 0x100 + r / 16;
  }

  lemma Field6(x: int)
    ensures x / 64 % 0x40 == x % 0x1000 / 64
  {
    var q, r := x / 0x1000, x % 0x1000;
    assert x / 64 == q * 0x40 + r / 64;
  }

  lemma LowOfByte(data: int)
    ensures data % 0x100 % 16 == data % 16 && data % 0x100 % 4 == data % 4
  {
    var q := data / 0x100;
    Turns4(data, -16 * q);
    Turns2(data, -64 * q);
    assert data % 0x100 == data + -16 * q * 16;
  }

  lemma LowOfSextet(data: int)
    ensures data % 0x40 % 16 == data % 16 && data % 0x40 % 4 == data % 4
  {
    var q := data / 0x40;
    Turns4(data, -4 * q);
    Turns2(data, -16 * q);
    assert data % 0x40 == data + -4 * q * 16;
  }

  lemma Appended10(a: int, c: Byte)
    ensures (a * 0x100 + c) % 0x400 == a % 4 * 0x100 + c
  {
  }

  lemma Appended12(a: int, c: Byte)
    ensures (a * 0x100 + c) % 0x1000 == a % 16 * 0x100 + c
  {
  }

  lemma LowByte(data: int, p: Byte, c: Byte)
    requires data % 0x100 == p
    ensures var x := data * 0x100 + c;
            x % 0x100 == c && x % 0x400 == p % 4 * 0x100 + c && x % 0x1000 == p % 16 * 0x100 + c
  {
    LowOfByte(data);
    Turns8(c, data);
    Appended10(data, c);
    Appended12(data, c);
  }

  lemma Appended8(a: int, c: Sextet)
    ensures (a * 0x40 + c) % 0x100 == a % 4 * 0x40 + c
  {
  }

  lemma SextetAppended10(a: int, c: Sextet)
    ensures (a * 0x40 + c) % 0x400 == a % 16 * 0x40 + c
  {
  }

  lemma SextetAppended12(a: int, c: Sextet)
    ensures (a * 0x40 + c) % 0x1000 == a % 64 * 0x40 + c
  {
  }

  lemma LowSextet(data: int, p: Sextet, c: Sextet)
    requires data % 0x40 == p
    ensures var x := data * 0x40 + c;
            x % 0x40 == c && x % 0x100 == p % 4 * 0x40 + c
            && x % 0x400 == p % 16 * 0x40 + c && x % 0x1000 == p * 0x40 + c
  {
    LowOfSextet(data);
    Turns6(c, data);
    Appended8(data, c);
    SextetAppended10(data, c);
    SextetAppended12(data, c);
  }

  /** The last byte is in the lowest bits. */
  lemma LastSextet(d: int)
    ensures d % 0x100 % 0x40 == d % 0x40
  {
    Turns6(d, -4 * (d / 0x100));
  }

  /** What the encoder reads off the accumulator after byte c, whose predecessor was p. */
  lemma ByteBits(data: int, p: Byte, c: Byte)
    requires data % 0x100 == p
    ensures var d := PushByte(data, c);
            d % 0x100 == c
            && Asr(d, 2) % 0x40 == First(c)
            && Asr(d, 4) % 0x40 == Second(p, c)
            && Asr(d, 6) % 0x40 == Third(p, c)
            && Asr(d, 0) % 0x40 == Fourth(c)
  {
    hide Wrap63, Asr;
    var d := PushByte(data, c);
    WrapKeepsLow(data * 0x100 + c);
    LowByte(data, p, c);
    SmallShifts(d);
    Field2(d);
    Field4(d);
    Field6(d);
    LastSextet(d);
  }

  /** What the decoder reads off the accumulator after sextet c, whose predecessor was p. */
  lemma SextetBits(data: int, p: Sextet, c: Sextet)
    requires data % 0x40 == p
    ensures var d := PushSextet(data, c);
            d % 0x40 == c
            && Asr(d, 4) % 0x100 == Octet1(p, c)
            && Asr(d, 2) % 0x100 == Octet2(p, c)
            && Asr(d, 0) % 0x100 == Octet3(p, c)
  {
    hide Wrap63, Asr;
    var d := PushSextet(data, c);
    WrapKeepsLow(data * 0x40 + c);
    LowSextet(data, p, c);
    SmallShifts(d);
    Field2Wide(d);
    Field4Wide(d);
  }

  /** data lsl n */
  function Asl(data: int, n: nat): int { Wrap63(data * Pow2(n)) }

  lemma ShiftedUp(data: int)
    ensures data * 16 % 0x40 == data % 4 * 16 && data * 4 % 0x40 == data % 16 * 4
  {
  }

  /** What flushing reads off the accumulator after byte p: its last bits, filled up with zeros. */
  lemma FlushedBits(data: int, p: Byte)
    requires data % 0x100 == p
    ensures Asl(data, 4) % 0x40 == Second(p, 0) && Asl(data, 2) % 0x40 == Third(p, 0)
  {
    hide Wrap63;
    LowOfByte(data);
    WrapKeepsLow(data * 16);
    WrapKeepsLow(data * 4);
    ShiftedUp(data);
    assert Pow2(4) == 16 && Pow2(2) == 4;
  }
}
