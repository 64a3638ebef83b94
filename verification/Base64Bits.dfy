/** The grouping of section 4 of RFC 4648 in terms of bits alone. */
module Base64Bits {
  import opened Base64Format

  type Bit = b: int | 0 <= b <= 1

  /** Bit j of an eight-bit value, the high bit first */
  function BitAt(v: nat, j: nat): int
    requires j < 8
  {
    v / [128, 64, 32, 16, 8, 4, 2, 1][j] % 2
  }

  /** Bit k of a byte string, zeros after its end */
  function ByteBit(s: seq<Byte>, k: nat): int {
    if k / 8 < |s| then BitAt(s[k / 8], k % 8) else 0
  }

  /** Bit k of a string of sextets, six bits each */
  function SextetBit(ds: seq<Sextet>, k: nat): int {
    if k / 6 < |ds| then BitAt(ds[k / 6], 2 + k % 6) else 0
  }

  // ---------- bits and values ----------

  function Weigh(a: int, b: int, c: int, d: int, e: int, f: int, g: int, h: int): int {
    128 * a + 64 * b + 32 * c + 16 * d + 8 * e + 4 * f + 2 * g + h
  }

  ghost predicate Spells(bs: seq<Bit>, v: int) {
    |bs| == 8 && v == Weigh(bs[0], bs[1], bs[2], bs[3], bs[4], bs[5], bs[6], bs[7])
  }

  lemma Odd(h: int, b: Bit)
    ensures (2 * h + b) % 2 == b
  {
  }

  lemma Halves(v: int, a: Bit, b: Bit, c: Bit, d: Bit, e: Bit, f: Bit, g: Bit, h: Bit)
    requires v == 128 * a + 64 * b + 32 * c + 16 * d + 8 * e + 4 * f + 2 * g + h
    ensures v / 128 == a && v / 64 == 2 * a + b && v / 32 == 4 * a + 2 * b + c
    ensures v / 16 == 8 * a + 4 * b + 2 * c + d && v / 8 == 16 * a + 8 * b + 4 * c + 2 * d + e
    ensures v / 4 == 32 * a + 16 * b + 8 * c + 4 * d + 2 * e + f
    ensures v / 2 == 64 * a + 32 * b + 16 * c + 8 * d + 4 * e + 2 * f + g
  {
  }

  lemma Digits(v: int, a: Bit, b: Bit, c: Bit, d: Bit, e: Bit, f: Bit, g: Bit, h: Bit)
    requires v == 128 * a + 64 * b + 32 * c + 16 * d + 8 * e + 4 * f + 2 * g + h
    ensures v / 128 % 2 == a && v / 64 % 2 == b && v / 32 % 2 == c && v / 16 % 2 == d
    ensures v / 8 % 2 == e && v / 4 % 2 == f && v / 2 % 2 == g && v / 1 % 2 == h
  {
    Halves(v, a, b, c, d, e, f, g, h);
    Odd(0, a);
    Odd(a, b);
    Odd(2 * a + b, c);
    Odd(4 * a + 2 * b + c, d);
    Odd(8 * a + 4 * b + 2 * c + d, e);
    Odd(16 * a + 8 * b + 4 * c + 2 * d + e, f);
    Odd(32 * a + 16 * b + 8 * c + 4 * d + 2 * e + f, g);
    Odd(64 * a + 32 * b + 16 * c + 8 * d + 4 * e + 2 * f + g, h);
  }

  lemma BitsOfSpelled(bs: seq<Bit>, v: nat, j: nat)
    requires Spells(bs, v) && j < 8
    ensures BitAt(v, j) == bs[j]
  {
    Digits(v, bs[0], bs[1], bs[2], bs[3], bs[4], bs[5], bs[6], bs[7]);
  }

  lemma Spell(v: int) returns (bs: seq<Bit>)
    requires 0 <= v < 0x100
    ensures Spells(bs, v)
  {
    var q1 := v / 2;
    var q2 := q1 / 2;
    var q3 := q2 / 2;
    var q4 := q3 / 2;
    var q5 := q4 / 2;
    var q6 := q5 / 2;
    var q7 := q6 / 2;
    var a: Bit, b: Bit, c: Bit, d: Bit := q7, q6 % 2, q5 % 2, q4 % 2;
    var e: Bit, f: Bit, g: Bit, h: Bit := q3 % 2, q2 % 2, q1 % 2, v % 2;
    bs := [a, b, c, d, e, f, g, h];
  }

  /** The parts of a value that the grouping takes */
  lemma Parts(bs: seq<Bit>, v: int)
    requires Spells(bs, v)
    ensures v / 4 == Weigh(0, 0, bs[0], bs[1], bs[2], bs[3], bs[4], bs[5])
    ensures v % 4 == Weigh(0, 0, 0, 0, 0, 0, bs[6], bs[7])
    ensures v / 16 == Weigh(0, 0, 0, 0, bs[0], bs[1], bs[2], bs[3])
    ensures v % 16 == Weigh(0, 0, 0, 0, bs[4], bs[5], bs[6], bs[7])
    ensures v / 64 == Weigh(0, 0, 0, 0, 0, 0, bs[0], bs[1])
    ensures v % 64 == Weigh(0, 0, bs[2], bs[3], bs[4], bs[5], bs[6], bs[7])
  {
  }

  lemma SextetHasNoHighBits(bs: seq<Bit>, d: Sextet)
    requires Spells(bs, d)
    ensures bs[0] == 0 && bs[1] == 0
  {
  }

  // ---------- from bytes to sextets ----------

  lemma FirstBits(a: Byte, j: nat)
    requires j < 6
    ensures BitAt(First(a), 2 + j) == BitAt(a, j)
  {
    var x := Spell(a);
    Parts(x, a);
    hide BitAt;
    BitsOfSpelled(x, a, j);
    BitsOfSpelled([0, 0, x[0], x[1], x[2], x[3], x[4], x[5]], First(a), 2 + j);
  }

  lemma SecondBits(a: Byte, b: Byte, j: nat)
    requires j < 6
    ensures BitAt(Second(a, b), 2 + j) == if j < 2 then BitAt(a, 6 + j) else BitAt(b, j - 2)
  {
    var x := Spell(a);
    var y := Spell(b);
    Parts(x, a);
    Parts(y, b);
    hide BitAt;
    if j < 2 { BitsOfSpelled(x, a, 6 + j); } else { BitsOfSpelled(y, b, j - 2); }
    BitsOfSpelled([0, 0, x[6], x[7], y[0], y[1], y[2], y[3]], Second(a, b), 2 + j);
  }

  lemma ThirdBits(b: Byte, c: Byte, j: nat)
    requires j < 6
    ensures BitAt(Third(b, c), 2 + j) == if j < 4 then BitAt(b, 4 + j) else BitAt(c, j - 4)
  {
    var x := Spell(b);
    var y := Spell(c);
    Parts(x, b);
    Parts(y, c);
    hide BitAt;
    if j < 4 { BitsOfSpelled(x, b, 4 + j); } else { BitsOfSpelled(y, c, j - 4); }
    BitsOfSpelled([0, 0, x[4], x[5], x[6], x[7], y[0], y[1]], Third(b, c), 2 + j);
  }

  lemma FourthBits(c: Byte, j: nat)
    requires j < 6
    ensures BitAt(Fourth(c), 2 + j) == BitAt(c, 2 + j)
  {
    var x := Spell(c);
    Parts(x, c);
    hide BitAt;
    BitsOfSpelled(x, c, 2 + j);
    BitsOfSpelled([0, 0, x[2], x[3], x[4], x[5], x[6], x[7]], Fourth(c), 2 + j);
  }

  lemma NoBits(j: nat)
    requires j < 8
    ensures BitAt(0, j) == 0
  {
  }

  /** Byte i of a string, zeros after its end */
  function ByteAt(s: seq<Byte>, i: nat): Byte {
    if i < |s| then s[i] else 0
  }

  lemma ByteBitIs(s: seq<Byte>, k: nat)
    ensures ByteBit(s, k) == BitAt(ByteAt(s, k / 8), k % 8)
  {
    NoBits(k % 8);
  }

  /** The first 24 bits, or what there is of them */
  lemma GroupBits(s: seq<Byte>, k: nat)
    requires k < 24 && k < 6 * |Sextets(s)|
    ensures SextetBit(Sextets(s), k) == ByteBit(s, k)
  {
    hide BitAt, First, Second, Third, Fourth, ByteBit;
    ByteBitIs(s, k);
    var a, b, c := ByteAt(s, 0), ByteAt(s, 1), ByteAt(s, 2);
    if k < 6 {
      FirstBits(a, k);
    } else if k < 12 {
      SecondBits(a, b, k - 6);
    } else if k < 18 {
      ThirdBits(b, c, k - 12);
    } else {
      FourthBits(c, k - 18);
    }
  }

  lemma BitsBehind(s: seq<Byte>, k: nat)
    requires |s| >= 3 && k >= 24
    ensures ByteBit(s, k) == ByteBit(s[3..], k - 24)
  {
    hide BitAt;
    assert (k - 24) / 8 == k / 8 - 3 && (k - 24) % 8 == k % 8;
  }

  lemma SextetsBehind(front: seq<Sextet>, ds: seq<Sextet>, k: nat)
    requires |front| == 4 && k >= 24
    ensures SextetBit(front + ds, k) == SextetBit(ds, k - 24)
  {
    hide BitAt;
    assert (k - 24) / 6 == k / 6 - 4 && (k - 24) % 6 == k % 6;
  }

  /** The sextets spell the bits of the bytes, filled up with zeros. */
  lemma {:induction false} SextetsSpellBytes(s: seq<Byte>, k: nat)
    requires k < 6 * |Sextets(s)|
    ensures SextetBit(Sextets(s), k) == ByteBit(s, k)
    decreases |s|
  {
    if k < 24 {
      GroupBits(s, k);
    } else {
      hide SextetBit, ByteBit, First, Second, Third, Fourth;
      SextetsSpellBytes(s[3..], k - 24);
      BitsBehind(s, k);
      SextetsBehind([First(s[0]), Second(s[0], s[1]), Third(s[1], s[2]), Fourth(s[2])], Sextets(s[3..]), k);
    }
  }

  // ---------- from sextets to bytes ----------

  lemma Octet1Bits(d: Sextet, e: Sextet, j: nat)
    requires j < 8
    ensures BitAt(Octet1(d, e), j) == if j < 6 then BitAt(d, 2 + j) else BitAt(e, j - 4)
  {
    var x := Spell(d);
    var y := Spell(e);
    SextetHasNoHighBits(x, d);
    SextetHasNoHighBits(y, e);
    Parts(y, e);
    hide BitAt;
    if j < 6 { BitsOfSpelled(x, d, 2 + j); } else { BitsOfSpelled(y, e, j - 4); }
    BitsOfSpelled([x[2], x[3], x[4], x[5], x[6], x[7], y[2], y[3]], Octet1(d, e), j);
  }

  lemma Octet2Bits(d: Sextet, e: Sextet, j: nat)
    requires j < 8
    ensures BitAt(Octet2(d, e), j) == if j < 4 then BitAt(d, 4 + j) else BitAt(e, j - 2)
  {
    var x := Spell(d);
    var y := Spell(e);
    SextetHasNoHighBits(y, e);
    Parts(x, d);
    Parts(y, e);
    hide BitAt;
    if j < 4 { BitsOfSpelled(x, d, 4 + j); } else { BitsOfSpelled(y, e, j - 2); }
    BitsOfSpelled([x[4], x[5], x[6], x[7], y[2], y[3], y[4], y[5]], Octet2(d, e), j);
  }

  lemma Octet3Bits(d: Sextet, e: Sextet, j: nat)
    requires j < 8
    ensures BitAt(Octet3(d, e), j) == if j < 2 then BitAt(d, 6 + j) else BitAt(e, j)
  {
    var x := Spell(d);
    var y := Spell(e);
    SextetHasNoHighBits(y, e);
    Parts(x, d);
    hide BitAt;
    if j < 2 { BitsOfSpelled(x, d, 6 + j); } else { BitsOfSpelled(y, e, j); }
    BitsOfSpelled([x[6], x[7], y[2], y[3], y[4], y[5], y[6], y[7]], Octet3(d, e), j);
  }

  lemma OctetGroupBits(ds: seq<Sextet>, k: nat)
    requires k < 24 && k < 8 * |Octets(ds)|
    ensures ByteBit(Octets(ds), k) == SextetBit(ds, k)
  {
    hide BitAt, Octet1, Octet2, Octet3;
    if k < 8 {
      Octet1Bits(ds[0], ds[1], k);
    } else if k < 16 {
      Octet2Bits(ds[1], ds[2], k - 8);
    } else {
      Octet3Bits(ds[2], ds[3], k - 16);
    }
  }

  lemma OctetsBehind(front: seq<Byte>, s: seq<Byte>, k: nat)
    requires |front| == 3 && k >= 24
    ensures ByteBit(front + s, k) == ByteBit(s, k - 24)
  {
    hide ByteBit;
    BitsBehind(front + s, k);
    assert (front + s)[3..] == s;
  }

  /** The bytes spell the bits of the sextets. */
  lemma {:induction false} OctetsSpellSextets(ds: seq<Sextet>, k: nat)
    requires k < 8 * |Octets(ds)|
    ensures ByteBit(Octets(ds), k) == SextetBit(ds, k)
    decreases |ds|
  {
    if k < 24 {
      OctetGroupBits(ds, k);
    } else {
      hide SextetBit, ByteBit, Octet1, Octet2, Octet3;
      OctetsSpellSextets(ds[4..], k - 24);
      assert ds == ds[..4] + ds[4..];
      SextetsBehind(ds[..4], ds[4..], k);
      OctetsBehind([Octet1(ds[0], ds[1]), Octet2(ds[1], ds[2]), Octet3(ds[2], ds[3])], Octets(ds[4..]), k);
    }
  }
}
