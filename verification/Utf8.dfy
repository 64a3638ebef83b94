/** UTF-8 (RFC 3629) as UnicodeString.validate of std/UnicodeString.hx accepts it and as mb_chr and
    mb_ord of std/php/_polyfills.php write and read it. */
module Utf8 {
  import opened Utf16

  type Byte = b: int | 0 <= b < 0x100

  predicate IsScalar(c: int) {
    0 <= c < 0xD800 || 0xE000 <= c < 0x11_0000
  }

  // ---------- section 3: encoding a scalar value ----------

  function Utf8(c: CodePoint): seq<Byte> {
    if c < 0x80 then
      var b: Byte := c;
      [b]
    else if c < 0x800 then
      var b: Byte := 0xC0 + c / 0x40;
      [b, Trail(c)]
    else if c < 0x1_0000 then
      var b: Byte := 0xE0 + c / 0x1000;
      [b, Trail(c / 0x40), Trail(c)]
    else
      var b: Byte := 0xF0 + c / 0x4_0000;
      [b, Trail(c / 0x1000), Trail(c / 0x40), Trail(c)]
  }

  /** A continuation byte, with the lowest six bits of v */
  function Trail(v: nat): Byte {
    0x80 + v % 0x40
  }

  function Utf8All(cs: seq<CodePoint>): seq<Byte> {
    if cs == [] then [] else Utf8(cs[0]) + Utf8All(cs[1..])
  }

  // ---------- section 4: the syntax of byte sequences ----------

  predicate Tail(b: Byte) { 0x80 <= b <= 0xBF }

  predicate Two(s: seq<Byte>) {
    |s| >= 2 && 0xC2 <= s[0] <= 0xDF && Tail(s[1])
  }

  predicate Three(s: seq<Byte>) {
    && |s| >= 3 && Tail(s[2])
    && (|| (s[0] == 0xE0 && 0xA0 <= s[1] <= 0xBF)
        || (0xE1 <= s[0] <= 0xEC && Tail(s[1]))
        || (s[0] == 0xED && 0x80 <= s[1] <= 0x9F)
        || (0xEE <= s[0] <= 0xEF && Tail(s[1])))
  }

  predicate Four(s: seq<Byte>) {
    && |s| >= 4 && Tail(s[2]) && Tail(s[3])
    && (|| (s[0] == 0xF0 && 0x90 <= s[1] <= 0xBF)
        || (0xF1 <= s[0] <= 0xF3 && Tail(s[1]))
        || (s[0] == 0xF4 && 0x80 <= s[1] <= 0x8F))
  }

  /** The length of the character that s begins with; none when 0 */
  function CharLength(s: seq<Byte>): (n: nat)
    ensures n <= |s|
  {
    if s != [] && s[0] <= 0x7F then 1
    else if Two(s) then 2
    else if Three(s) then 3
    else if Four(s) then 4
    else 0
  }

  predicate Octets(s: seq<Byte>)
    decreases |s|
  {
    s == [] || (CharLength(s) > 0 && Octets(s[CharLength(s)..]))
  }

  // ---------- the two agree ----------

  function Value2(a: int, b: int): int { (a - 0xC0) * 0x40 + (b - 0x80) }

  function Value3(a: int, b: int, c: int): int { (a - 0xE0) * 0x1000 + (b - 0x80) * 0x40 + (c - 0x80) }

  function Value4(a: int, b: int, c: int, d: int): int {
    (a - 0xF0) * 0x4_0000 + (b - 0x80) * 0x1000 + (c - 0x80) * 0x40 + (d - 0x80)
  }

  /** The value that the bits of a character spell */
  function CharValue(s: seq<Byte>): (c: int)
    requires CharLength(s) > 0
    ensures IsScalar(c)
  {
    if s[0] <= 0x7F then s[0]
    else if Two(s) then Value2(s[0], s[1])
    else if Three(s) then Value3(s[0], s[1], s[2])
    else Value4(s[0], s[1], s[2], s[3])
  }

  /** Six bits at a time */
  lemma Digits(c: nat)
    ensures c == c / 0x40 * 0x40 + c % 0x40
    ensures c / 0x40 == c / 0x1000 * 0x40 + c / 0x40 % 0x40
    ensures c / 0x1000 == c / 0x4_0000 * 0x40 + c / 0x1000 % 0x40
  {
  }

  lemma Undigits(a: nat, b: nat, c: nat, d: nat)
    requires b < 0x40 && c < 0x40 && d < 0x40
    ensures var v := a * 0x4_0000 + b * 0x1000 + c * 0x40 + d;
            v / 0x4_0000 == a && v / 0x1000 % 0x40 == b && v / 0x40 % 0x40 == c && v % 0x40 == d
            && v / 0x1000 == a * 0x40 + b && v / 0x40 == a * 0x1000 + b * 0x40 + c
  {
  }

  lemma Encoding2(c: CodePoint, s: seq<Byte>)
    requires 0x80 <= c < 0x800 && |s| >= 2 && s[0] == 0xC0 + c / 0x40 && s[1] == Trail(c)
    ensures Two(s) && Value2(s[0], s[1]) == c
  {
  }

  lemma Encoding3(c: CodePoint, s: seq<Byte>)
    requires 0x800 <= c < 0x1_0000 && |s| >= 3
    requires s[0] == 0xE0 + c / 0x1000 && s[1] == Trail(c / 0x40) && s[2] == Trail(c)
    ensures Three(s) && Value3(s[0], s[1], s[2]) == c
  {
    Digits(c);
  }

  lemma Encoding4(c: CodePoint, s: seq<Byte>)
    requires 0x1_0000 <= c && |s| >= 4
    requires s[0] == 0xF0 + c / 0x4_0000
    requires s[1] == Trail(c / 0x1000) && s[2] == Trail(c / 0x40) && s[3] == Trail(c)
    ensures Four(s) && Value4(s[0], s[1], s[2], s[3]) == c
  {
    Digits(c);
  }

  lemma EncodingHasSyntax(c: CodePoint, rest: seq<Byte>)
    ensures CharLength(Utf8(c) + rest) == |Utf8(c)|
    ensures CharValue(Utf8(c) + rest) == c
  {
    hide Trail, Two, Three, Four, Value2, Value3, Value4;
    var s := Utf8(c) + rest;
    if c < 0x80 {
    } else if c < 0x800 {
      Encoding2(c, s);
    } else if c < 0x1_0000 {
      Encoding3(c, s);
      TwoOrThree(s);
    } else {
      Encoding4(c, s);
      FourOnly(s);
    }
  }

  lemma TwoOrThree(s: seq<Byte>)
    requires Three(s)
    ensures !Two(s) && s[0] > 0x7F
  {
  }

  lemma FourOnly(s: seq<Byte>)
    requires Four(s)
    ensures !Two(s) && !Three(s) && s[0] > 0x7F
  {
  }

  lemma Syntax2(s: seq<Byte>)
    requires Two(s)
    ensures var c := Value2(s[0], s[1]); 0x80 <= c < 0x800 && s[0] == 0xC0 + c / 0x40 && s[1] == Trail(c)
  {
    Undigits(0, 0, s[0] - 0xC0, s[1] - 0x80);
  }

  lemma Syntax3(s: seq<Byte>)
    requires Three(s)
    ensures var c := Value3(s[0], s[1], s[2]);
            0x800 <= c < 0x1_0000 && s[0] == 0xE0 + c / 0x1000 && s[1] == Trail(c / 0x40) && s[2] == Trail(c)
  {
    Undigits(0, s[0] - 0xE0, s[1] - 0x80, s[2] - 0x80);
  }

  lemma Syntax4(s: seq<Byte>)
    requires Four(s)
    ensures var c := Value4(s[0], s[1], s[2], s[3]);
            0x1_0000 <= c < 0x11_0000 && s[0] == 0xF0 + c / 0x4_0000
            && s[1] == Trail(c / 0x1000) && s[2] == Trail(c / 0x40) && s[3] == Trail(c)
  {
    Undigits(s[0] - 0xF0, s[1] - 0x80, s[2] - 0x80, s[3] - 0x80);
  }

  lemma SyntaxIsEncoding(s: seq<Byte>)
    requires CharLength(s) > 0
    ensures Utf8(CharValue(s)) == s[..CharLength(s)]
  {
    hide Trail, Two, Three, Four, Value2, Value3, Value4;
    if s[0] <= 0x7F {
    } else if Two(s) {
      LongEnough(s);
      Syntax2(s);
    } else if Three(s) {
      LongEnough(s);
      Syntax3(s);
    } else {
      LongEnough(s);
      Syntax4(s);
    }
  }

  lemma LongEnough(s: seq<Byte>)
    ensures Two(s) ==> |s| >= 2
    ensures Three(s) ==> |s| >= 3
    ensures Four(s) ==> |s| >= 4
  {
  }

  lemma {:induction false} EncodingsAreOctets(cs: seq<CodePoint>)
    ensures Octets(Utf8All(cs))
  {
    hide Utf8, CharLength;
    if cs != [] {
      EncodingsAreOctets(cs[1..]);
      EncodingHasSyntax(cs[0], Utf8All(cs[1..]));
      var n := |Utf8(cs[0])|;
      assert (Utf8(cs[0]) + Utf8All(cs[1..]))[n..] == Utf8All(cs[1..]);
      CharsAreNotEmpty(cs[0]);
    }
  }

  lemma CharsAreNotEmpty(c: CodePoint)
    ensures Utf8(c) != []
  {
  }

  lemma {:induction false} OctetsAreEncoded(s: seq<Byte>) returns (cs: seq<CodePoint>)
    requires Octets(s)
    ensures Utf8All(cs) == s
    decreases |s|
  {
    hide Utf8, CharLength, CharValue;
    if s == [] {
      cs := [];
    } else {
      var n := CharLength(s);
      var rest := OctetsAreEncoded(s[n..]);
      SyntaxIsEncoding(s);
      cs := [CharValue(s)] + rest;
      assert cs[1..] == rest && s == s[..n] + s[n..];
    }
  }

  /** The grammar accepts exactly the concatenations of encoded scalar values. */
  lemma OctetsAreEncodings(s: seq<Byte>)
    ensures Octets(s) <==> exists cs: seq<CodePoint> :: Utf8All(cs) == s
  {
    hide Octets, Utf8All;
    if Octets(s) {
      var cs := OctetsAreEncoded(s);
    }
    forall cs: seq<CodePoint> ensures Octets(Utf8All(cs)) {
      EncodingsAreOctets(cs);
    }
  }

  // ---------- validate ----------

  /** (c << 16) | (c2 << 8) | c3 on bytes */
  function Word(c: int, c2: int, c3: int): int {
    c * 0x1_0000 + c2 * 0x100 + c3
  }

  method Validate(b: seq<Byte>) returns (ok: bool)
    ensures ok <==> Octets(b)
    ensures ok <==> exists cs: seq<CodePoint> :: Utf8All(cs) == b
  {
    hide Octets;
    OctetsAreEncodings(b);
    OctetsStep([]);
    var pos := 0;
    var max := |b|;
    while pos < max
      invariant pos <= max && Octets(b[pos..]) == Octets(b)
    {
      ghost var s := b[pos..];
      OctetsStep(s);
      var c: int := b[pos];
      pos := pos + 1;
      if c < 0x80 {
      } else if c < 0xC2 {
        return false;
      } else if c < 0xE0 {
        if pos + 1 > max {
          return false;
        }
        var c2 := b[pos];
        pos := pos + 1;
        if c2 < 0x80 || c2 > 0xBF {
          return false;
        }
      } else if c < 0xF0 {
        if pos + 2 > max {
          return false;
        }
        var c2 := b[pos];
        pos := pos + 1;
        if c == 0xE0 {
          if c2 < 0xA0 || c2 > 0xBF {
            return false;
          }
        } else {
          if c2 < 0x80 || c2 > 0xBF {
            return false;
          }
        }
        var c3 := b[pos];
        pos := pos + 1;
        if c3 < 0x80 || c3 > 0xBF {
          return false;
        }
        c := Word(c, c2, c3);
        if 0xEDA080 <= c <= 0xEDBFBF { // surrogate pairs
          return false;
        }
      } else if c > 0xF4 {
        return false;
      } else {
        if pos + 3 > max {
          return false;
        }
        var c2 := b[pos];
        pos := pos + 1;
        if c == 0xF0 {
          if c2 < 0x90 || c2 > 0xBF {
            return false;
          }
        } else if c == 0xF4 {
          if c2 < 0x80 || c2 > 0x8F {
            return false;
          }
        } else {
          if c2 < 0x80 || c2 > 0xBF {
            return false;
          }
        }
        var c3 := b[pos];
        pos := pos + 1;
        if c3 < 0x80 || c3 > 0xBF {
          return false;
        }
        var c4 := b[pos];
        pos := pos + 1;
        if c4 < 0x80 || c4 > 0xBF {
          return false;
        }
      }
      assert s[CharLength(s)..] == b[pos..];
    }
    assert b[pos..] == [];
    ok := true;
  }

  lemma OctetsStep(s: seq<Byte>)
    ensures s == [] ==> Octets(s)
    ensures s != [] && CharLength(s) == 0 ==> !Octets(s)
    ensures s != [] && CharLength(s) > 0 ==> Octets(s) == Octets(s[CharLength(s)..])
  {
  }

  // ---------- mb_chr and mb_ord ----------

  /** PHP's %: the remainder takes the sign of the dividend. */
  function Remainder(a: int, n: int): int
    requires n > 0
  {
    if a >= 0 then a % n else -((-a) % n)
  }

  /** chr: modulo 256, also for negative codes */
  function Chr(code: int): Byte {
    code % 0x100
  }

  /** mb_chr; the operands of each of the source's `|` have no bit in common. */
  function MbChr(code: int): seq<Byte> {
    var c := Remainder(code, 0x20_0000);
    if 0x80 > c then [Chr(c)]
    else if 0x800 > c then [Chr(0xC0 + c / 0x40), Chr(0x80 + c % 0x40)]
    else if 0x1_0000 > c then [Chr(0xE0 + c / 0x1000), Chr(0x80 + c / 0x40 % 0x40), Chr(0x80 + c % 0x40)]
    else
      [Chr(0xF0 + c / 0x4_0000), Chr(0x80 + c / 0x1000 % 0x40), Chr(0x80 + c / 0x40 % 0x40), Chr(0x80 + c % 0x40)]
  }

  /** An element of unpack's array, which starts at 1; what is missing counts as 0. */
  function Unpacked(s: seq<Byte>, i: nat): int
    requires i > 0
  {
    if i <= |s| then s[i - 1] else 0
  }

  /** mb_ord */
  function MbOrd(s: seq<Byte>): int {
    var code := if s == [] then 0 else Unpacked(s, 1);
    if 0xF0 <= code then
      (code - 0xF0) * 0x4_0000 + (Unpacked(s, 2) - 0x80) * 0x1000 + (Unpacked(s, 3) - 0x80) * 0x40
      + Unpacked(s, 4) - 0x80
    else if 0xE0 <= code then
      (code - 0xE0) * 0x1000 + (Unpacked(s, 2) - 0x80) * 0x40 + Unpacked(s, 3) - 0x80
    else if 0xC0 <= code then (code - 0xC0) * 0x40 + Unpacked(s, 2) - 0x80
    else code
  }

  lemma RemainderOfSmall(c: nat)
    requires c < 0x20_0000
    ensures Remainder(c, 0x20_0000) == c
  {
  }

  lemma ChrIsExact(v: int)
    requires 0 <= v < 0x100
    ensures Chr(v) == v
  {
  }

  lemma ChrTrail(v: nat)
    ensures Chr(0x80 + v % 0x40) == Trail(v)
  {
  }

  lemma ChrOne(code: int)
    requires Remainder(code, 0x20_0000) < 0x80
    ensures MbChr(code) == [Chr(Remainder(code, 0x20_0000))]
  {
  }

  lemma ChrTwo(c: nat)
    requires 0x80 <= c < 0x800
    ensures MbChr(c) == [0xC0 + c / 0x40, Trail(c)]
  {
    hide Chr, Remainder, Trail;
    RemainderOfSmall(c);
    ChrIsExact(0xC0 + c / 0x40);
    ChrTrail(c);
  }

  lemma ChrThree(c: nat)
    requires 0x800 <= c < 0x1_0000
    ensures MbChr(c) == [0xE0 + c / 0x1000, Trail(c / 0x40), Trail(c)]
  {
    hide Chr, Remainder, Trail;
    RemainderOfSmall(c);
    ChrIsExact(0xE0 + c / 0x1000);
    ChrTrail(c / 0x40);
    ChrTrail(c);
  }

  lemma ChrFour(c: nat)
    requires 0x1_0000 <= c < 0x20_0000
    ensures MbChr(c) == [0xF0 + c / 0x4_0000, Trail(c / 0x1000), Trail(c / 0x40), Trail(c)]
  {
    hide Chr, Remainder, Trail;
    RemainderOfSmall(c);
    ChrIsExact(0xF0 + c / 0x4_0000);
    ChrTrail(c / 0x1000);
    ChrTrail(c / 0x40);
    ChrTrail(c);
  }

  /** mb_ord of one, two, three and four bytes */
  lemma OrdCases(a: Byte, b: Byte, c: Byte, d: Byte)
    ensures a < 0xC0 ==> MbOrd([a]) == a
    ensures 0xC0 <= a < 0xE0 ==> MbOrd([a, b]) == Value2(a, b)
    ensures 0xE0 <= a < 0xF0 ==> MbOrd([a, b, c]) == Value3(a, b, c)
    ensures 0xF0 <= a ==> MbOrd([a, b, c, d]) == Value4(a, b, c, d)
  {
  }

  lemma OrdAlone(a: Byte)
    ensures 0xC0 <= a < 0xE0 ==> MbOrd([a]) == Value2(a, 0)
    ensures 0xE0 <= a < 0xF0 ==> MbOrd([a]) == Value3(a, 0, 0)
    ensures 0xF0 <= a ==> MbOrd([a]) == Value4(a, 0, 0, 0)
  {
  }

  /** A byte written for a negative code is never read back as that code. */
  lemma NegativeCodes(code: int)
    requires code < 0
    ensures MbOrd(MbChr(code)) != code
  {
    hide MbChr, MbOrd;
    var a := Chr(Remainder(code, 0x20_0000));
    ChrOne(code);
    OrdCases(a, 0, 0, 0);
    OrdAlone(a);
  }

  lemma InRange(code: nat)
    requires code < 0x20_0000
    ensures MbOrd(MbChr(code)) == code
  {
    hide MbChr, MbOrd;
    Digits(code);
    if code < 0x80 {
      ChrOne(code);
      OrdCases(code, 0, 0, 0);
    } else if code < 0x800 {
      ChrTwo(code);
      OrdCases(0xC0 + code / 0x40, Trail(code), 0, 0);
    } else if code < 0x1_0000 {
      ChrThree(code);
      OrdCases(0xE0 + code / 0x1000, Trail(code / 0x40), Trail(code), 0);
    } else {
      ChrFour(code);
      OrdCases(0xF0 + code / 0x4_0000, Trail(code / 0x1000), Trail(code / 0x40), Trail(code));
    }
  }

  /** Larger codes are written as their remainders. */
  lemma MbChrReduces(code: int)
    requires code >= 0x20_0000
    ensures MbChr(code) == MbChr(code % 0x20_0000)
  {
    hide Chr;
    RemainderOfSmall(code % 0x20_0000);
  }

  /** The two are inverse exactly on the codes that mb_chr does not reduce. */
  lemma MbOrdInvertsMbChr(code: int)
    ensures MbOrd(MbChr(code)) == code <==> 0 <= code < 0x20_0000
  {
    hide MbChr, MbOrd;
    if code < 0 {
      NegativeCodes(code);
    } else if code < 0x20_0000 {
      InRange(code);
    } else {
      MbChrReduces(code);
      InRange(code % 0x20_0000);
    }
  }

  /** mb_chr writes scalar values as RFC 3629 does. */
  lemma MbChrIsUtf8(c: CodePoint)
    ensures MbChr(c) == Utf8(c)
  {
    hide MbChr;
    if c < 0x80 {
      ChrOne(c);
    } else if c < 0x800 {
      ChrTwo(c);
    } else if c < 0x1_0000 {
      ChrThree(c);
    } else {
      ChrFour(c);
    }
  }

  /** The bytes for any code that is not reduced: as many as its range asks for, each bit in its place. */
  lemma MbChrShape(code: nat)
    requires code < 0x20_0000
    ensures var s := MbChr(code);
            && (code < 0x80 ==> s == [code])
            && (0x80 <= code < 0x800 ==>
                  && |s| == 2 && 0xC0 <= s[0] <= 0xDF && 0x80 <= s[1] <= 0xBF
                  && code == (s[0] - 0xC0) as int * 0x40 + (s[1] - 0x80))
            && (0x800 <= code < 0x1_0000 ==>
                  && |s| == 3 && 0xE0 <= s[0] <= 0xEF && 0x80 <= s[1] <= 0xBF && 0x80 <= s[2] <= 0xBF
                  && code == (s[0] - 0xE0) as int * 0x1000 + (s[1] - 0x80) as int * 0x40 + (s[2] - 0x80))
            && (0x1_0000 <= code ==>
                  && |s| == 4 && 0xF0 <= s[0] <= 0xF7
                  && 0x80 <= s[1] <= 0xBF && 0x80 <= s[2] <= 0xBF && 0x80 <= s[3] <= 0xBF
                  && code == (s[0] - 0xF0) as int * 0x4_0000 + (s[1] - 0x80) as int * 0x1000
                             + (s[2] - 0x80) as int * 0x40 + (s[3] - 0x80))
  {
    hide MbChr;
    Digits(code);
    if code < 0x80 {
      ChrOne(code);
    } else if code < 0x800 {
      ChrTwo(code);
    } else if code < 0x1_0000 {
      ChrThree(code);
    } else {
      ChrFour(code);
    }
  }

  /** Examples of section 7 of RFC 3629 */
  lemma RfcExamples()
    ensures Utf8(0x41) == [0x41] && Utf8(0x391) == [0xCE, 0x91]
    ensures Utf8(0x2262) == [0xE2, 0x89, 0xA2] && Utf8(0x2_33B4) == [0xF0, 0xA3, 0x8E, 0xB4]
  {
  }

  /** mb_ord reads the first character of every UTF-8 text. */
  lemma MbOrdReadsUtf8(c: CodePoint, rest: seq<Byte>)
    ensures MbOrd(Utf8(c) + rest) == c
  {
    hide Utf8;
    EncodingHasSyntax(c, rest);
    CharsAreNotEmpty(c);
    OrdIsValue(Utf8(c) + rest);
  }

  lemma OrdIsValue(s: seq<Byte>)
    requires CharLength(s) > 0
    ensures MbOrd(s) == CharValue(s)
  {
  }

  /** Outside the scalar values mb_chr still writes bytes, but none that validate accepts. */
  lemma ValidIffScalar(code: int)
    requires 0 <= code < 0x20_0000
    ensures Octets(MbChr(code)) <==> IsScalar(code)
  {
    hide MbChr, Utf8, Octets;
    if IsScalar(code) {
      MbChrIsUtf8(code);
      var cs: seq<CodePoint> := [code];
      assert cs[1..] == [] && Utf8All([]) == [] && Utf8All(cs) == Utf8(code) + [] == Utf8(code);
      EncodingsAreOctets(cs);
    } else {
      NotACharacter(code);
      OctetsStep(MbChr(code));
    }
  }

  lemma NotACharacter(code: int)
    requires 0xD800 <= code < 0xE000 || 0x11_0000 <= code < 0x20_0000
    ensures MbChr(code) != [] && CharLength(MbChr(code)) == 0
  {
    hide MbChr;
    if code < 0x1_0000 {
      ChrThree(code);
    } else {
      ChrFour(code);
    }
  }
}
