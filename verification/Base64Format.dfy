/** Base64 as section 4 of RFC 4648 groups it, and the same byte by byte and sextet by sextet. */
module Base64Format {
  type Byte = b: int | 0 <= b < 0x100
  type Sextet = d: int | 0 <= d < 0x40

  // ---------- section 4 of RFC 4648, without padding ----------

  /** The alphabet of table 1 */
  function Alphabet(i: Sextet): Byte {
    if i < 26 then 65 + i else if i < 52 then 71 + i else if i < 62 then i - 4 else if i == 62 then 43 else 47
  }

  /** The default table, in the four lines of the source */
  const A_TO_P: seq<Byte> := [
    'A' as Byte, 'B' as Byte, 'C' as Byte, 'D' as Byte, 'E' as Byte, 'F' as Byte, 'G' as Byte, 'H' as Byte,
    'I' as Byte, 'J' as Byte, 'K' as Byte, 'L' as Byte, 'M' as Byte, 'N' as Byte, 'O' as Byte, 'P' as Byte
  ]

  const Q_TO_F: seq<Byte> := [
    'Q' as Byte, 'R' as Byte, 'S' as Byte, 'T' as Byte, 'U' as Byte, 'V' as Byte, 'W' as Byte, 'X' as Byte,
    'Y' as Byte, 'Z' as Byte, 'a' as Byte, 'b' as Byte, 'c' as Byte, 'd' as Byte, 'e' as Byte, 'f' as Byte
  ]

  const G_TO_V: seq<Byte> := [
    'g' as Byte, 'h' as Byte, 'i' as Byte, 'j' as Byte, 'k' as Byte, 'l' as Byte, 'm' as Byte, 'n' as Byte,
    'o' as Byte, 'p' as Byte, 'q' as Byte, 'r' as Byte, 's' as Byte, 't' as Byte, 'u' as Byte, 'v' as Byte
  ]

  const W_TO_SLASH: seq<Byte> := [
    'w' as Byte, 'x' as Byte, 'y' as Byte, 'z' as Byte, '0' as Byte, '1' as Byte, '2' as Byte, '3' as Byte,
    '4' as Byte, '5' as Byte, '6' as Byte, '7' as Byte, '8' as Byte, '9' as Byte, '+' as Byte, '/' as Byte
  ]

  const CHARS: seq<Byte> := A_TO_P + Q_TO_F + G_TO_V + W_TO_SLASH

  /** Three bytes as four sextets; a last group of one or two bytes as two or three, filled up with zeros */
  function Sextets(s: seq<Byte>): seq<Sextet> {
    if s == [] then []
    else if |s| == 1 then [First(s[0]), Second(s[0], 0)]
    else if |s| == 2 then [First(s[0]), Second(s[0], s[1]), Third(s[1], 0)]
    else [First(s[0]), Second(s[0], s[1]), Third(s[1], s[2]), Fourth(s[2])] + Sextets(s[3..])
  }

  function First(a: Byte): Sextet { a / 4 }
  function Second(a: Byte, b: Byte): Sextet { a % 4 * 16 + b / 16 }
  function Third(b: Byte, c: Byte): Sextet { b % 16 * 4 + c / 64 }
  function Fourth(c: Byte): Sextet { c % 64 }

  /** Four sextets as three bytes; of a shorter last group the bytes that are complete */
  function Octets(ds: seq<Sextet>): seq<Byte> {
    if |ds| <= 1 then []
    else if |ds| == 2 then [Octet1(ds[0], ds[1])]
    else if |ds| == 3 then [Octet1(ds[0], ds[1]), Octet2(ds[1], ds[2])]
    else [Octet1(ds[0], ds[1]), Octet2(ds[1], ds[2]), Octet3(ds[2], ds[3])] + Octets(ds[4..])
  }

  function Octet1(d: Sextet, e: Sextet): Byte { d * 4 + e / 16 }
  function Octet2(d: Sextet, e: Sextet): Byte { d % 16 * 16 + e / 4 }
  function Octet3(d: Sextet, e: Sextet): Byte { d % 4 * 64 + e }

  lemma OctetsOfGroup(a: Byte, b: Byte, c: Byte)
    ensures Octet1(First(a), Second(a, b)) == a
    ensures Octet2(Second(a, b), Third(b, c)) == b
    ensures Octet3(Third(b, c), Fourth(c)) == c
  {
  }

  lemma SextetsFront(a: Byte, b: Byte, c: Byte, rest: seq<Byte>)
    ensures Sextets([a, b, c] + rest) == [First(a), Second(a, b), Third(b, c), Fourth(c)] + Sextets(rest)
  {
    assert ([a, b, c] + rest)[3..] == rest;
  }

  lemma OctetsFront(d: Sextet, e: Sextet, f: Sextet, g: Sextet, rest: seq<Sextet>)
    ensures Octets([d, e, f, g] + rest) == [Octet1(d, e), Octet2(e, f), Octet3(f, g)] + Octets(rest)
  {
    assert ([d, e, f, g] + rest)[4..] == rest;
  }

  lemma {:induction false} OctetsInvertSextets(s: seq<Byte>)
    ensures Octets(Sextets(s)) == s
  {
    hide First, Second, Third, Fourth, Octet1, Octet2, Octet3;
    if |s| >= 3 {
      hide Sextets, Octets;
      var a, b, c, rest := s[0], s[1], s[2], s[3..];
      assert s == [a, b, c] + rest;
      OctetsInvertSextets(rest);
      SextetsFront(a, b, c, rest);
      OctetsFront(First(a), Second(a, b), Third(b, c), Fourth(c), Sextets(rest));
      OctetsOfGroup(a, b, c);
    } else if |s| == 2 {
      OctetsOfGroup(s[0], s[1], 0);
    } else if |s| == 1 {
      OctetsOfGroup(s[0], 0, 0);
    }
  }

  /** The length of the text, and how decode_string gets the length of the bytes back from it */
  lemma {:induction false} Lengths(s: seq<Byte>)
    ensures |Sextets(s)| == (8 * |s| + 5) / 6
    ensures |Sextets(s)| * 6 / 8 == |s|
  {
    if |s| >= 3 {
      Lengths(s[3..]);
    }
  }

  // ---------- byte by byte ----------

  /** The sextets that become complete when byte c follows the bytes w */
  function Step(w: seq<Byte>, c: Byte): seq<Sextet> {
    if |w| % 3 == 0 then [First(c)]
    else if |w| % 3 == 1 then [Second(w[|w| - 1], c)]
    else [Third(w[|w| - 1], c), Fourth(c)]
  }

  function Complete(s: seq<Byte>): seq<Sextet> {
    if s == [] then []
    else if |s| == 1 then [First(s[0])]
    else if |s| == 2 then [First(s[0]), Second(s[0], s[1])]
    else [First(s[0]), Second(s[0], s[1]), Third(s[1], s[2]), Fourth(s[2])] + Complete(s[3..])
  }

  /** What flushing adds */
  function Tail(s: seq<Byte>): seq<Sextet> {
    if |s| % 3 == 0 then []
    else if |s| % 3 == 1 then [Second(s[|s| - 1], 0)]
    else [Third(s[|s| - 1], 0)]
  }

  lemma CompleteFront(a: Byte, b: Byte, c: Byte, rest: seq<Byte>)
    ensures Complete([a, b, c] + rest) == [First(a), Second(a, b), Third(b, c), Fourth(c)] + Complete(rest)
  {
    assert ([a, b, c] + rest)[3..] == rest;
  }

  lemma {:induction false} CompleteStep(s: seq<Byte>, c: Byte)
    ensures Complete(s + [c]) == Complete(s) + Step(s, c)
  {
    hide First, Second, Third, Fourth;
    if |s| >= 3 {
      hide Complete;
      var x, y, z, rest := s[0], s[1], s[2], s[3..];
      assert s == [x, y, z] + rest && s + [c] == [x, y, z] + (rest + [c]);
      CompleteStep(rest, c);
      CompleteFront(x, y, z, rest);
      CompleteFront(x, y, z, rest + [c]);
      assert Step(s, c) == Step(rest, c);
    } else if |s| == 2 {
      assert s + [c] == [s[0], s[1], c] + [];
      CompleteFront(s[0], s[1], c, []);
    }
  }

  lemma TailFront(s: seq<Byte>)
    requires |s| >= 3
    ensures Tail(s) == Tail(s[3..])
  {
    hide Second, Third;
  }

  /** The stream writes what the grouping says. */
  lemma {:induction false} StreamIsGrouped(s: seq<Byte>)
    ensures Complete(s) + Tail(s) == Sextets(s)
  {
    hide First, Second, Third, Fourth;
    if |s| >= 3 {
      hide Complete, Sextets, Tail;
      var x, y, z, rest := s[0], s[1], s[2], s[3..];
      assert s == [x, y, z] + rest;
      StreamIsGrouped(rest);
      CompleteFront(x, y, z, rest);
      SextetsFront(x, y, z, rest);
      TailFront(s);
    }
  }

  /** The bytes that become complete when sextet d follows the sextets r */
  function StepBack(r: seq<Sextet>, d: Sextet): seq<Byte> {
    if |r| % 4 == 0 then []
    else if |r| % 4 == 1 then [Octet1(r[|r| - 1], d)]
    else if |r| % 4 == 2 then [Octet2(r[|r| - 1], d)]
    else [Octet3(r[|r| - 1], d)]
  }

  lemma SplitFour(r: seq<Sextet>, d: Sextet)
    requires |r| >= 4
    ensures r == [r[0], r[1], r[2], r[3]] + r[4..]
    ensures r + [d] == [r[0], r[1], r[2], r[3]] + (r[4..] + [d])
  {
  }

  lemma StepBackAligned(r: seq<Sextet>, d: Sextet)
    requires |r| >= 4
    ensures StepBack(r, d) == StepBack(r[4..], d)
  {
    hide Octet1, Octet2, Octet3;
  }

  lemma {:induction false} OctetsStep(r: seq<Sextet>, d: Sextet)
    ensures Octets(r + [d]) == Octets(r) + StepBack(r, d)
  {
    hide Octet1, Octet2, Octet3;
    if |r| >= 4 {
      hide Octets, StepBack;
      var x, y, z, w, rest := r[0], r[1], r[2], r[3], r[4..];
      SplitFour(r, d);
      OctetsStep(rest, d);
      OctetsFront(x, y, z, w, rest);
      OctetsFront(x, y, z, w, rest + [d]);
      StepBackAligned(r, d);
    } else if |r| == 3 {
      assert r + [d] == [r[0], r[1], r[2], d] + [];
      OctetsFront(r[0], r[1], r[2], d, []);
    }
  }

  lemma {:induction false} OctetsLength(ds: seq<Sextet>)
    ensures |Octets(ds)| == |ds| * 6 / 8
  {
    if |ds| >= 4 {
      OctetsLength(ds[4..]);
    }
  }
}
