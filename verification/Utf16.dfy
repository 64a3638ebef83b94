/** UTF-16 (section 2 of RFC 2781) and the reading of code points at native offsets in
    std/StringTools.hx. */
module Utf16 {
  type Unit = u: int | 0 <= u < 0x1_0000

  /** A Unicode scalar value. */
  type CodePoint = c: int | 0 <= c < 0xD800 || 0xE000 <= c < 0x11_0000

  const MIN_SURROGATE_CODE_POINT: int := 65536

  /** What reading at the end of a string gives: no code point. */
  const EOF: int := -1

  function Width(c: int): (w: nat) {
    if c >= MIN_SURROGATE_CODE_POINT then 2 else 1
  }

  function Encode(c: CodePoint): (us: seq<Unit>)
    ensures |us| == Width(c)
  {
    if c < 0x1_0000 then
      var u: Unit := c;
      [u]
    else
      var high: Unit := 0xD800 + (c - 0x1_0000) / 0x400;
      var low: Unit := 0xDC00 + (c - 0x1_0000) % 0x400;
      [high, low]
  }

  /** A code point above the first 0x10000 is a high and a low surrogate with ten bits each. */
  lemma EncodeIsRfc2781(c: CodePoint)
    ensures c < 0x1_0000 ==> Encode(c) == [c]
    ensures c >= 0x1_0000 ==>
              && |Encode(c)| == 2 && 0xD800 <= Encode(c)[0] < 0xDC00 && 0xDC00 <= Encode(c)[1] < 0xE000
              && c as int == 0x1_0000 + (Encode(c)[0] - 0xD800) as int * 0x400 + (Encode(c)[1] - 0xDC00) as int
    ensures Encode(0x1_2345) == [0xD808, 0xDF45]
  {
  }

  function EncodeAll(cs: seq<CodePoint>): seq<Unit> {
    if cs == [] then [] else Encode(cs[0]) + EncodeAll(cs[1..])
  }

  predicate IsHigh(u: Unit) { 0xD800 <= u < 0xDC00 }
  predicate IsLow(u: Unit) { 0xDC00 <= u < 0xE000 }

  /** High and low surrogates come in pairs only. */
  predicate WellFormed(s: seq<Unit>) {
    if s == [] then true
    else if IsHigh(s[0]) then |s| > 1 && IsLow(s[1]) && WellFormed(s[2..])
    else !IsLow(s[0]) && WellFormed(s[1..])
  }

  function Decode(s: seq<Unit>): seq<CodePoint>
    requires WellFormed(s)
  {
    if s == [] then []
    else if IsHigh(s[0]) then [0x1_0000 + (s[0] - 0xD800) * 0x400 + (s[1] - 0xDC00)] + Decode(s[2..])
    else [s[0]] + Decode(s[1..])
  }

  lemma {:induction false} EncodeDecode(s: seq<Unit>)
    requires WellFormed(s)
    ensures EncodeAll(Decode(s)) == s
  {
    if s != [] {
      if IsHigh(s[0]) {
        EncodeDecode(s[2..]);
        assert s == [s[0], s[1]] + s[2..];
      } else {
        EncodeDecode(s[1..]);
      }
    }
  }

  lemma {:induction false} DecodeEncode(cs: seq<CodePoint>)
    ensures WellFormed(EncodeAll(cs)) && Decode(EncodeAll(cs)) == cs
  {
    if cs != [] {
      DecodeEncode(cs[1..]);
      var s, rest := EncodeAll(cs), EncodeAll(cs[1..]);
      assert s == Encode(cs[0]) + rest;
      assert s[Width(cs[0])..] == rest;
    }
  }

  lemma {:induction false} EncodeAppend(a: seq<CodePoint>, b: seq<CodePoint>)
    ensures EncodeAll(a + b) == EncodeAll(a) + EncodeAll(b)
  {
    if a == [] {
      assert a + b == b;
    } else {
      assert (a + b)[1..] == a[1..] + b;
      EncodeAppend(a[1..], b);
    }
  }

  /** Where the k-th code point begins, in native units. */
  function Offset(cs: seq<CodePoint>, k: nat): nat
    requires k <= |cs|
  {
    |EncodeAll(cs[..k])|
  }

  /** fastCodeAt on the targets that answer -1 past the end */
  function FastCodeAt(s: seq<Unit>, index: nat): int {
    if index < |s| then s[index] else EOF
  }

  /** utf16CodePointAt; the shifted part ends in ten zero bits, so the source's `|` adds. */
  function CodePointAt(s: seq<Unit>, index: nat): int {
    var c := FastCodeAt(s, index);
    if 0xD800 <= c <= 0xDBFF then (c - 0xD7C0) * 0x400 + FastCodeAt(s, index + 1) % 0x400 else c
  }

  /** Reading at the start of an encoded code point gives that code point. */
  lemma ReadEncoded(before: seq<Unit>, c: CodePoint, after: seq<Unit>)
    ensures CodePointAt(before + Encode(c) + after, |before|) == c
  {
    var s := before + Encode(c) + after;
    assert s[|before|] == Encode(c)[0];
    if Width(c) == 2 {
      assert s[|before| + 1] == Encode(c)[1];
    }
  }

  lemma EncodeOne(c: CodePoint)
    ensures EncodeAll([c]) == Encode(c)
  {
    assert [c][1..] == [];
  }

  lemma SplitSeq<T>(s: seq<T>, k: nat)
    requires k < |s|
    ensures s[..k + 1] == s[..k] + [s[k]] && s == s[..k + 1] + s[k + 1..]
  {
  }

  /** The string around its k-th code point. */
  lemma SplitAt(cs: seq<CodePoint>, k: nat)
    requires k < |cs|
    ensures EncodeAll(cs) == EncodeAll(cs[..k]) + Encode(cs[k]) + EncodeAll(cs[k + 1..])
    ensures EncodeAll(cs[..k + 1]) == EncodeAll(cs[..k]) + Encode(cs[k])
  {
    hide EncodeAll, Encode;
    EncodeOne(cs[k]);
    SplitSeq(cs, k);
    EncodeAppend(cs[..k], [cs[k]]);
    EncodeAppend(cs[..k + 1], cs[k + 1..]);
  }

  /** At the offset of a code point the source reads that code point, and steps to the next one. */
  lemma ReadAtOffset(s: seq<Unit>, cs: seq<CodePoint>, k: nat)
    requires s == EncodeAll(cs) && k < |cs|
    ensures Offset(cs, k) < |s| && CodePointAt(s, Offset(cs, k)) == cs[k]
    ensures Offset(cs, k + 1) == Offset(cs, k) + Width(cs[k])
  {
    hide EncodeAll, Encode, CodePointAt;
    SplitAt(cs, k);
    ReadEncoded(EncodeAll(cs[..k]), cs[k], EncodeAll(cs[k + 1..]));
  }

  lemma OffsetEnds(s: seq<Unit>, cs: seq<CodePoint>)
    requires s == EncodeAll(cs)
    ensures Offset(cs, 0) == 0 && Offset(cs, |cs|) == |s| && CodePointAt(s, |s|) == EOF
  {
    assert cs[..|cs|] == cs && cs[..0] == [];
  }

  /** A native slice between two such offsets is the encoding of the code points between. */
  lemma SliceAtOffsets(s: seq<Unit>, cs: seq<CodePoint>, a: nat, b: nat)
    requires s == EncodeAll(cs) && a <= b <= |cs|
    ensures Offset(cs, a) <= Offset(cs, b) <= |s|
    ensures s[Offset(cs, a)..Offset(cs, b)] == EncodeAll(cs[a..b])
  {
    assert cs[..b] == cs[..a] + cs[a..b] && cs == cs[..b] + cs[b..];
    EncodeAppend(cs[..a], cs[a..b]);
    EncodeAppend(cs[..b], cs[b..]);
  }

  /** Offsets grow with the code points they belong to. */
  lemma {:induction false} OffsetGrows(s: seq<Unit>, cs: seq<CodePoint>, a: nat, b: nat)
    requires s == EncodeAll(cs) && a <= b <= |cs|
    ensures Offset(cs, b) >= Offset(cs, a) + (b - a)
    decreases b - a
  {
    if a < b {
      ReadAtOffset(s, cs, b - 1);
      OffsetGrows(s, cs, a, b - 1);
    }
  }
}
