/** libs/extlib-leftovers/base64.ml: Base64 without padding, as streams that carry bits over from one
    byte to the next. */
module Base64 {
  import opened Base64Accumulator
  import opened Base64Bits
  import opened Base64Format

  datatype Result<+T> = Ok(value: T) | InvalidTable | InvalidChar | NoMoreInput

  /** A decoding table has -1 for the characters that are not accepted. */
  type Entry = e: int | -1 <= e < 0x40

  // ---------- encode ----------

  function Chars(tbl: seq<Byte>, ds: seq<Sextet>): (r: seq<Byte>)
    requires |tbl| == 64
    ensures |r| == |ds|
  {
    seq(|ds|, i requires 0 <= i < |ds| => tbl[ds[i]])
  }

  lemma CharsAppend(tbl: seq<Byte>, a: seq<Sextet>, b: seq<Sextet>)
    requires |tbl| == 64
    ensures Chars(tbl, a + b) == Chars(tbl, a) + Chars(tbl, b)
  {
  }

  /** The sextets that the loop of write takes off an accumulator with this many bits */
  ghost function Left(count: nat, data: int): seq<Sextet> {
    if count < 6 then [] else [Asr(data, count - 6) % 0x40] + Left(count - 6, data)
  }

  /** The number of bits carried over after n bytes */
  function Carried(n: nat): nat {
    if n % 3 == 0 then 0 else if n % 3 == 1 then 2 else 4
  }

  ghost function LastByte(s: seq<Byte>): Byte {
    if s == [] then 0 else s[|s| - 1]
  }

  lemma LeftIsStep(w: seq<Byte>, data: int, c: Byte)
    requires data % 0x100 == LastByte(w)
    ensures Left(Carried(|w|) + 8, PushByte(data, c)) == Step(w, c)
    ensures PushByte(data, c) % 0x100 == c
  {
    hide Asr, PushByte, First, Second, Third, Fourth;
    ByteBits(data, LastByte(w), c);
    var d := PushByte(data, c);
    LeftOnce(8, d);
    LeftOnce(10, d);
    LeftOnce(12, d);
    LeftOnce(6, d);
  }

  lemma LeftOnce(count: nat, data: int)
    requires 6 <= count <= 12
    ensures Left(count, data) == [Asr(data, count - 6) % 0x40] + if count == 12 then Left(6, data) else []
  {
  }

  class Encoder {
    const tbl: seq<Byte>
    var data: int
    var count: nat
    var out: seq<Byte>  // what has been written to the underlying channel

    ghost var written: seq<Byte>

    ghost predicate Valid()
      reads `data, `count, `written
    {
      |tbl| == 64 && count == Carried(|written|) && data % 0x100 == LastByte(written)
    }

    constructor (tbl: seq<Byte>)
      requires |tbl| == 64
      ensures Valid() && written == [] && out == [] && this.tbl == tbl
    {
      this.tbl := tbl;
      data, count, out, written := 0, 0, [], [];
    }

    method Write(c: Byte)
      requires Valid()
      modifies this
      ensures Valid() && written == old(written) + [c]
      ensures out == old(out) + Chars(tbl, Step(old(written), c))
    {
      hide PushByte, Asr, Step;
      LeftIsStep(written, data, c);
      ghost var step := Step(written, c);
      data := PushByte(data, c);
      count := count + 8;
      while count >= 6
        invariant out + Chars(tbl, Left(count, data)) == old(out) + Chars(tbl, step)
        invariant data == PushByte(old(data), c) && written == old(written)
        invariant count <= 12 && count % 6 == (old(count) + 8) % 6
      {
        ghost var before := Left(count, data);
        count := count - 6;
        var d := Asr(data, count) % 0x40;
        CharsAppend(tbl, [d], Left(count, data));
        out := out + [tbl[d]];
      }
      written := written + [c];
    }

    method Output(s: seq<Byte>)
      requires Valid()
      modifies this
      ensures Valid() && written == old(written) + s
      ensures old(written) == [] && old(out) == [] ==> out == Chars(tbl, Complete(s))
    {
      for i := 0 to |s|
        invariant Valid() && written == old(written) + s[..i]
        invariant old(written) == [] && old(out) == [] ==> out == Chars(tbl, Complete(s[..i]))
      {
        hide Complete, Step, Encoder.Valid;
        CompleteStep(s[..i], s[i]);
        assert s[..i + 1] == s[..i] + [s[i]];
        Write(s[i]);
        CharsAppend(tbl, Complete(s[..i]), Step(s[..i], s[i]));
      }
      assert s[..|s|] == s;
    }

    /** flush; the accumulator keeps its bits. */
    method Flush()
      requires Valid()
      modifies `out
      ensures Valid() && out == old(out) + Chars(tbl, Tail(written))
    {
      hide Asl, Second, Third;
      if count > 0 {
        var d := Asl(data, 6 - count) % 0x40;
        FlushedBits(data, LastByte(written));
        assert Tail(written) == [d];
        out := out + [tbl[d]];
      }
    }
  }

  /** The text spells the bits of the bytes, six with each character, and zeros in the last one. */
  ghost predicate Spelled(tbl: seq<Byte>, s: seq<Byte>, ds: seq<Sextet>, text: seq<Byte>)
    requires |tbl| == 64
  {
    && |text| == |ds| == (8 * |s| + 5) / 6
    && (forall i | 0 <= i < |ds| :: text[i] == tbl[ds[i]])
    && (forall k | 0 <= k < 6 * |ds| :: SextetBit(ds, k) == if k < 8 * |s| then BitAt(s[k / 8], k % 8) else 0)
  }

  lemma SextetsAreSpelled(tbl: seq<Byte>, s: seq<Byte>)
    requires |tbl| == 64
    ensures Spelled(tbl, s, Sextets(s), Chars(tbl, Sextets(s)))
  {
    hide Sextets, SextetBit, BitAt;
    Lengths(s);
    var ds := Sextets(s);
    forall k | 0 <= k < 6 * |ds|
      ensures SextetBit(ds, k) == if k < 8 * |s| then BitAt(s[k / 8], k % 8) else 0
    {
      SextetsSpellBytes(s, k);
    }
  }

  /** encode_string: the whole string to the output of an encoder, which is then closed */
  method EncodeString(tbl: seq<Byte>, s: seq<Byte>) returns (r: Result<seq<Byte>>)
    ensures r == if |tbl| != 64 then InvalidTable else Ok(Chars(tbl, Sextets(s)))
    ensures |tbl| == 64 ==> exists ds: seq<Sextet> :: Spelled(tbl, s, ds, r.value)
  {
    if |tbl| == 64 {
      SextetsAreSpelled(tbl, s);
    }
    if |tbl| != 64 {
      return InvalidTable;
    }
    hide Complete, Tail, Sextets, Chars;
    var ch := new Encoder(tbl);
    ch.Output(s);
    ch.Flush();
    StreamIsGrouped(s);
    CharsAppend(tbl, Complete(s), Tail(s));
    r := Ok(ch.out);
  }

  // ---------- decode ----------

  /** make_decoding_table */
  method MakeDecodingTable(tbl: seq<Byte>) returns (r: Result<seq<Entry>>)
    ensures |tbl| != 64 ==> r == InvalidTable
    ensures |tbl| == 64 ==> r.Ok? && Inverts(r.value, tbl)
  {
    if |tbl| != 64 {
      return InvalidTable;
    }
    var d := new Entry[256](_ => -1);
    for i := 0 to 64
      invariant forall c: Byte :: InvertsUpto(d[c], tbl, i, c)
    {
      d[tbl[i]] := i;
    }
    r := Ok(d[..]);
  }

  /** The entry of character c is its last place among the first n of the table. */
  ghost predicate InvertsUpto(e: Entry, tbl: seq<Byte>, n: nat, c: Byte)
    requires n <= |tbl|
  {
    && e < n
    && (e >= 0 ==> tbl[e] == c)
    && forall k | 0 <= k < n && tbl[k] == c :: k <= e
  }

  ghost predicate Inverts(d: seq<Entry>, tbl: seq<Byte>) {
    |d| == 256 && |tbl| == 64 && forall c: Byte :: InvertsUpto(d[c], tbl, 64, c)
  }

  /** All characters of s are accepted. */
  predicate Known(d: seq<Entry>, s: seq<Byte>)
    requires |d| == 256
  {
    forall i | 0 <= i < |s| :: d[s[i]] != -1
  }

  function Values(d: seq<Entry>, s: seq<Byte>): (r: seq<Sextet>)
    requires |d| == 256 && Known(d, s)
    ensures |r| == |s|
  {
    seq(|s|, i requires 0 <= i < |s| => ValueOf(d, s[i]))
  }

  function ValueOf(d: seq<Entry>, c: Byte): Sextet
    requires |d| == 256 && d[c] != -1
  {
    d[c]
  }

  /** The number of bits held after n sextets, when all complete bytes have been delivered */
  function Held(n: nat): nat {
    if n % 4 == 0 then 0 else if n % 4 == 1 then 6 else if n % 4 == 2 then 4 else 2
  }

  ghost function LastOf(ds: seq<Sextet>): Sextet {
    if ds == [] then 0 else ds[|ds| - 1]
  }

  /** The accumulator with one sextet more: the first of a group completes no byte, the others one each. */
  lemma Absorb(read: seq<Sextet>, data: int, c: Sextet)
    requires data % 0x40 == LastOf(read)
    ensures PushSextet(data, c) % 0x40 == c == LastOf(read + [c]) && (read + [c])[..|read|] == read
    ensures |read| % 4 == 0 ==> Octets(read + [c]) == Octets(read)
    ensures |read| % 4 != 0 ==>
              Held(|read|) >= 2 && [Asr(PushSextet(data, c), Held(|read|) - 2) % 0x100] == StepBack(read, c)
  {
    hide Asr, PushSextet, Octets, Octet1, Octet2, Octet3;
    SextetBits(data, LastOf(read), c);
    OctetsStep(read, c);
  }

  lemma Release(read: seq<Sextet>)
    requires read != []
    ensures Octets(read) == Octets(read[..|read| - 1]) + StepBack(read[..|read| - 1], read[|read| - 1])
  {
    OctetsStep(read[..|read| - 1], read[|read| - 1]);
    assert read == read[..|read| - 1] + [read[|read| - 1]];
  }

  lemma ReadOn(tbl: seq<Entry>, input: seq<Byte>, p: nat)
    requires |tbl| == 256 && p < |input| && Known(tbl, input[..p]) && tbl[input[p]] != -1
    ensures Known(tbl, input[..p + 1])
    ensures Values(tbl, input[..p + 1]) == Values(tbl, input[..p]) + [tbl[input[p]]]
  {
  }

  class Decoder {
    const tbl: seq<Entry>
    const input: seq<Byte>  // the underlying channel
    var pos: nat
    var data: int
    var count: nat

    ghost var read: seq<Sextet>

    /** A byte is complete and not delivered yet. */
    predicate Owes()
      reads `count
    {
      count >= 8
    }

    ghost predicate Valid()
      reads this
    {
      && |tbl| == 256 && pos <= |input| && Known(tbl, input[..pos]) && read == Values(tbl, input[..pos])
      && (if Owes() then |read| % 4 != 1 && read != [] && count == Held(|read|) + 8
          else count == Held(|read|))
      && Delivers()
    }

    /** What the accumulator holds for the next byte */
    ghost predicate Delivers()
      reads this
    {
      && data % 0x40 == LastOf(read)
      && (Owes() && read != [] ==>
            [Asr(data, count - 8) % 0x100] == StepBack(read[..|read| - 1], read[|read| - 1]))
    }

    ghost function Delivered(): seq<Byte>
      reads this
    {
      if Owes() && read != [] then Octets(read[..|read| - 1]) else Octets(read)
    }

    constructor (tbl: seq<Entry>, input: seq<Byte>)
      requires |tbl| == 256
      ensures Valid() && !Owes() && pos == 0 && this.input == input && this.tbl == tbl
    {
      this.tbl, this.input := tbl, input;
      pos, data, count, read := 0, 0, 0, [];
    }

    /** fetch */
    method Fetch() returns (r: Result<Byte>)
      requires Valid()
      modifies this
      ensures r.Ok? ==> Valid() && !Owes() && Delivered() == old(Delivered()) + [r.value] && |read| % 4 != 1
      ensures r.NoMoreInput? ==> Valid() && !Owes() && pos == |input| && Delivered() == old(Delivered())
      ensures r.InvalidChar? ==>
                0 < pos <= |input| && Known(tbl, input[..pos - 1]) && tbl[input[pos - 1]] == -1
                && |Octets(Values(tbl, input[..pos - 1]))| == |old(Delivered())|
      ensures !r.InvalidTable?
      decreases |input| - pos
    {
      hide Asr, PushSextet, Octets, StepBack, Known, Values;
      if count >= 8 {
        count := count - 8;
        var d := Asr(data, count) % 0x100;
        Release(read);
        r := Ok(d);
      } else {
        if pos == |input| {
          return NoMoreInput;
        }
        var ch := input[pos];
        pos := pos + 1;
        var c := tbl[ch];
        if c == -1 {
          return InvalidChar;
        }
        Absorb(read, data, c);
        ReadOn(tbl, input, pos - 1);
        data := PushSextet(data, c);
        count := count + 6;
        read := read + [c];
        r := Fetch();
      }
    }

    /** input: up to l bytes, fewer when the text ends before */
    method Input(l: nat) returns (r: Result<seq<Byte>>)
      requires Valid() && !Owes() && |read| % 4 != 1
      modifies this
      ensures r.Ok? ==>
                Valid() && !Owes() && Delivered() == old(Delivered()) + r.value && |r.value| <= l
                && (|r.value| == l ==> |read| % 4 != 1)
                && (|r.value| < l ==> pos == |input|)
      ensures r.NoMoreInput? ==> Valid() && !Owes() && pos == |input| && Delivered() == old(Delivered()) && l > 0
      ensures r.InvalidChar? ==>
                0 < pos <= |input| && Known(tbl, input[..pos - 1]) && tbl[input[pos - 1]] == -1
                && |Octets(Values(tbl, input[..pos - 1]))| < |old(Delivered())| + l
      ensures !r.InvalidTable?
    {
      hide Octets, StepBack, Known, Values, Asr;
      var s: seq<Byte> := [];
      while |s| < l
        invariant Valid() && !Owes() && Delivered() == old(Delivered()) + s && |s| <= l && |read| % 4 != 1
      {
        var f := Fetch();
        match f {
          case Ok(b) =>
            s := s + [b];
          case NoMoreInput =>
            return if s == [] then NoMoreInput else Ok(s);
          case InvalidChar =>
            return InvalidChar;
        }
      }
      r := Ok(s);
    }
  }

  /** The number of characters read for n bytes */
  function Used(n: nat): nat {
    (8 * n + 5) / 6
  }

  /** What decode_string answers */
  function Decoded(tbl: seq<Entry>, s: seq<Byte>): Result<seq<Byte>> {
    if |tbl| != 256 then InvalidTable
    else
      assert Used(|s| * 6 / 8) <= |s|;
      var read := s[..Used(|s| * 6 / 8)];
      if Known(tbl, read) then Ok(Octets(Values(tbl, read))) else InvalidChar
  }

  /** Whole groups, and what is left over */
  lemma WholeGroups(q: nat, k: nat)
    requires k < 4
    ensures (4 * q + k) * 6 / 8 == 3 * q + k * 6 / 8
    ensures k < 3 ==> Used(3 * q + k) == 4 * q + (8 * k + 5) / 6
  {
  }

  lemma ReadExactly(r: nat, n: nat)
    ensures r * 6 / 8 == n && r % 4 != 1 ==> r == Used(n)
    ensures r * 6 / 8 < n ==> r < Used(n)
  {
    WholeGroups(r / 4, r % 4);
    WholeGroups(n / 3, n % 3);
    hide Used;
    assert r == 4 * (r / 4) + r % 4 && n == 3 * (n / 3) + n % 3;
  }

  lemma KnownPrefix(tbl: seq<Entry>, s: seq<Byte>, n: nat)
    requires |tbl| == 256 && n < |s| && tbl[s[n]] == -1
    ensures !Known(tbl, s)
  {
  }

  /** An invalid character is reported exactly if there is one among those that are read; otherwise the
      bytes spell the bits of the characters, as many as are complete. */
  lemma DecodedMeans(tbl: seq<Entry>, s: seq<Byte>)
    requires |tbl| == 256
    ensures Decoded(tbl, s).InvalidChar? || Decoded(tbl, s).Ok?
    ensures Decoded(tbl, s).InvalidChar?
            <==> exists i :: 0 <= i < |s| && i < (8 * (|s| * 6 / 8) + 5) / 6 && tbl[s[i]] == -1
    ensures Decoded(tbl, s).Ok? ==>
              && |Decoded(tbl, s).value| == |s| * 6 / 8
              && forall k | 0 <= k < 8 * |Decoded(tbl, s).value| ::
                   k / 6 < |s| && tbl[s[k / 6]] >= 0
                   && ByteBit(Decoded(tbl, s).value, k) == BitAt(tbl[s[k / 6]], 2 + k % 6)
  {
    hide Octets, ByteBit, BitAt;
    var m := Used(|s| * 6 / 8);
    var read := s[..m];
    if !Known(tbl, read) {
      var i :| 0 <= i < |read| && tbl[read[i]] == -1;
      assert tbl[s[i]] == -1;
    } else {
      forall i | 0 <= i < |s| && i < m
        ensures tbl[s[i]] != -1
      {
        assert tbl[read[i]] != -1;
      }
      var ds := Values(tbl, read);
      OctetsLength(ds);
      forall k | 0 <= k < 8 * |Octets(ds)|
        ensures k / 6 < |s| && tbl[s[k / 6]] >= 0 && ByteBit(Octets(ds), k) == BitAt(tbl[s[k / 6]], 2 + k % 6)
      {
        OctetsSpellSextets(ds, k);
        assert ds[k / 6] == tbl[read[k / 6]] == tbl[s[k / 6]];
      }
    }
  }

  /** The bytes have the bits of the characters, six of each, as many as are complete. */
  ghost predicate SpellsTo(tbl: seq<Entry>, s: seq<Byte>, bytes: seq<Byte>)
    requires |tbl| == 256
  {
    && |bytes| == |s| * 6 / 8
    && forall k | 0 <= k < 8 * |bytes| ::
         k / 6 < |s| && tbl[s[k / 6]] >= 0 && ByteBit(bytes, k) == BitAt(tbl[s[k / 6]], 2 + k % 6)
  }

  lemma DecodedSpells(tbl: seq<Entry>, s: seq<Byte>)
    requires |tbl| == 256
    ensures Decoded(tbl, s).Ok? ==> SpellsTo(tbl, s, Decoded(tbl, s).value)
  {
    hide Decoded, ByteBit, BitAt;
    DecodedMeans(tbl, s);
  }

  /** decode_string; reading n bytes in full is one call of input. */
  method DecodeString(tbl: seq<Entry>, s: seq<Byte>) returns (r: Result<seq<Byte>>)
    ensures r == Decoded(tbl, s)
    ensures |tbl| != 256 ==> r == InvalidTable
    ensures |tbl| == 256 ==>
              (r.InvalidChar? <==> exists i :: 0 <= i < |s| && i < (8 * (|s| * 6 / 8) + 5) / 6 && tbl[s[i]] == -1)
    ensures r.Ok? ==> |tbl| == 256 && SpellsTo(tbl, s, r.value)
  {
    hide Octets, StepBack, Known, Values, Asr, ByteBit, BitAt, SpellsTo;
    if |tbl| == 256 {
      DecodedMeans(tbl, s);
      DecodedSpells(tbl, s);
    }
    if |tbl| != 256 {
      return InvalidTable;
    }
    var ch := new Decoder(tbl, s);
    OctetsLength(ch.read);
    assert s[..0] == [] && ch.Delivered() == [];
    r := ch.Input(|s| * 6 / 8);
    ghost var n := |s| * 6 / 8;
    if r.InvalidChar? {
      OctetsLength(Values(tbl, s[..ch.pos - 1]));
      ReadExactly(ch.pos - 1, n);
      KnownPrefix(tbl, s[..Used(n)], ch.pos - 1);
    } else {
      OctetsLength(ch.read);
      ReadExactly(ch.pos, n);
      assert ch.Delivered() == Octets(ch.read);
      assert r.Ok? ==> [] + r.value == r.value;
    }
  }

  /** The examples of section 10 of RFC 4648, without their padding */
  lemma RfcExamples()
    ensures |CHARS| == 64
    ensures Chars(CHARS, Sextets([102])) == ['Z' as Byte, 'g' as Byte]
    ensures Chars(CHARS, Sextets([102, 111])) == ['Z' as Byte, 'm' as Byte, '8' as Byte]
    ensures Chars(CHARS, Sextets([102, 111, 111])) == ['Z' as Byte, 'm' as Byte, '9' as Byte, 'v' as Byte]
  {
    hide CHARS;
    CharsAreAlphabet();
    assert [102, 111, 111][3..] == [] && Sextets([]) == [];
    assert Sextets([102]) == [25, 32] && Sextets([102, 111]) == [25, 38, 60];
    assert Sextets([102, 111, 111]) == [25, 38, 61, 47];
  }

  // ---------- the round trip ----------

  ghost predicate Distinct(tbl: seq<Byte>) {
    forall i, j | 0 <= i < j < |tbl| :: tbl[i] != tbl[j]
  }

  lemma AToP()
    ensures |A_TO_P| == 16 && forall i: nat | i < 16 :: A_TO_P[i] == Alphabet(i)
  {
  }

  lemma QToF()
    ensures |Q_TO_F| == 16 && forall i: nat | i < 16 :: Q_TO_F[i] == Alphabet(16 + i)
  {
  }

  lemma GToV()
    ensures |G_TO_V| == 16 && forall i: nat | i < 16 :: G_TO_V[i] == Alphabet(32 + i)
  {
  }

  lemma WToSlash()
    ensures |W_TO_SLASH| == 16 && forall i: nat | i < 16 :: W_TO_SLASH[i] == Alphabet(48 + i)
  {
  }

  /** The default table is the alphabet of RFC 4648. */
  lemma CharsAreAlphabet()
    ensures |CHARS| == 64 && forall i: Sextet :: CHARS[i] == Alphabet(i)
  {
    hide A_TO_P, Q_TO_F, G_TO_V, W_TO_SLASH;
    AToP();
    QToF();
    GToV();
    WToSlash();
  }

  lemma CharsAreDistinct()
    ensures |CHARS| == 64 && Distinct(CHARS)
  {
    hide CHARS;
    CharsAreAlphabet();
  }

  /** With a table of distinct characters every text written with it is read back. */
  lemma ValuesInvertChars(tbl: seq<Byte>, d: seq<Entry>, ds: seq<Sextet>)
    requires Inverts(d, tbl) && Distinct(tbl)
    ensures Known(d, Chars(tbl, ds)) && Values(d, Chars(tbl, ds)) == ds
  {
    forall i | 0 <= i < |ds| ensures d[Chars(tbl, ds)[i]] == ds[i] {
      assert InvertsUpto(d[tbl[ds[i]]], tbl, 64, tbl[ds[i]]);
    }
  }

  lemma DecodedInvertsChars(tbl: seq<Byte>, d: seq<Entry>, s: seq<Byte>)
    requires Inverts(d, tbl) && Distinct(tbl)
    ensures Decoded(d, Chars(tbl, Sextets(s))) == Ok(s)
  {
    hide Octets, Sextets, Known, Values;
    var text := Chars(tbl, Sextets(s));
    Lengths(s);
    assert text[..|text|] == text;
    ValuesInvertChars(tbl, d, Sextets(s));
    OctetsInvertSextets(s);
  }

  /** Two places of the table with one character: the byte whose first sextet is the earlier place is
      read back as another byte. */
  lemma RepeatIsMisread(tbl: seq<Byte>, d: seq<Entry>, i: Sextet, j: Sextet)
    requires Inverts(d, tbl) && i < j && tbl[i] == tbl[j]
    ensures Decoded(d, Chars(tbl, Sextets([4 * i]))) != Ok([4 * i])
  {
    var s: seq<Byte> := [4 * i];
    var text := Chars(tbl, Sextets(s));
    assert Sextets(s) == [i, 0];
    assert text == [tbl[i], tbl[0]] && text[..2] == text;
    assert InvertsUpto(d[tbl[i]], tbl, 64, tbl[i]) && d[tbl[i]] >= j;
  }

  /** decode_string inverts encode_string on all byte strings exactly if no character of the table repeats. */
  lemma RoundTripIffDistinct(tbl: seq<Byte>, d: seq<Entry>)
    requires Inverts(d, tbl)
    ensures Distinct(tbl) <==> forall s: seq<Byte> :: Decoded(d, Chars(tbl, Sextets(s))) == Ok(s)
  {
    hide Decoded, Chars, Sextets, Inverts;
    assert |tbl| == 64 by { InvertsSizes(d, tbl); }
    if Distinct(tbl) {
      forall s: seq<Byte> ensures Decoded(d, Chars(tbl, Sextets(s))) == Ok(s) {
        DecodedInvertsChars(tbl, d, s);
      }
    } else {
      var i: nat, j: nat :| 0 <= i < j < |tbl| && tbl[i] == tbl[j];
      RepeatIsMisread(tbl, d, i, j);
    }
  }

  lemma InvertsSizes(d: seq<Entry>, tbl: seq<Byte>)
    requires Inverts(d, tbl)
    ensures |tbl| == 64 && |d| == 256
  {
  }
}
