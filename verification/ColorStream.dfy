/** The global colour stream of libs/objsize/c_objsize.c as one object. The assertions of the source
    that depend on the caller are preconditions here; the others are proved. */
module ColorStream {
  import opened BitArray
  import opened ColorCodec

  const COLORS_INIT_COUNT: nat := 256
  const INT_MAX: nat := 0x7fff_ffff

  lemma {:induction false} Pow2Add(a: nat, b: nat)
    ensures Pow2(a + b) == Pow2(a) * Pow2(b)
  {
    if a > 0 { Pow2Add(a - 1, b); }
  }

  class Stream {
    var colors: array<bv8>
    var bitcap: nat
    var writeIndex: nat
    var readIndex: nat
    var prevColor: Color
    var repeatCount: nat

    ghost var bits: seq<bool>      // the bits below writeIndex
    ghost var written: seq<Token>  // the code words in the store
    ghost var pending: seq<Token>  // the code words from readIndex on

    ghost predicate Stored()
      reads `colors, `bitcap, `writeIndex, `readIndex, `bits, colors
    {
      && bitcap >= 2 * COLORS_INIT_COUNT
      && bitcap == BITS_OF_CHAR * colors.Length  // no request this large is padded
      && readIndex <= writeIndex <= bitcap
      && bits == BitsOf(colors[..], writeIndex)
    }

    /** The store holds a sequence of complete code words. */
    ghost predicate Tokenized()
      reads `colors, `bitcap, `writeIndex, `readIndex, `bits, `written, colors
    {
      Stored() && AllValid(written) && bits == StreamBits(written)
    }

    ghost predicate Writing()
      reads this, colors
    {
      && Tokenized() && readIndex == 0
      && prevColor == LastColor(0, written) != BLUE
      && repeatCount <= INT_MAX
    }

    /** The colours handed to the writer so far, flushed or not. */
    ghost function Written(): seq<Color>
      reads this
    {
      Expand(0, written) + Repeat(prevColor, repeatCount)
    }

    ghost predicate Reading()
      reads this, colors
    {
      && Stored()
      && AllValid(pending)
      && bits[readIndex..] == StreamBits(pending)
      && prevColor != BLUE
    }

    /** The colours the reader has still to deliver. */
    ghost function Remaining(): seq<Color>
      reads this
    {
      Repeat(prevColor, repeatCount) + Expand(prevColor, pending)
    }

    /** colors_init followed by rle_init */
    constructor ()
      ensures Writing() && Written() == [] && fresh(colors)
    {
      bitcap := 2 * COLORS_INIT_COUNT;
      colors := new bv8[SizeBytes(2 * COLORS_INIT_COUNT)];
      writeIndex, readIndex := 0, 0;
      prevColor, repeatCount := 0, 0;
      bits, written, pending := [], [], [];
      new;
      WordAlignNeverAligns(64);
    }

    method WriteBit(bit: bool)
      requires Stored()
      modifies `colors, `bitcap, `writeIndex, `bits, colors
      ensures Stored() && (colors == old(colors) || fresh(colors))
      ensures writeIndex == old(writeIndex) + 1
      ensures bits == old(bits) + [bit]
    {
      hide BitAt, Mask;
      if writeIndex == bitcap {
        Grow();
      }
      ghost var before := colors[..];
      Set(colors, writeIndex, bit);
      BitsOfAgree(before, colors[..], writeIndex);
      writeIndex := writeIndex + 1;
      bits := bits + [bit];
    }

    /** The doubling inside writebit */
    method Grow()
      requires Stored() && writeIndex == bitcap
      modifies `colors, `bitcap
      ensures Stored() && fresh(colors) && bitcap == 2 * old(bitcap)
    {
      hide WordAlign;
      var newBitcap := bitcap * 2;
      WordAlignNeverAligns(newBitcap / BITS_OF_CHAR);
      WordAlignNeverAligns(bitcap / BITS_OF_CHAR);
      var newArr := Realloc(colors, newBitcap);
      forall i: nat | i < writeIndex
        ensures BitAt(newArr[..], i) == BitAt(colors[..], i)
      {
        assert newArr[..][i / BITS_OF_CHAR] == colors[..][i / BITS_OF_CHAR];
      }
      BitsOfAgree(colors[..], newArr[..], writeIndex);
      colors, bitcap := newArr, newBitcap;
    }

    method ReadBit() returns (bit: bool)
      requires Stored() && readIndex < writeIndex
      modifies `readIndex
      ensures Stored() && readIndex == old(readIndex) + 1
      ensures bit == bits[old(readIndex)]
    {
      bit := Get(colors, readIndex);
      BitsOfIndex(colors[..], writeIndex, readIndex);
      readIndex := readIndex + 1;
    }

    method WriteInt(arg: nat, width: nat)
      requires Stored() && arg < Pow2(width)
      modifies `colors, `bitcap, `writeIndex, `bits, colors
      ensures Stored() && (colors == old(colors) || fresh(colors))
      ensures bits == old(bits) + IntBits(arg, width)
    {
      var a: nat, w: nat := arg, width;
      while w > 0
        invariant Stored() && (colors == old(colors) || fresh(colors))
        invariant 0 <= w && a < Pow2(w)
        invariant bits + IntBits(a, w) == old(bits) + IntBits(arg, width)
      {
        w := w - 1;
        WriteBit(a % 2 == 1);
        a := a / 2;
      }
      assert a == 0;
    }

    lemma CountStored()
      requires Stored()
      ensures readIndex <= |bits| == writeIndex
    {
    }

    /** The new top bit is clear in the shifted accumulator, so the source's `|=` adds. */
    method ReadInt(width: nat, ghost code: seq<bool>, ghost rest: seq<bool>) returns (acc: nat)
      requires Stored() && 0 < width <= 32
      requires |code| == width && bits[readIndex..] == code + rest
      modifies `readIndex
      ensures Stored() && acc == IntOf(code)
      ensures bits[readIndex..] == rest
    {
      hide IntBits, StreamBits, Stream.Stored;
      CountStored();
      acc := 0;
      var hibit, w := Pow2(width - 1), width;
      while w > 0
        invariant w <= width && Stored() && readIndex == old(readIndex) + (width - w)
        invariant acc == IntOf(code[..width - w]) * Pow2(w)
      {
        ghost var k := width - w;
        w := w - 1;
        assert code[k] == bits[old(readIndex)..][k];
        CountStored();
        var bit := ReadBit();
        ShiftIn(code[..k], bit, w);
        assert code[..k + 1] == code[..k] + [bit];
        acc := acc / 2;
        assert acc < hibit;
        if bit { acc := acc + hibit; }
      }
      assert code[..width] == code;
      assert bits[readIndex..] == bits[old(readIndex)..][width..];
    }

    /** rle_write_repeats */
    method WriteRepeats()
      requires Tokenized()
      modifies `colors, `bitcap, `writeIndex, `repeatCount, `bits, `written, colors
      ensures Tokenized() && (colors == old(colors) || fresh(colors))
      ensures repeatCount == 0
      ensures written == old(written) + RunTokens(old(repeatCount))
    {
      hide Tokenized, RunTokens, Token.Bits, IsOrderFor;
      ghost var all := written + RunTokens(repeatCount);
      while repeatCount >= MAX_REPEAT_COUNT
        invariant Tokenized() && (colors == old(colors) || fresh(colors))
        invariant written + RunTokens(repeatCount) == all
      {
        var ord := LargestOrder(repeatCount);
        LongStep(written, repeatCount);
        WriteLong(ord);
        repeatCount := repeatCount - Pow2(ord);
      }
      ShortStep(written, repeatCount);
      if repeatCount > 0 {
        WriteShort(repeatCount);
        repeatCount := 0;
      }
    }

    /** The inner loop of rle_write_repeats */
    static method LargestOrder(count: nat) returns (ord: nat)
      requires count > 0
      ensures ord == OrderFor(count, 0) && IsOrderFor(ord, count)
    {
      ord := 0;
      while ord < MAX_REPEAT_ORDER - 1 && Pow2(ord) <= count / 2
        invariant ord < MAX_REPEAT_ORDER && Pow2(ord) <= count
        invariant OrderFor(count, ord) == OrderFor(count, 0)
      {
        ord := ord + 1;
      }
    }

    /** The three writes that both kinds of repetition share. */
    method WriteEscape(kind: nat, arg: nat, width: nat)
      requires Stored() && kind < 2 && arg < Pow2(width)
      modifies `colors, `bitcap, `writeIndex, `bits, colors
      ensures Stored() && (colors == old(colors) || fresh(colors))
      ensures bits == old(bits) + (IntBits(BLUE, 2) + IntBits(kind, 1) + IntBits(arg, width))
    {
      hide Stored, IntBits, IntOf;
      SmallPowers();
      WriteInt(BLUE, 2);
      WriteInt(kind, 1);
      WriteInt(arg, width);
    }

    method WriteLong(ord: nat)
      requires Tokenized() && Long(ord).Valid()
      modifies `colors, `bitcap, `writeIndex, `bits, `written, colors
      ensures Tokenized() && (colors == old(colors) || fresh(colors))
      ensures written == old(written) + [Long(ord)]
    {
      IntBitsRange();
      WriteEscape(1, ord, BITS_FOR_ORDER);
      Emit(Long(ord));
    }

    method WriteShort(count: nat)
      requires Tokenized() && Short(count).Valid()
      modifies `colors, `bitcap, `writeIndex, `bits, `written, colors
      ensures Tokenized() && (colors == old(colors) || fresh(colors))
      ensures written == old(written) + [Short(count)]
    {
      IntBitsRange();
      WriteEscape(0, count, BITS_FOR_COUNT);
      Emit(Short(count));
    }

    method WriteLit(color: Color)
      requires Tokenized() && color != BLUE
      modifies `colors, `bitcap, `writeIndex, `bits, `written, colors
      ensures Tokenized() && (colors == old(colors) || fresh(colors))
      ensures written == old(written) + [Lit(color)]
    {
      IntBitsRange();
      WriteInt(color, 2);
      Emit(Lit(color));
    }

    /** Records, for the proof, the code word whose bits were just written. */
    ghost method Emit(t: Token)
      requires Stored() && AllValid(written) && t.Valid()
      requires bits == StreamBits(written) + t.Bits()
      modifies `written
      ensures Tokenized()
      ensures written == old(written) + [t]
    {
      StreamSnoc(0, written, t);
      written := written + [t];
    }

    /** rle_write_flush */
    method WriteFlush()
      requires Writing()
      modifies this, colors
      ensures Writing() && (colors == old(colors) || fresh(colors))
      ensures repeatCount == 0 && prevColor == old(prevColor)
      ensures Written() == old(Written())
      ensures written == old(written) + RunTokens(old(repeatCount))
    {
      hide Tokenized, StreamBits, IntBits;
      FlushedRun(written, repeatCount);
      if repeatCount > 0 {
        WriteRepeats();
      }
      assert Repeat(prevColor, 0) == [];
    }

    /** No run is longer than all that was written. */
    lemma RunBound()
      ensures repeatCount <= |Written()|
    {
    }

    /** writecolor and rle_write */
    method WriteColor(color: Color)
      requires Writing() && color != BLUE && (color == prevColor ==> repeatCount < INT_MAX)
      modifies this, colors
      ensures Writing() && (colors == old(colors) || fresh(colors))
      ensures Written() == old(Written()) + [color]
    {
      hide Tokenized, Expand, LastColor, StreamBits, RunTokens, IntBits;
      if prevColor == color {
        RunGrows(written, color, repeatCount);
        repeatCount := repeatCount + 1;
      } else {
        WriteFlush();
        LiteralAppended(written, color);
        WriteLit(color);
        prevColor := color;
      }
    }

    /** However often the store was doubled, it holds at most eight bits for each colour written. */
    lemma StoreBound()
      requires Writing()
      ensures writeIndex <= 8 * |Written()|
    {
      EightBitsPerColor(0, written);
    }

    /** rle_init at the switch from writing to reading */
    method StartReading()
      requires Writing() && repeatCount == 0
      modifies this
      ensures Reading() && colors == old(colors) && Remaining() == old(Written())
    {
      prevColor := 0;
      repeatCount := 0;
      pending := written;
      assert bits[readIndex..] == bits;
    }

    /** The length of a repetition whose escape code has been read. */
    method ReadRun() returns (n: nat)
      requires Stored() && pending != [] && AllValid(pending) && !pending[0].Lit?
      requires bits[readIndex..] == StreamBits(pending)[2..]
      modifies `readIndex, `pending
      ensures Stored() && bits[readIndex..] == StreamBits(pending)
      ensures pending == old(pending)[1..] && AllValid(pending)
      ensures n > 0 && forall prev :: old(pending)[0].Colors(prev) == Repeat(prev, n)
    {
      ghost var kind, arg, rest := RunCode(pending);
      ghost var t := pending[0];
      var rk := ReadInt(1, kind, arg + rest);
      pending := pending[1..];
      if rk == 0 {
        n := ReadInt(BITS_FOR_COUNT, arg, rest);
      } else {
        var ord := ReadInt(BITS_FOR_ORDER, arg, rest);
        n := Pow2(ord);
      }
    }

    /** readcolor and rle_read; the recursive call of the source always ends one level down */
    method ReadColor() returns (color: Color)
      requires Reading() && Remaining() != []
      modifies `readIndex, `pending, `prevColor, `repeatCount
      ensures Reading() && color != BLUE
      ensures [color] + Remaining() == old(Remaining())
      decreases repeatCount == 0
    {
      hide Token.Bits, IntBits, IntOf, StreamBits;
      ghost var was := Remaining();
      if repeatCount > 0 {
        repeatCount := repeatCount - 1;
        TakeRepeat(prevColor, repeatCount, Expand(prevColor, pending));
        color := prevColor;
        assert [color] + Remaining() == was;
      } else {
        ghost var code, rest := HeadColor(prevColor, pending);
        var c := ReadInt(2, code, rest);
        if c == BLUE {
          repeatCount := ReadRun();
          assert Remaining() == was;
          color := ReadColor();
        } else {
          pending := pending[1..];
          prevColor, color := c, c;
          assert [color] + Remaining() == was;
        }
      }
    }

    /** rle_read_flush: its assertion holds once every colour has been read back. */
    method ReadFlush()
      requires Reading() && Remaining() == []
      ensures repeatCount == 0 && readIndex == writeIndex
    {
      assert bits[readIndex..] == [];
    }
  }

  /** Shifting an accumulator right and setting its top bit appends one bit to the number read. */
  lemma ShiftIn(sofar: seq<bool>, bit: bool, w: nat)
    ensures IntOf(sofar) * Pow2(w + 1) / 2 == IntOf(sofar) * Pow2(w) < Pow2(|sofar| + w)
    ensures IntOf(sofar + [bit]) * Pow2(w)
         == IntOf(sofar) * Pow2(w) + if bit then Pow2(|sofar| + w) else 0
  {
    IntOfSnoc(sofar, bit);
    Pow2Add(|sofar|, w);
    Scale(IntOf(sofar), Pow2(|sofar|), Pow2(w));
  }

  lemma Scale(v: nat, top: nat, p: nat)
    requires v < top && p > 0
    ensures v * (2 * p) / 2 == v * p < top * p
    ensures (v + top) * p == v * p + top * p
  {
    assert v * (2 * p) == 2 * (v * p);
    assert (top - v) * p > 0;
  }

  lemma NoPower()
    ensures Pow2(0) == 1
  {
  }

  lemma LongStep(ts: seq<Token>, count: nat)
    requires count >= MAX_REPEAT_COUNT
    ensures var ord := OrderFor(count, 0);
            ts + RunTokens(count) == ts + [Long(ord)] + RunTokens(count - Pow2(ord))
  {
    hide OrderFor, Pow2;
    assert Pow2(0) == 1 by { NoPower(); }
    var ord := OrderFor(count, 0);
    assert RunTokens(count) == [Long(ord)] + RunTokens(count - Pow2(ord));
  }

  lemma ShortStep(ts: seq<Token>, count: nat)
    requires count < MAX_REPEAT_COUNT
    ensures ts + RunTokens(count) == if count > 0 then ts + [Short(count)] else ts
  {
  }

  lemma TakeRepeat(c: Color, n: nat, rest: seq<Color>)
    ensures [c] + (Repeat(c, n) + rest) == Repeat(c, n + 1) + rest
  {
  }

  lemma RunGrows(ts: seq<Token>, c: Color, n: nat)
    ensures Expand(0, ts) + Repeat(c, n + 1) == Expand(0, ts) + Repeat(c, n) + [c]
  {
  }

  lemma LiteralAppended(ts: seq<Token>, c: Color)
    ensures Expand(0, ts + [Lit(c)]) + Repeat(c, 0) == Expand(0, ts) + Repeat(LastColor(0, ts), 0) + [c]
    ensures LastColor(0, ts + [Lit(c)]) == c
  {
    StreamSnoc(0, ts, Lit(c));
  }

  /** Flushing a pending run changes how the colours are held, not which they are. */
  lemma FlushedRun(ts: seq<Token>, count: nat)
    ensures LastColor(0, ts + RunTokens(count)) == LastColor(0, ts)
    ensures Expand(0, ts + RunTokens(count)) == Expand(0, ts) + Repeat(LastColor(0, ts), count)
  {
    ExpandAppend(0, ts, RunTokens(count));
    RunTokensMeaning(LastColor(0, ts), count);
  }

  lemma IntBitsRange()
    ensures Pow2(1) == 2 && Pow2(2) == 4 && Pow2(4) == 16 && Pow2(5) == 32
    ensures IntOf(IntBits(0, 1)) == 0 && IntOf(IntBits(1, 1)) == 1
  {
    SmallPowers();
    IntRoundTrip(0, 1);
    IntRoundTrip(1, 1);
  }

  /** The two bits every code word starts with, and what the word stands for. */
  lemma HeadColor(prev: Color, ts: seq<Token>) returns (code: seq<bool>, rest: seq<bool>)
    requires AllValid(ts) && Repeat(prev, 0) + Expand(prev, ts) != []
    ensures ts != [] && |code| == 2 && StreamBits(ts) == code + rest && rest == StreamBits(ts)[2..]
    ensures IntOf(code) == if ts[0].Lit? then ts[0].color else BLUE
    ensures Repeat(prev, 0) + Expand(prev, ts) == ts[0].Colors(prev) + Expand(ts[0].Last(prev), ts[1..])
    ensures ts[0].Lit? ==> rest == StreamBits(ts[1..])
    ensures ts[0].Lit? ==> var c := ts[0].color;
              Repeat(prev, 0) + Expand(prev, ts) == [c] + (Repeat(c, 0) + Expand(c, ts[1..]))
  {
    assert Repeat(prev, 0) == [];
    var c := if ts[0].Lit? then ts[0].color else BLUE;
    code, rest := IntBits(c, 2), StreamBits(ts)[2..];
    IntBitsRange();
    IntRoundTrip(c, 2);
    assert ts[0].Bits()[..2] == code;
  }

  /** What follows the escape code of a repetition. */
  lemma RunCode(ts: seq<Token>) returns (kind: seq<bool>, arg: seq<bool>, rest: seq<bool>)
    requires ts != [] && ts[0].Valid() && !ts[0].Lit?
    ensures StreamBits(ts)[2..] == kind + (arg + rest) && rest == StreamBits(ts[1..])
    ensures |kind| == 1 && IntOf(kind) == if ts[0].Short? then 0 else 1
    ensures ts[0].Short? ==> |arg| == BITS_FOR_COUNT && IntOf(arg) == ts[0].count
    ensures ts[0].Long? ==> |arg| == BITS_FOR_ORDER && IntOf(arg) == ts[0].order
  {
    IntBitsRange();
    rest := StreamBits(ts[1..]);
    match ts[0] {
      case Short(n) =>
        kind, arg := IntBits(0, 1), IntBits(n, BITS_FOR_COUNT);
        IntRoundTrip(n, BITS_FOR_COUNT);
        DropTwo(IntBits(BLUE, 2), kind, arg, rest);
      case Long(ord) =>
        kind, arg := IntBits(1, 1), IntBits(ord, BITS_FOR_ORDER);
        IntRoundTrip(ord, BITS_FOR_ORDER);
        DropTwo(IntBits(BLUE, 2), kind, arg, rest);
    }
  }

  lemma DropTwo(head: seq<bool>, kind: seq<bool>, arg: seq<bool>, rest: seq<bool>)
    requires |head| == 2
    ensures (head + kind + arg + rest)[2..] == kind + (arg + rest)
  {
  }
}
