/** The run-length code of libs/objsize/c_objsize.c as a function of colour sequences and bits. */
module ColorCodec {
  type Color = c: int | 0 <= c <= 3
  const BLUE: Color := 2

  const BITS_FOR_COUNT: nat := 5
  const BITS_FOR_ORDER: nat := 4
  const MAX_REPEAT_COUNT: nat := 32
  const MAX_REPEAT_ORDER: nat := 16

  function Pow2(n: nat): (p: nat)
    ensures p > 0
  {
    if n == 0 then 1 else 2 * Pow2(n - 1)
  }

  /** An unsigned integer as `width` bits, least significant first. */
  function IntBits(arg: nat, width: nat): (bits: seq<bool>)
    ensures |bits| == width
  {
    if width == 0 then [] else [arg % 2 == 1] + IntBits(arg / 2, width - 1)
  }

  function IntOf(bits: seq<bool>): (v: nat)
    ensures v < Pow2(|bits|)
  {
    if bits == [] then 0 else (if bits[0] then 1 else 0) + 2 * IntOf(bits[1..])
  }

  lemma {:induction false} IntRoundTrip(arg: nat, width: nat)
    requires arg < Pow2(width)
    ensures IntOf(IntBits(arg, width)) == arg
  {
    if width > 0 {
      assert IntBits(arg, width)[1..] == IntBits(arg / 2, width - 1);
      IntRoundTrip(arg / 2, width - 1);
    }
  }

  /** The bits are the binary digits, the least significant one first. */
  lemma {:induction false} IntBitsAt(arg: nat, width: nat, k: nat)
    requires k < width
    ensures IntBits(arg, width)[k] <==> arg / Pow2(k) % 2 == 1
    decreases k
  {
    if k > 0 {
      IntBitsAt(arg / 2, width - 1, k - 1);
      HalfFirst(arg, Pow2(k - 1));
    }
  }

  lemma HalfFirst(a: nat, p: nat)
    requires p > 0
    ensures a / 2 / p == a / (2 * p)
  {
    var q, r := a / (2 * p), a % (2 * p);
    assert a == 2 * (q * p) + r;
    assert a / 2 == q * p + r / 2 && r / 2 < p;
    assert (a / 2 - q * p) >= 0 && a / 2 < (q + 1) * p;
    Quotient(a / 2, p, q);
  }

  lemma Times(a: nat, b: nat, p: nat)
    requires a <= b
    ensures a * p <= b * p
  {
    assert (b - a) * p >= 0;
  }

  lemma Quotient(a: nat, p: nat, q: nat)
    requires p > 0 && q * p <= a < (q + 1) * p
    ensures a / p == q
  {
    var d := a / p;
    if d < q {
      Times(d + 1, q, p);
    } else if d > q {
      Times(q + 1, d, p);
    }
  }

  lemma {:induction false} IntOfSnoc(bits: seq<bool>, bit: bool)
    ensures IntOf(bits + [bit]) == IntOf(bits) + if bit then Pow2(|bits|) else 0
  {
    if bits == [] {
      assert ([bit])[1..] == [];
    } else {
      assert (bits + [bit])[1..] == bits[1..] + [bit];
      IntOfSnoc(bits[1..], bit);
    }
  }

  /** What the stream is made of: a colour, or a repetition of the last colour; the escape code is blue. */
  datatype Token = Lit(color: Color) | Short(count: nat) | Long(order: nat)
  {
    predicate Valid() {
      match this
      case Lit(c) => c != BLUE
      case Short(n) => 0 < n < MAX_REPEAT_COUNT
      case Long(ord) => ord < MAX_REPEAT_ORDER
    }

    function Bits(): seq<bool> {
      match this
      case Lit(c) => IntBits(c, 2)
      case Short(n) => IntBits(BLUE, 2) + IntBits(0, 1) + IntBits(n, BITS_FOR_COUNT)
      case Long(ord) => IntBits(BLUE, 2) + IntBits(1, 1) + IntBits(ord, BITS_FOR_ORDER)
    }

    function Colors(prev: Color): seq<Color> {
      match this
      case Lit(c) => [c]
      case Short(n) => Repeat(prev, n)
      case Long(ord) => Repeat(prev, Pow2(ord))
    }

    function Last(prev: Color): Color {
      if Lit? then color else prev
    }
  }

  function Repeat(c: Color, n: nat): (s: seq<Color>)
    ensures |s| == n
  {
    seq(n, _ => c)
  }

  predicate AllValid(ts: seq<Token>) {
    ts == [] || (ts[0].Valid() && AllValid(ts[1..]))
  }

  function StreamBits(ts: seq<Token>): seq<bool> {
    if ts == [] then [] else ts[0].Bits() + StreamBits(ts[1..])
  }

  function Expand(prev: Color, ts: seq<Token>): seq<Color>
    decreases ts
  {
    if ts == [] then [] else ts[0].Colors(prev) + Expand(ts[0].Last(prev), ts[1..])
  }

  function LastColor(prev: Color, ts: seq<Token>): Color
    decreases ts
  {
    if ts == [] then prev else LastColor(ts[0].Last(prev), ts[1..])
  }

  lemma {:induction false} StreamAppend(a: seq<Token>, b: seq<Token>)
    ensures StreamBits(a + b) == StreamBits(a) + StreamBits(b)
    ensures AllValid(a + b) <==> AllValid(a) && AllValid(b)
  {
    if a == [] {
      assert a + b == b;
    } else {
      assert (a + b)[1..] == a[1..] + b;
      StreamAppend(a[1..], b);
    }
  }

  lemma {:induction false} ExpandAppend(prev: Color, a: seq<Token>, b: seq<Token>)
    ensures Expand(prev, a + b) == Expand(prev, a) + Expand(LastColor(prev, a), b)
    ensures LastColor(prev, a + b) == LastColor(LastColor(prev, a), b)
    decreases a
  {
    if a == [] {
      assert a + b == b;
    } else {
      var next := a[0].Last(prev);
      assert (a + b)[1..] == a[1..] + b;
      ExpandAppend(next, a[1..], b);
      assert Expand(prev, a + b) == a[0].Colors(prev) + Expand(next, a[1..] + b);
    }
  }

  lemma StreamSnoc(prev: Color, ts: seq<Token>, t: Token)
    ensures StreamBits(ts + [t]) == StreamBits(ts) + t.Bits()
    ensures AllValid(ts + [t]) <==> AllValid(ts) && t.Valid()
    ensures Expand(prev, ts + [t]) == Expand(prev, ts) + t.Colors(LastColor(prev, ts))
    ensures LastColor(prev, ts + [t]) == t.Last(LastColor(prev, ts))
  {
    StreamAppend(ts, [t]);
    ExpandAppend(prev, ts, [t]);
    assert [t][1..] == [];
  }

  /** A reader that sees nothing but bits: it takes the stream apart code word by code word. */
  function Decode(prev: Color, bits: seq<bool>): seq<Color>
    decreases bits
  {
    if |bits| < 2 then []
    else
      var c := IntOf(bits[..2]);
      if c != BLUE then [c] + Decode(c, bits[2..])
      else if |bits| >= 8 && !bits[2] then Repeat(prev, IntOf(bits[3..8])) + Decode(prev, bits[8..])
      else if |bits| >= 7 && bits[2] then Repeat(prev, Pow2(IntOf(bits[3..7]))) + Decode(prev, bits[7..])
      else []
  }

  lemma DecodeToken(prev: Color, t: Token, rest: seq<bool>)
    requires t.Valid()
    ensures Decode(prev, t.Bits() + rest) == t.Colors(prev) + Decode(t.Last(prev), rest)
  {
    var bits := t.Bits() + rest;
    SmallPowers();
    match t {
      case Lit(c) =>
        IntRoundTrip(c, 2);
        assert bits[..2] == IntBits(c, 2) && bits[2..] == rest;
      case Short(n) =>
        IntRoundTrip(BLUE, 2);
        IntRoundTrip(n, BITS_FOR_COUNT);
        assert bits[..2] == IntBits(BLUE, 2) && bits[2] == IntBits(0, 1)[0];
        assert bits[3..8] == IntBits(n, BITS_FOR_COUNT) && bits[8..] == rest;
      case Long(ord) =>
        IntRoundTrip(BLUE, 2);
        IntRoundTrip(ord, BITS_FOR_ORDER);
        assert bits[..2] == IntBits(BLUE, 2) && bits[2] == IntBits(1, 1)[0];
        assert bits[3..7] == IntBits(ord, BITS_FOR_ORDER) && bits[7..] == rest;
    }
  }

  /** The code is uniquely readable: the bits alone determine the colours. */
  lemma {:induction false} DecodeInvertsStream(prev: Color, ts: seq<Token>)
    requires AllValid(ts)
    ensures Decode(prev, StreamBits(ts)) == Expand(prev, ts)
    decreases ts
  {
    if ts != [] {
      DecodeToken(prev, ts[0], StreamBits(ts[1..]));
      DecodeInvertsStream(ts[0].Last(prev), ts[1..]);
    }
  }

  /** No code word is longer than eight bits for each colour it stands for. */
  lemma {:induction false} EightBitsPerColor(prev: Color, ts: seq<Token>)
    requires AllValid(ts)
    ensures |StreamBits(ts)| <= 8 * |Expand(prev, ts)|
    decreases ts
  {
    if ts != [] {
      EightBitsPerColor(ts[0].Last(prev), ts[1..]);
    }
  }

  /** The order the writer picks for a long run: the largest power of two that fits, capped. */
  predicate IsOrderFor(ord: nat, count: nat) {
    && ord < MAX_REPEAT_ORDER
    && Pow2(ord) <= count
    && (ord == MAX_REPEAT_ORDER - 1 || count < 2 * Pow2(ord))
  }

  function OrderFor(count: nat, ord: nat): (r: nat)
    requires ord < MAX_REPEAT_ORDER && Pow2(ord) <= count
    ensures IsOrderFor(r, count)
    decreases MAX_REPEAT_ORDER - ord
  {
    if ord < MAX_REPEAT_ORDER - 1 && Pow2(ord) <= count / 2 then OrderFor(count, ord + 1) else ord
  }

  /** The tokens a run of `count` repetitions is flushed as. */
  function RunTokens(count: nat): seq<Token> {
    if count >= MAX_REPEAT_COUNT then
      var ord := OrderFor(count, 0);
      [Long(ord)] + RunTokens(count - Pow2(ord))
    else if count > 0 then [Short(count)]
    else []
  }

  /** The first code word of a long run */
  lemma FirstOfRun(count: nat) returns (ord: nat)
    requires count >= MAX_REPEAT_COUNT
    ensures ord == OrderFor(count, 0) && IsOrderFor(ord, count) && Pow2(ord) <= count && Long(ord).Valid()
    ensures RunTokens(count) == [Long(ord)] + RunTokens(count - Pow2(ord))
  {
    ord := OrderFor(count, 0);
  }

  lemma RepeatJoin(c: Color, m: nat, n: nat)
    ensures Repeat(c, m + n) == Repeat(c, m) + Repeat(c, n)
  {
  }

  lemma ExpandOne(prev: Color, t: Token, ts: seq<Token>)
    ensures AllValid([t] + ts) <==> t.Valid() && AllValid(ts)
    ensures Expand(prev, [t] + ts) == t.Colors(prev) + Expand(t.Last(prev), ts)
    ensures LastColor(prev, [t] + ts) == LastColor(t.Last(prev), ts)
  {
    assert ([t] + ts)[1..] == ts;
    StreamAppend([t], ts);
    assert [t][1..] == [];
  }

  lemma {:induction false} RunTokensMeaning(prev: Color, count: nat)
    ensures AllValid(RunTokens(count))
    ensures Expand(prev, RunTokens(count)) == Repeat(prev, count)
    ensures LastColor(prev, RunTokens(count)) == prev
  {
    hide RunTokens, OrderFor, Pow2, Expand, LastColor, AllValid, Repeat;
    if count >= MAX_REPEAT_COUNT {
      var ord := FirstOfRun(count);
      RunTokensMeaning(prev, count - Pow2(ord));
      ExpandOne(prev, Long(ord), RunTokens(count - Pow2(ord)));
      RepeatJoin(prev, Pow2(ord), count - Pow2(ord));
    } else {
      ShortRun(prev, count);
    }
  }

  lemma ShortRun(prev: Color, count: nat)
    requires count < MAX_REPEAT_COUNT
    ensures AllValid(RunTokens(count))
    ensures Expand(prev, RunTokens(count)) == Repeat(prev, count)
    ensures LastColor(prev, RunTokens(count)) == prev
  {
    if count > 0 {
      assert [Short(count)][1..] == [];
    }
  }

  /** A run shorter than 2^k costs at most 7 bits for each order from 5 up to k, and 8 for the rest. */
  lemma {:induction false} RunCost(count: nat, k: nat)
    requires 5 <= k <= MAX_REPEAT_ORDER && count < Pow2(k)
    ensures |StreamBits(RunTokens(count))| <= 7 * (k - 5) + 8
    decreases k
  {
    hide RunTokens, OrderFor, StreamBits, Pow2;
    if count >= MAX_REPEAT_COUNT {
      var ord := FirstOfRun(count);
      var rest := RunTokens(count - Pow2(ord));
      SmallPowers();
      OrderBelow(ord, k, count);
      RunCost(count - Pow2(ord), k - 1);
      StreamAppend([Long(ord)], rest);
      OneToken(Long(ord));
    } else {
      ShortCost(count);
    }
  }

  lemma ShortCost(count: nat)
    requires count < MAX_REPEAT_COUNT
    ensures |StreamBits(RunTokens(count))| <= 8
  {
    if count > 0 {
      OneToken(Short(count));
    }
  }

  lemma OneToken(t: Token)
    ensures StreamBits([t]) == t.Bits()
    ensures |t.Bits()| == match t case Lit(_) => 2 case Short(_) => 8 case Long(_) => 7
  {
    assert [t][1..] == [];
  }

  /** The bits of some code words: a colour, five repeats, and 32 of them */
  lemma CodeWords()
    ensures StreamBits([Lit(3)]) == [true, true]
    ensures StreamBits([Short(5)]) == [false, true, false, true, false, true, false, false]
    ensures StreamBits([Long(5)]) == [false, true, true, true, false, true, false]
  {
    assert IntBits(2, 2) == [false, true] && IntBits(3, 2) == [true, true];
    assert IntBits(0, 1) == [false] && IntBits(1, 1) == [true];
    assert IntBits(5, 5) == [true] + IntBits(2, 4) && IntBits(2, 4) == [false] + IntBits(1, 3);
    assert IntBits(1, 3) == [true] + IntBits(0, 2) && IntBits(0, 2) == [false, false];
    assert IntBits(5, 4) == [true] + IntBits(2, 3) && IntBits(2, 3) == [false] + IntBits(1, 2);
    assert IntBits(1, 2) == [true] + IntBits(0, 1);
    OneToken(Lit(3));
    OneToken(Short(5));
    OneToken(Long(5));
  }

  lemma SmallPowers()
    ensures Pow2(1) == 2 && Pow2(2) == 4 && Pow2(4) == 16 && Pow2(5) == 32
  {
    assert Pow2(3) == 8;
  }

  lemma {:induction false} Pow2Monotone(a: nat, b: nat)
    requires a <= b
    ensures Pow2(a) <= Pow2(b)
    decreases b
  {
    if a < b { Pow2Monotone(a, b - 1); }
  }

  lemma OrderBelow(ord: nat, k: nat, count: nat)
    requires IsOrderFor(ord, count) && count < Pow2(k) && 5 < k <= MAX_REPEAT_ORDER
    ensures ord < k && count - Pow2(ord) < Pow2(k - 1)
  {
    if ord >= k {
      Pow2Monotone(k, ord);
      assert false;
    }
    Pow2Monotone(ord, k - 1);
    if ord == MAX_REPEAT_ORDER - 1 {
      assert k == 16;
    }
  }
}
