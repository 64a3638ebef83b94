/** The bit store of libs/objsize/bitarray.h: bits packed into bytes, low bit first. */
module BitArray {
  const BITS_OF_CHAR: nat := 8
  const SIZEOF_INT: nat := 4

  function WordAlign(n: nat): nat
    requires n > 0
  {
    var m := SIZEOF_INT % n;
    if m == 0 then n else n + SIZEOF_INT - m
  }

  /** The remainder is taken the wrong way round for an alignment: only 3 bytes are ever
      enlarged, so the size is a multiple of the word exactly when the request already is. */
  lemma WordAlignNeverAligns(n: nat)
    requires n > 0
    ensures WordAlign(n) >= n
    ensures WordAlign(n) == n <==> n != 3
    ensures WordAlign(n) % SIZEOF_INT == 0 <==> n % SIZEOF_INT == 0
  {
    if n > SIZEOF_INT {
      assert SIZEOF_INT % n == SIZEOF_INT;
    }
  }

  function SizeBytes(count: nat): nat
    requires count >= BITS_OF_CHAR
  {
    WordAlign(count / BITS_OF_CHAR)
  }

  function Mask(i: nat): bv8 {
    1 << (i % BITS_OF_CHAR)
  }

  /** Bits are numbered from the lowest of each byte. */
  lemma MaskIsPower(i: nat)
    ensures Mask(i) == [1 as bv8, 2, 4, 8, 0x10, 0x20, 0x40, 0x80][i % 8]
  {
    var k := i % 8;
    if k == 0 {
      assert 1 as bv8 << 0 == 1;
    } else if k == 1 {
      assert 1 as bv8 << 1 == 2;
    } else if k == 2 {
      assert 1 as bv8 << 2 == 4;
    } else if k == 3 {
      assert 1 as bv8 << 3 == 8;
    } else if k == 4 {
      assert 1 as bv8 << 4 == 0x10;
    } else if k == 5 {
      assert 1 as bv8 << 5 == 0x20;
    } else if k == 6 {
      assert 1 as bv8 << 6 == 0x40;
    } else {
      assert 1 as bv8 << 7 == 0x80;
    }
  }

  /** The value of bit i of a byte sequence. */
  predicate BitAt(bytes: seq<bv8>, i: nat)
    requires i < BITS_OF_CHAR * |bytes|
  {
    bytes[i / BITS_OF_CHAR] & Mask(i) != 0
  }

  /** The first n bits of a byte sequence. */
  function BitsOf(bytes: seq<bv8>, n: nat): (bits: seq<bool>)
    requires n <= BITS_OF_CHAR * |bytes|
    ensures |bits| == n
  {
    if n == 0 then [] else BitsOf(bytes, n - 1) + [BitAt(bytes, n - 1)]
  }

  lemma {:induction false} BitsOfIndex(bytes: seq<bv8>, n: nat, i: nat)
    requires i < n <= BITS_OF_CHAR * |bytes|
    ensures BitsOf(bytes, n)[i] == BitAt(bytes, i)
  {
    if i < n - 1 { BitsOfIndex(bytes, n - 1, i); }
  }

  /** The first n bits depend on the first n bits only. */
  lemma {:induction false} BitsOfAgree(a: seq<bv8>, b: seq<bv8>, n: nat)
    requires n <= BITS_OF_CHAR * |a| && n <= BITS_OF_CHAR * |b|
    requires forall j: nat | j < n :: BitAt(a, j) == BitAt(b, j)
    ensures BitsOf(a, n) == BitsOf(b, n)
  {
    if n > 0 { BitsOfAgree(a, b, n - 1); }
  }

  /** Setting or clearing under the mask of one position leaves the other seven alone. */
  lemma MaskedWrite(byte: bv8, i: nat, j: nat)
    ensures ((byte | Mask(i)) & Mask(j) != 0) == (i % 8 == j % 8 || byte & Mask(j) != 0)
    ensures ((byte & !Mask(i)) & Mask(j) != 0) == (i % 8 != j % 8 && byte & Mask(j) != 0)
  {
    var k, l := i % 8, j % 8;
    assert Mask(i) == [1, 2, 4, 8, 16, 32, 64, 128][k] by { MaskTable(k); }
    assert Mask(j) == [1, 2, 4, 8, 16, 32, 64, 128][l] by { MaskTable(l); }
  }

  lemma MaskTable(k: nat)
    requires k < 8
    ensures (1 as bv8) << k == [1, 2, 4, 8, 16, 32, 64, 128][k]
  {
    if k == 0 {} else if k == 1 {} else if k == 2 {} else if k == 3 {}
    else if k == 4 {} else if k == 5 {} else if k == 6 {} else { assert k == 7; }
  }

  method Get(arr: array<bv8>, i: nat) returns (bit: bool)
    requires i < BITS_OF_CHAR * arr.Length
    ensures bit == BitAt(arr[..], i)
  {
    bit := arr[i / BITS_OF_CHAR] & Mask(i) != 0;
  }

  method Set(arr: array<bv8>, i: nat, val: bool)
    requires i < BITS_OF_CHAR * arr.Length
    modifies arr
    ensures forall j: nat | j < BITS_OF_CHAR * arr.Length ::
              BitAt(arr[..], j) == if j == i then val else old(BitAt(arr[..], j))
  {
    var mask := Mask(i);
    if val {
      arr[i / BITS_OF_CHAR] := arr[i / BITS_OF_CHAR] | mask;
    } else {
      arr[i / BITS_OF_CHAR] := arr[i / BITS_OF_CHAR] & !mask;
    }
    forall j: nat | j < BITS_OF_CHAR * arr.Length
      ensures BitAt(arr[..], j) == if j == i then val else old(BitAt(arr[..], j))
    {
      MaskedWrite(old(arr[i / BITS_OF_CHAR]), i, j);
    }
  }

  /** The resized store keeps the old bytes it has room for; what follows them is unspecified. */
  method Realloc(arr: array<bv8>, newCount: nat) returns (res: array<bv8>)
    requires newCount >= BITS_OF_CHAR
    ensures fresh(res) && res.Length == SizeBytes(newCount)
    ensures forall i | 0 <= i < arr.Length && i < res.Length :: res[i] == arr[i]
  {
    res := new bv8[SizeBytes(newCount)];
    forall i | 0 <= i < arr.Length && i < res.Length {
      res[i] := arr[i];
    }
  }
}
