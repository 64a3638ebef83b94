/** libs/extlib-leftovers/multiArray.ml: an array that grows by doubling up to the largest block the
    runtime allows and is then promoted to an array of chunks. */
module MultiArray {
  import opened ColorCodec

  /** 1 lsl nbits */
  const SIZE: nat := 1024

  datatype Result<+T> = Ok(value: T) | InvalidArg(index: int, operation: string, parameter: string)

  ghost function Chunk<T>(cells: seq<T>, c: nat): seq<T>
    requires (c + 1) * SIZE <= |cells|
  {
    cells[c * SIZE..(c + 1) * SIZE]
  }

  /** The chunks are separate blocks that hold the cells in order. */
  ghost predicate Tied<T(!new)>(chunks: seq<array<T>>, cells: seq<T>)
    reads chunks
  {
    && |cells| == |chunks| * SIZE
    && (forall c, d | 0 <= c < d < |chunks| :: chunks[c] != chunks[d])
    && (forall c | 0 <= c < |chunks| :: chunks[c].Length == SIZE && chunks[c][..] == Chunk(cells, c))
  }

  lemma TiedSize<T(!new)>(chunks: seq<array<T>>, cells: seq<T>)
    ensures Tied(chunks, cells) ==> |cells| == |chunks| * SIZE
  {
  }

  lemma TiedEmpty<T(!new)>()
    ensures Tied<T>([], [])
  {
  }

  ghost predicate Apart(table: object, chunks: seq<object>) {
    table !in chunks
  }

  /** The capacity at which doubling from p stops */
  ghost function Doubled(p: nat, max: nat): (limit: nat)
    requires p > 0
    ensures limit >= p
    decreases max - p
  {
    if 2 * p >= max then p else Doubled(2 * p, max)
  }

  /** The length beyond which an array that only grew is chunked */
  ghost function Limit(max: nat): nat {
    if max == 0 then 0 else Doubled(1, max)
  }

  /** The shape that additions alone give an array: promotion happens at the limit and not before. */
  ghost predicate GrownTo(chunked: bool, capacity: nat, len: nat, max: nat) {
    if chunked then len > Limit(max)
    else len <= capacity <= Limit(max) && (capacity > 0 ==> Doubled(capacity, max) == Limit(max))
  }

  lemma GrowsInPlace(capacity: nat, len: nat, max: nat)
    requires GrownTo(false, capacity, len, max) && len < capacity
    ensures GrownTo(false, capacity, len + 1, max)
  {
  }

  lemma GrowsTwofold(len: nat, max: nat)
    requires GrownTo(false, len, len, max) && 2 * len < max
    ensures GrownTo(false, if len == 0 then 1 else 2 * len, len + 1, max)
  {
  }

  /** Promotion happens when the doubling limit is reached. */
  lemma GrowsIntoChunks(len: nat, max: nat)
    requires GrownTo(false, len, len, max) && 2 * len >= max
    ensures len == Limit(max) && GrownTo(true, 0, len + 1, max)
  {
  }

  lemma Grows(capacity: nat, len: nat, max: nat)
    requires GrownTo(false, capacity, len, max)
    ensures len < capacity ==> GrownTo(false, capacity, len + 1, max)
    ensures len == capacity && 2 * len < max ==> GrownTo(false, if len == 0 then 1 else 2 * len, len + 1, max)
    ensures len == capacity && 2 * len >= max ==> GrownTo(true, 0, len + 1, max)
  {
    hide GrownTo;
    if len < capacity {
      GrowsInPlace(capacity, len, max);
    } else if len == capacity && 2 * len < max {
      GrowsTwofold(len, max);
    } else if len == capacity {
      GrowsIntoChunks(len, max);
    }
  }

  lemma GrowsInChunks(len: nat, max: nat)
    requires GrownTo(true, 0, len, max)
    ensures GrownTo(true, 0, len + 1, max)
  {
  }

  /** The number of chunks for n elements */
  function ChunkCount(n: nat): nat {
    (n + SIZE - 1) / SIZE
  }

  /** A chunk is added exactly when all are full, and a promotion leaves room for one element. */
  lemma ChunkCountGrows(n: nat)
    ensures n <= ChunkCount(n) * SIZE
    ensures ChunkCount(n + 1) == if n == ChunkCount(n) * SIZE then ChunkCount(n) + 1 else ChunkCount(n)
    ensures ChunkCount(n + 1) == n / SIZE + 1
  {
  }

  class MultiArray<T(!new)> {
    /** Sys.max_array_length */
    const maxArrayLength: nat
    /** What a new block is filled with */
    const blank: T
    var arr: array<array<T>>
    var len: nat
    var darr: array?<T>

    ghost var chunks: seq<array<T>>
    ghost var cells: seq<T>  // everything stored, in order, used or not

    /** The cells are where the fields say. */
    ghost predicate Stored()
      reads this, arr, darr, chunks
    {
      && chunks == arr[..]
      && len <= |cells|
      && Apart(arr, chunks)
      && (if darr != null then chunks == [] && cells == darr[..] else Tied(chunks, cells))
    }

    /** No chunk is spare, in any array that the operations make. */
    ghost predicate Valid()
      reads this, arr, darr, chunks
    {
      Stored() && (darr == null ==> |chunks| == ChunkCount(len) && len > 0)
    }

    ghost function Contents(): seq<T>
      requires len <= |cells|
      reads this
    {
      cells[..len]
    }

    /** The array has the shape that additions alone give it. */
    ghost predicate Grown()
      reads this
    {
      GrownTo(darr == null, if darr == null then 0 else darr.Length, len, maxArrayLength)
    }

    /** create */
    constructor (maxArrayLength: nat, blank: T)
      ensures Valid() && Contents() == [] && Grown()
      ensures this.maxArrayLength == maxArrayLength && this.blank == blank
      ensures darr != null && fresh(darr) && fresh(arr)
    {
      this.maxArrayLength, this.blank := maxArrayLength, blank;
      len := 0;
      var none := new T[0];
      arr := new array<T>[0];
      darr := none;
      chunks, cells := [], [];
    }

    /** A record with given fields */
    constructor Of(maxArrayLength: nat, blank: T, arr: array<array<T>>, len: nat, darr: array?<T>, ghost cells: seq<T>)
      requires len <= |cells| && Apart(arr, arr[..])
      requires if darr != null then arr[..] == [] && cells == darr[..] else Tied(arr[..], cells)
      requires darr == null ==> arr.Length == ChunkCount(len) && len > 0
      ensures Valid() && this.cells == cells && this.len == len && this.darr == darr && this.arr == arr
      ensures this.maxArrayLength == maxArrayLength && this.blank == blank && chunks == arr[..]
    {
      this.maxArrayLength, this.blank := maxArrayLength, blank;
      this.arr, this.len, this.darr := arr, len, darr;
      chunks, this.cells := arr[..], cells;
    }

    /** empty, which asks and changes nothing */
    predicate Empty(): (r: bool)
      requires Valid()
      reads this, arr, darr, chunks
      ensures r <==> Contents() == []
    {
      len == 0
    }

    /** clear */
    method Clear()
      modifies this
      ensures Valid() && Contents() == [] && Grown()
      ensures fresh(arr) && darr != null && fresh(darr)
    {
      len := 0;
      arr := new array<T>[0];
      darr := new T[0];
      chunks, cells := [], [];
    }

    method Get(idx: int) returns (r: Result<T>)
      requires Valid()
      ensures r == if 0 <= idx < len then Ok(Contents()[idx]) else InvalidArg(idx, "get", "index")
    {
      if idx < 0 || idx >= len {
        return InvalidArg(idx, "get", "index");
      }
      if darr == null {
        r := Ok(arr[idx / SIZE][idx % SIZE]);
      } else {
        r := Ok(darr[idx]);
      }
    }

    method Set(idx: int, v: T) returns (r: Result<()>)
      requires Valid()
      modifies `cells, darr, chunks
      ensures Valid()
      ensures 0 <= idx < len ==> r == Ok(()) && Contents() == old(Contents())[idx := v]
      ensures !(0 <= idx < len) ==> r == InvalidArg(idx, "set", "index") && Contents() == old(Contents())
      ensures old(Grown()) ==> Grown()
    {
      if idx < 0 || idx >= len {
        return InvalidArg(idx, "set", "index");
      }
      Store(idx, v);
      r := Ok(());
    }

    /** Write one cell, in either form. */
    method Store(k: nat, v: T)
      requires Stored() && k < |cells|
      modifies `cells, darr, chunks
      ensures Stored() && cells == old(cells)[k := v]
    {
      ghost var was := cells;
      cells := cells[k := v];
      if darr == null {
        var chunk := arr[k / SIZE];
        chunk[k % SIZE] := v;
        forall c | 0 <= c < |chunks| ensures chunks[c][..] == Chunk(cells, c) {
          ChunkUpdate(was, k, v, c);
        }
      } else {
        darr[k] := v;
      }
    }

    /** add */
    method Add(v: T)
      requires Valid()
      modifies this, darr, chunks
      ensures Valid() && Contents() == old(Contents()) + [v]
      ensures darr == null <==>
                old(darr) == null
                || (old(len) == old(darr).Length && 2 * old(len) >= maxArrayLength)
      ensures old(Grown()) ==> Grown()
      ensures darr != null ==> darr == old(darr) || fresh(darr)
      ensures forall c | c in chunks :: c in old(chunks) || fresh(c)
    {
      hide Tied, GrownTo, ChunkCount;
      TiedSize(chunks, cells);
      ChunkCountGrows(len);
      if Grown() {
        if darr == null {
          GrowsInChunks(len, maxArrayLength);
        } else {
          Grows(darr.Length, len, maxArrayLength);
        }
      }
      MakeRoom();
      assert forall i | 0 <= i < |chunks| :: chunks[i] in chunks;
      Store(len, v);
      len := len + 1;
    }

    /** What add does when there is no room: a chunk more, a promotion, or twice the size */
    method MakeRoom()
      requires Valid()
      modifies `arr, `darr, `chunks, `cells
      ensures Stored() && len < |cells| && cells[..len] == old(cells)[..len]
      ensures darr == null <==>
                old(darr) == null
                || (len == old(darr).Length && 2 * len >= maxArrayLength)
      ensures darr == null && old(darr) != null ==> |chunks| == len / SIZE + 1
      ensures darr == null && old(darr) == null ==>
                |chunks| == if len == |old(cells)| then |old(chunks)| + 1 else |old(chunks)|
      ensures old(darr) != null && darr != null ==>
                darr.Length == if len < old(darr).Length then old(darr).Length else if len == 0 then 1 else 2 * len
      ensures darr != null ==> darr == old(darr) || fresh(darr)
      ensures forall c | c in chunks :: c in old(chunks) || fresh(c)
    {
      hide Tied, ChunkCount;
      TiedSize(chunks, cells);
      ChunkCountGrows(len);
      if darr == null {
        var asize := arr.Length;
        if len >= asize * SIZE {
          AddChunk();
        }
      } else {
        if len < darr.Length {
        } else if len * 2 >= maxArrayLength {
          Promote();
        } else {
          Resize();
        }
      }
      TiedSize(chunks, cells);
    }

    /** A table one longer with a new chunk at its end */
    method AddChunk()
      requires Stored() && darr == null && len == |cells|
      modifies `arr, `chunks, `cells
      ensures Stored() && |chunks| == |old(chunks)| + 1 && cells[..len] == old(cells)
      ensures forall c | c in chunks :: c in old(chunks) || fresh(c)
    {
      hide Tied;
      var asize := arr.Length;
      var chunk := new T[SIZE](_ => blank);
      var table := new array<T>[asize + 1](_ => chunk);
      for i := 0 to asize
        invariant table[..i] == arr[..i] && table[asize] == chunk
        modifies table
      {
        table[i] := arr[i];
      }
      assert table[..] == table[..asize] + [chunk];
      TieOne(chunks, cells, chunk);
      arr, chunks, cells := table, chunks + [chunk], cells + chunk[..];
    }

    /** The inner loop of the promotion: a new chunk with n elements of the block */
    method CopyChunk(src: array<T>, from: nat, n: nat) returns (chunk: array<T>)
      requires n <= SIZE && from + n <= src.Length
      ensures fresh(chunk) && chunk.Length == SIZE && chunk[..n] == src[from..from + n]
    {
      chunk := new T[SIZE](_ => blank);
      for j := 0 to n
        invariant chunk[..j] == src[from..from + j]
        modifies chunk
      {
        chunk[j] := src[from + j];
      }
    }

    /** Both loops of the promotion: the block in chunks, and room for one element more */
    method CopyChunks(src: array<T>) returns (table: array<array<T>>, ghost copied: seq<T>)
      ensures Tied(table[..], copied) && Apart(table, table[..])
      ensures table.Length == src.Length / SIZE + 1
      ensures src.Length < |copied| && copied[..src.Length] == src[..]
      ensures fresh(table) && forall c | c in table[..] :: fresh(c)
    {
      hide Tied;
      var n := src.Length;
      var count := (n + SIZE) / SIZE;
      table := new array<T>[count](_ => src);
      copied := [];
      TiedEmpty<T>();
      assert table[..0] == [];
      for i := 0 to count
        invariant Tied(table[..i], copied) && Apart(table, table[..i])
        invariant forall c | c in table[..i] :: fresh(c)
        invariant |copied| == i * SIZE
        invariant copied[..Least(i * SIZE, n)] == src[..Least(i * SIZE, n)]
        modifies table
      {
        var part := if i == count - 1 then n % SIZE else SIZE;
        var chunk := CopyChunk(src, i * SIZE, part);
        ghost var before := table[..i];
        table[i] := chunk;
        assert table[..i + 1] == before + [chunk];
        TieOne(before, copied, chunk);
        CopiedOn(src[..], copied, i * SIZE, part, chunk[..]);
        copied := copied + chunk[..];
      }
      assert table[..count] == table[..];
    }

    method Promote()
      requires Stored() && darr != null && len == darr.Length
      modifies `arr, `darr, `chunks, `cells
      ensures Stored() && darr == null && |chunks| == len / SIZE + 1 && cells[..len] == old(cells)
      ensures forall c | c in chunks :: fresh(c)
    {
      hide Tied;
      var table, copied := CopyChunks(darr);
      arr, darr, chunks, cells := table, null, table[..], copied;
    }

    /** A block of twice the size */
    method Resize()
      requires Stored() && darr != null && len == darr.Length
      modifies `darr, `cells
      ensures Stored() && darr != null && fresh(darr)
      ensures darr.Length == (if len == 0 then 1 else 2 * len) && cells[..len] == old(cells)
    {
      var arr2 := new T[if len == 0 then 1 else len * 2](_ => blank);
      for i := 0 to len
        invariant arr2[..i] == darr[..i]
        modifies arr2
      {
        arr2[i] := darr[i];
      }
      darr, cells := arr2, arr2[..];
    }

    /** The loops over the array do not come to its last chunk. */
    predicate LastMissed()
      reads this
    {
      darr == null && len % SIZE == 0
    }

    /** What a loop over the array visits */
    ghost function Seen(): seq<T>
      requires Valid()
      reads this, arr, darr, chunks
    {
      if LastMissed() then Contents()[..len - SIZE] else Contents()
    }

    lemma SeenIsVisited()
      requires Valid()
      ensures Visits(darr == null, |chunks|, len) <= len
      ensures Seen() == cells[..Visits(darr == null, |chunks|, len)]
    {
      hide Tied;
      VisitsAllIff(darr == null, |chunks|, len);
    }

    /** In an array that only grew, the form is known from the length. */
    lemma MissedIffLong()
      requires Valid() && Grown()
      ensures LastMissed() <==> len > Limit(maxArrayLength) && len % SIZE == 0
    {
      hide Tied, Limit;
    }

    /** fold_left: over all elements, or all but those of the last chunk */
    method FoldLeft<A(!new)>(f: (A, T) -> A, start: A) returns (acc: A)
      requires Valid()
      ensures acc == Fold(f, start, if LastMissed() then Contents()[..len - SIZE] else Contents())
    {
      hide Tied, Fold, ChunkCount;
      SeenIsVisited();
      TiedSize(chunks, cells);
      FoldNone(f, start);
      acc := start;
      if darr == null {
        var count := arr.Length;
        for i := 0 to count
          invariant Upto(i, count, len) <= |cells| && acc == Fold(f, start, cells[..Upto(i, count, len)])
        {
          var chunk := arr[i];
          ChunkIsTied(chunks, cells, i);
          var n := if i == count - 1 then len % SIZE else SIZE;
          for j := 0 to n
            invariant acc == Fold(f, start, cells[..i * SIZE + j])
          {
            assert chunk[j] == chunk[..][j] == cells[i * SIZE + j];
            FoldOne(f, start, cells, i * SIZE + j);
            acc := f(acc, chunk[j]);
          }
        }
      } else {
        for i := 0 to len
          invariant acc == Fold(f, start, cells[..i])
        {
          FoldOne(f, start, cells, i);
          acc := f(acc, darr[i]);
        }
      }
    }

    /** map; the new array is blank where the loops do not come. */
    method Map<U(!new)>(f: T -> U, blank2: U) returns (d2: MultiArray<U>)
      requires Valid()
      ensures fresh(d2) && d2.Valid() && d2.len == len && (d2.darr == null <==> darr == null)
      ensures d2.maxArrayLength == maxArrayLength && (LastMissed() <==> d2.LastMissed())
      ensures d2.Contents() ==
                if LastMissed() then Padded(Mapped(f, Contents()[..len - SIZE]), blank2, len)
                else Mapped(f, Contents())
      ensures darr == null && Grown() ==> d2.Grown()
    {
      hide Tied, ChunkCount;
      SeenIsVisited();
      if darr == null {
        var table, mapped := MapChunks(f, blank2);
        TiedSize(chunks, cells);
        TiedSize(table[..], mapped);
        d2 := new MultiArray<U>.Of(maxArrayLength, blank2, table, len, null, mapped);
      } else {
        var arr2 := new U[len](_ => blank2);
        for i := 0 to len
          invariant arr2[..i] == Mapped(f, cells[..i])
          modifies arr2
        {
          arr2[i] := f(darr[i]);
        }
        var none := new array<U>[0];
        assert arr2[..] == arr2[..len];
        d2 := new MultiArray<U>.Of(maxArrayLength, blank2, none, len, arr2, arr2[..]);
      }
    }

    method MapChunk<U(!new)>(f: T -> U, src: array<T>, n: nat, blank2: U) returns (chunk: array<U>)
      requires n <= src.Length == SIZE
      ensures fresh(chunk) && chunk.Length == SIZE && chunk[..] == Padded(Mapped(f, src[..n]), blank2, SIZE)
    {
      chunk := new U[SIZE](_ => blank2);
      for j := 0 to n
        invariant chunk[..] == Padded(Mapped(f, src[..j]), blank2, SIZE)
        modifies chunk
      {
        chunk[j] := f(src[j]);
      }
    }

    method MapChunks<U(!new)>(f: T -> U, blank2: U) returns (table: array<array<U>>, ghost mapped: seq<U>)
      requires Stored() && darr == null && Visits(true, |chunks|, len) <= |cells|
      ensures Tied(table[..], mapped) && Apart(table, table[..]) && table.Length == |chunks|
      ensures mapped == Padded(Mapped(f, cells[..Visits(true, |chunks|, len)]), blank2, |cells|)
      ensures fresh(table) && forall c | c in table[..] :: fresh(c)
    {
      hide Tied, Mapped, Padded;
      TiedSize(chunks, cells);
      MappedNone(f, blank2);
      var count := arr.Length;
      var nothing := new U[0];
      table := new array<U>[count](_ => nothing);
      mapped := [];
      TiedEmpty<U>();
      assert table[..0] == [];
      for i := 0 to count
        invariant Tied(table[..i], mapped) && Apart(table, table[..i])
        invariant forall c | c in table[..i] :: fresh(c)
        invariant Upto(i, count, len) <= |cells| && Upto(i, count, len) <= i * SIZE
        invariant mapped == Padded(Mapped(f, cells[..Upto(i, count, len)]), blank2, i * SIZE)
        modifies table
      {
        ChunkIsTied(chunks, cells, i);
        var part := if i == count - 1 then len % SIZE else SIZE;
        var chunk := MapChunk(f, arr[i], part, blank2);
        ghost var before := table[..i];
        table[i] := chunk;
        assert table[..i + 1] == before + [chunk];
        TieOne(before, mapped, chunk);
        MappedOn(f, cells, mapped, i * SIZE, part, chunk[..], blank2);
        mapped := mapped + chunk[..];
      }
      assert table[..count] == table[..];
    }
  }

  ghost function Mapped<T, U>(f: T -> U, s: seq<T>): seq<U> {
    seq(|s|, i requires 0 <= i < |s| => f(s[i]))
  }

  /** s, filled up to n elements */
  ghost function Padded<T>(s: seq<T>, blank: T, n: nat): (r: seq<T>)
    ensures |s| <= n ==> |r| == n
  {
    if |s| <= n then s + seq(n - |s|, _ => blank) else s
  }

  lemma MappedNone<T, U>(f: T -> U, blank: U)
    ensures Padded(Mapped(f, []), blank, 0) == []
  {
  }

  lemma MappedOn<T, U>(f: T -> U, cells: seq<T>, mapped: seq<U>, at: nat, n: nat, chunk: seq<U>, blank: U)
    requires n <= SIZE && at + SIZE <= |cells|
    requires mapped == Padded(Mapped(f, cells[..at]), blank, at)
    requires chunk == Padded(Mapped(f, cells[at..at + SIZE][..n]), blank, SIZE)
    ensures mapped + chunk == Padded(Mapped(f, cells[..at + n]), blank, at + SIZE)
  {
  }

  /** of_array */
  method OfArray<T(!new)>(maxArrayLength: nat, blank: T, src: seq<T>) returns (c: MultiArray<T>)
    ensures fresh(c) && c.Valid() && c.Contents() == src
    ensures c.Grown() && c.maxArrayLength == maxArrayLength
  {
    hide Tied, GrownTo;
    c := new MultiArray<T>(maxArrayLength, blank);
    for i := 0 to |src|
      invariant c.Valid() && c.Contents() == src[..i] && c.Grown()
      invariant c.darr != null ==> fresh(c.darr)
      invariant forall k | 0 <= k < |c.chunks| :: fresh(c.chunks[k])
    {
      ghost var were := c.chunks;
      c.Add(src[i]);
      assert forall k | 0 <= k < |c.chunks| :: c.chunks[k] in c.chunks && (c.chunks[k] in were || fresh(c.chunks[k]));
    }
  }

  /** f at n numbers from `from` on */
  ghost function Tabulated<T>(f: int -> T, from: nat, n: nat): (s: seq<T>)
    ensures |s| == n
  {
    seq(n, i requires 0 <= i < n => f(from + i))
  }

  lemma TabulatedOn<T>(f: int -> T, made: seq<T>, at: nat, n: nat, chunk: seq<T>, blank: T)
    requires n <= SIZE && made == Padded(Tabulated(f, 0, at), blank, at)
    requires chunk == Padded(Tabulated(f, at, n), blank, SIZE)
    ensures made + chunk == Padded(Tabulated(f, 0, at + n), blank, at + SIZE)
  {
  }

  lemma TabulatedNone<T>(f: int -> T, blank: T)
    ensures Padded(Tabulated(f, 0, 0), blank, 0) == []
  {
  }

  method InitChunk<T(!new)>(f: int -> T, from: nat, n: nat, blank: T) returns (chunk: array<T>)
    requires n <= SIZE
    ensures fresh(chunk) && chunk.Length == SIZE && chunk[..] == Padded(Tabulated(f, from, n), blank, SIZE)
  {
    chunk := new T[SIZE](_ => blank);
    for j := 0 to n
      invariant chunk[..] == Padded(Tabulated(f, from, j), blank, SIZE)
      modifies chunk
    {
      chunk[j] := f(from + j);
    }
  }

  method InitChunks<T(!new)>(len: nat, f: int -> T, blank: T) returns (table: array<array<T>>, ghost made: seq<T>)
    requires len > 0
    ensures Tied(table[..], made) && Apart(table, table[..]) && table.Length == ChunkCount(len)
    ensures made == Padded(Tabulated(f, 0, Visits(true, ChunkCount(len), len)), blank, ChunkCount(len) * SIZE)
    ensures fresh(table) && forall c | c in table[..] :: fresh(c)
  {
    hide Tied, Tabulated, Padded;
    TabulatedNone(f, blank);
    var count := (len + SIZE - 1) / SIZE;
    var nothing := new T[0];
    table := new array<T>[count](_ => nothing);
    made := [];
    TiedEmpty<T>();
    assert table[..0] == [];
    for i := 0 to count
      invariant Tied(table[..i], made) && Apart(table, table[..i])
      invariant forall c | c in table[..i] :: fresh(c)
      invariant made == Padded(Tabulated(f, 0, Upto(i, count, len)), blank, i * SIZE)
      modifies table
    {
      var part := if i == count - 1 then len % SIZE else SIZE;
      var chunk := InitChunk(f, i * SIZE, part, blank);
      ghost var before := table[..i];
      table[i] := chunk;
      assert table[..i + 1] == before + [chunk];
      TieOne(before, made, chunk);
      TabulatedOn(f, made, i * SIZE, part, chunk[..], blank);
      made := made + chunk[..];
    }
    assert table[..count] == table[..];
  }

  /** init, and make with a constant: above the maximum the last chunk stays blank when it is full. */
  method Init<T(!new)>(maxArrayLength: nat, blank: T, len: nat, f: int -> T) returns (d: MultiArray<T>)
    ensures fresh(d) && d.Valid() && d.maxArrayLength == maxArrayLength && d.len == len
    ensures d.LastMissed() <==> len > maxArrayLength && len % SIZE == 0
    ensures d.Contents() ==
              if d.LastMissed() then Padded(Tabulated(f, 0, len - SIZE), blank, len) else Tabulated(f, 0, len)
  {
    hide Tied;
    if len > maxArrayLength {
      ChunkCountGrows(len);
      VisitsAllIff(true, ChunkCount(len), len);
      var table, made := InitChunks(len, f, blank);
      hide ChunkCount;
      d := new MultiArray<T>.Of(maxArrayLength, blank, table, len, null, made);
    } else {
      var arr := new T[len](_ => blank);
      for i := 0 to len
        invariant arr[..i] == Tabulated(f, 0, i)
        modifies arr
      {
        arr[i] := f(i);
      }
      var none := new array<T>[0];
      assert arr[..] == arr[..len];
      d := new MultiArray<T>.Of(maxArrayLength, blank, none, len, arr, arr[..]);
    }
  }

  lemma {:induction false} DoubledReaches(i: nat, k: nat)
    requires i <= k
    ensures Doubled(Pow2(i), 2 * Pow2(k) - 1) == Pow2(k)
    decreases k - i
  {
    if i < k {
      Pow2Monotone(i + 1, k);
      DoubledReaches(i + 1, k);
    }
  }

  /** The limit for a maximum of all ones, as the run time has it: 2^22 - 1 or 2^54 - 1 */
  lemma LimitOfOnes(k: nat)
    ensures Limit(2 * Pow2(k) - 1) == Pow2(k)
  {
    DoubledReaches(0, k);
  }

  lemma {:induction false} FoldCounts<T>(s: seq<T>, start: int)
    ensures Fold((n: int, _: T) => n + 1, start, s) == start + |s|
  {
    if s != [] {
      FoldCounts(s[..|s| - 1], start);
    }
  }

  lemma LimitOn32Bits()
    ensures Limit(4194303) == 2097152
  {
    assert Pow2(7) == 128;
    assert Pow2(14) == 16384;
    assert Pow2(21) == 2097152;
    LimitOfOnes(21);
  }

  /** On a 32-bit run time, 2098176 elements added one by one are counted as 2097152. */
  method CountsTooFew() returns (c: MultiArray<int>, n: int)
    ensures c.Valid() && c.maxArrayLength == 4194303 && |c.Contents()| == 2098176 && n == 2097152
  {
    hide Limit, Fold, GrownTo, Tied;
    LimitOn32Bits();
    var src := seq(2098176, _ => 0);
    c := OfArray(4194303, 0, src);
    c.MissedIffLong();
    n := c.FoldLeft((n: int, _: int) => n + 1, 0);
    FoldCounts(c.Seen(), 0);
  }

  /** How many cells the loops over an array visit: in chunks, all of every chunk but the last, and len
      land mask of that one. */
  ghost function Visits(chunked: bool, blocks: nat, len: nat): nat {
    if chunked then Upto(blocks, blocks, len) else len
  }

  /** The cells visited when i of the chunks are done */
  ghost function Upto(i: nat, count: nat, len: nat): nat {
    if i == count && i > 0 then (i - 1) * SIZE + len % SIZE else i * SIZE
  }

  /** The loops see every element exactly if the array is one block or its length is not a multiple of
      the chunk size; otherwise they miss the whole last chunk. */
  lemma VisitsAllIff(chunked: bool, blocks: nat, len: nat)
    requires chunked ==> blocks == ChunkCount(len) && len > 0
    ensures Visits(chunked, blocks, len) == len <==> !(chunked && len % SIZE == 0)
    ensures chunked && len % SIZE == 0 ==> len >= SIZE && Visits(chunked, blocks, len) == len - SIZE
  {
  }

  ghost function Fold<A, T>(f: (A, T) -> A, start: A, s: seq<T>): A {
    if s == [] then start else f(Fold(f, start, s[..|s| - 1]), s[|s| - 1])
  }

  lemma FoldNone<A, T>(f: (A, T) -> A, start: A)
    ensures Fold(f, start, []) == start
  {
  }

  lemma FoldOne<A, T>(f: (A, T) -> A, start: A, s: seq<T>, k: nat)
    requires k < |s|
    ensures Fold(f, start, s[..k + 1]) == f(Fold(f, start, s[..k]), s[k])
  {
    assert s[..k + 1][..k] == s[..k];
  }

  lemma ChunkIsTied<T(!new)>(chunks: seq<array<T>>, cells: seq<T>, c: nat)
    requires Tied(chunks, cells) && c < |chunks|
    ensures (c + 1) * SIZE <= |cells| && chunks[c].Length == SIZE
    ensures chunks[c][..] == cells[c * SIZE..(c + 1) * SIZE]
  {
  }

  ghost function Least(a: nat, b: nat): nat {
    if a <= b then a else b
  }

  lemma TieOne<T(!new)>(chunks: seq<array<T>>, cells: seq<T>, chunk: array<T>)
    requires Tied(chunks, cells) && chunk !in chunks && chunk.Length == SIZE
    ensures Tied(chunks + [chunk], cells + chunk[..])
  {
    var all := cells + chunk[..];
    forall c | 0 <= c < |chunks| ensures Chunk(all, c) == Chunk(cells, c) {
    }
    assert Chunk(all, |chunks|) == chunk[..];
  }

  lemma CopiedOn<T>(src: seq<T>, copied: seq<T>, at: nat, n: nat, chunk: seq<T>)
    requires at == |copied| && at + n <= |src| && n <= |chunk|
    requires copied == src[..at] && chunk[..n] == src[at..at + n]
    ensures (copied + chunk)[..at + n] == src[..at + n]
  {
  }

  lemma ChunkUpdate<T>(cells: seq<T>, k: nat, v: T, c: nat)
    requires k < |cells| && (c + 1) * SIZE <= |cells|
    ensures Chunk(cells[k := v], c)
         == if c == k / SIZE then Chunk(cells, c)[k % SIZE := v] else Chunk(cells, c)
  {
  }
}
