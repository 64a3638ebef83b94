/** The growing string buffer of libs/extc/process_stubs.c: a list of chunks, the last one first. */
module ChunkBuffer {
  import opened ColorCodec

  const NUL: char := '\0'

  /** The part of s a C function sees. */
  function CStr(s: string): string {
    if s == [] || s[0] == NUL then [] else [s[0]] + CStr(s[1..])
  }

  class StringItem {
    const str: array<char>
    var len: nat
    const next: StringItem?
    ghost const Repr: set<object>

    constructor (size: nat, s: string, next: StringItem?)
      requires |s| <= size
      requires next != null ==> next.Valid() && next.Full()
      ensures Valid() && str.Length == size && len == |s| && this.next == next
      ensures Text() == (if next == null then [] else next.Text()) + s
      ensures fresh(Repr - if next == null then {} else next.Repr)
    {
      str := new char[size](i => if 0 <= i < |s| then s[i] else NUL);
      len := |s|;
      this.next := next;
      Repr := {this, str} + if next == null then {} else next.Repr;
      new;
      assert str[..len] == s;
    }

    ghost predicate Valid()
      reads this, Repr
      decreases Repr
    {
      && this in Repr && str in Repr && len <= str.Length
      && (next != null ==>
            && next in Repr && next.Repr <= Repr && this !in next.Repr && str !in next.Repr
            && next.Valid() && next.Full())
    }

    ghost predicate Full()
      reads this
    {
      len == str.Length
    }

    /** The bytes of this chunk and of all earlier ones. */
    ghost function Text(): string
      requires Valid()
      reads Repr
      decreases Repr
    {
      (if next == null then [] else next.Text()) + str[..len]
    }

    ghost function Capacity(): nat
      requires Valid()
      reads Repr
      decreases Repr
    {
      (if next == null then 0 else next.Capacity()) + str.Length
    }

    /** Chunks before the last are full, so only the last one has room. */
    lemma CapacityIsTextAndRoom()
      requires Valid()
      ensures Capacity() == |Text()| + (str.Length - len)
      decreases Repr
    {
      if next != null {
        next.CapacityIsTextAndRoom();
      }
    }

    /** memcpy of the bytes of this chunk to position s of v */
    method CopyTo(v: array<char>, s: nat)
      requires Valid() && v !in Repr && s + len <= v.Length
      modifies v
      ensures v[s..] == str[..len] + old(v[s + len..])
    {
      forall i | 0 <= i < len {
        v[s + i] := str[i];
      }
    }

    /** memcpy behind the bytes already there */
    method Fill(s: string)
      requires Valid() && len + |s| <= str.Length
      modifies this, str
      ensures Valid() && Text() == old(Text()) + s && len == old(len) + |s|
    {
      ghost var before := str[..len];
      ghost var earlier := if next == null then [] else next.Text();
      forall i | 0 <= i < |s| {
        str[len + i] := s[i];
      }
      len := len + |s|;
      assert str[..len] == before + s;
      assert earlier == if next == null then [] else next.Text();
      assert earlier + (before + s) == earlier + before + s;
    }
  }

  lemma Doubles(b: nat, k: nat)
    ensures b * Pow2(k + 1) == 2 * (b * Pow2(k))
  {
  }

  class Buffer {
    var totlen: nat
    var blen: nat
    var data: StringItem?

    ghost function Repr(): set<object>
      reads this, data
    {
      {this} + if data == null then {} else data.Repr
    }

    ghost predicate Valid()
      reads this, data, if data == null then {} else data.Repr
    {
      && blen > 0
      && (data == null ==> totlen == 0)
      && (data != null ==> this !in data.Repr && data.Valid() && totlen == |data.Text()|)
    }

    ghost function Contents(): string
      requires Valid()
      reads this, data, if data == null then {} else data.Repr
    {
      if data == null then [] else data.Text()
    }

    ghost function Capacity(): nat
      requires Valid()
      reads this, data, if data == null then {} else data.Repr
    {
      if data == null then 0 else data.Capacity()
    }

    /** alloc_buffer(NULL) */
    constructor ()
      ensures Valid() && Contents() == [] && fresh(Repr())
    {
      totlen, blen, data := 0, 16, null;
    }

    /** The doubling of blen: as often as needed for a text this long, and not more often */
    method GrowBlen()
      requires blen > 0
      modifies `blen
      ensures totlen < 4 * blen && blen >= old(blen) && (blen == old(blen) || totlen >= 2 * blen)
      ensures exists k: nat :: blen == old(blen) * Pow2(k)
    {
      ghost var k: nat := 0;
      assert blen == blen * Pow2(0);
      while totlen >= 4 * blen
        invariant blen >= old(blen) && blen == old(blen) * Pow2(k)
        invariant blen == old(blen) || totlen >= 2 * blen
        modifies `blen
        decreases totlen - 4 * blen
      {
        Doubles(old(blen), k);
        blen := 2 * blen;
        k := k + 1;
      }
    }

    /** buffer_append_new, called with totlen counted up already and every chunk full */
    method AppendNew(s: string)
      requires blen > 0 && |s| > 0
      requires data == null ==> totlen == |s|
      requires data != null ==> this !in data.Repr && data.Valid() && data.Full() && totlen == |data.Text()| + |s|
      modifies this
      ensures Valid() && totlen == old(totlen) && data != null && data.next == old(data)
      ensures Contents() == (if old(data) == null then [] else old(data.Text())) + s
      ensures fresh(Repr() - old(Repr()))
      ensures data.str.Length == if |s| < blen then blen else |s|
      ensures totlen < 4 * blen && (blen == old(blen) || totlen >= 2 * blen)
      ensures exists k: nat :: blen == old(blen) * Pow2(k)
      ensures 4 * Capacity() > 5 * (if old(data) == null then 0 else old(data.Capacity()))
    {
      hide StringItem.Text, StringItem.Capacity;
      GrowBlen();
      var size := if |s| < blen then blen else |s|;
      if data != null {
        data.CapacityIsTextAndRoom();
      }
      data := new StringItem(size, s, data);
      data.CapacityIsTextAndRoom();
    }

    /** buffer_append_sub */
    method AppendSub(s: string)
      requires Valid()
      modifies Repr()
      ensures old(data) != null && |s| <= old(data.str.Length) - old(data.len) ==> data == old(data) && blen == old(blen)
      ensures Valid() && Contents() == old(Contents()) + s && fresh(Repr() - old(Repr()))
    {
      hide StringItem.Text, StringItem.Capacity;
      if |s| == 0 {
        return;
      }
      totlen := totlen + |s|;
      var rest := s;
      if data != null {
        var free := data.str.Length - data.len;
        if free >= |s| {
          data.Fill(s);
          return;
        }
        data.Fill(s[..free]);
        rest := s[free..];
        assert s[..free] + rest == s;
      }
      AppendNew(rest);
    }

    /** buffer_append_str */
    method AppendStr(s: string)
      requires Valid()
      modifies Repr()
      ensures Valid() && Contents() == old(Contents()) + CStr(s) && fresh(Repr() - old(Repr()))
    {
      AppendSub(CStr(s));
    }

    /** buffer_append_char */
    method AppendChar(c: char)
      requires Valid()
      modifies Repr()
      ensures Valid() && Contents() == old(Contents()) + [c] && fresh(Repr() - old(Repr()))
    {
      totlen := totlen + 1;
      if data != null && data.len != data.str.Length {
        data.Fill([c]);
        return;
      }
      AppendNew([c]);
    }

    /** buffer_to_string */
    method ToString() returns (v: array<char>)
      requires Valid()
      ensures fresh(v) && v[..] == Contents() + [NUL]
    {
      v := new char[totlen + 1];
      v[totlen] := NUL;
      assert v[totlen..] == [NUL];
      CopyChunks(data, v, totlen);
    }
  }

  /** The loop of buffer_to_string: the chunks are copied from the end of the result backwards. */
  method CopyChunks(data: StringItem?, v: array<char>, totlen: nat)
    requires data != null ==> data.Valid() && v !in data.Repr && totlen == |data.Text()|
    requires data == null ==> totlen == 0
    requires totlen <= v.Length
    modifies v
    ensures v[..] == (if data == null then [] else data.Text()) + old(v[totlen..])
  {
    var s, it := totlen, data;
    ghost var before := if data == null then [] else data.Text();
    ghost var whole := before + v[s..];
    while it != null
      invariant it != null ==> it.Valid() && v !in it.Repr
      invariant before == if it == null then [] else it.Text()
      invariant s == |before| <= totlen && before + v[s..] == whole
      decreases if it == null then {} else it.Repr
    {
      ghost var done := v[s..];
      s := s - it.len;
      ghost var earlier, part := if it.next == null then [] else it.next.Text(), it.str[..it.len];
      it.CopyTo(v, s);
      Moved(earlier, part, done);
      assert earlier + v[s..] == whole;
      before := earlier;
      it := it.next;
    }
    assert v[s..] == v[..] && [] + v[s..] == v[s..];
  }

  lemma Moved(a: string, b: string, c: string)
    ensures a + b + c == a + (b + c)
  {
  }
}
