/** libs/extlib-leftovers/rbuffer.ml: a string builder whose left part is a rope of byte blocks and
    whose right part is one block, written in place. */
module Rbuffer {
  /** The blocks are shared, not copied, when a rope is appended to another. */
  datatype Rope = Str(s: array<char>) | App(l: Rope, r: Rope, n: nat)

  datatype Result<+T> = Ok(value: T) | InvalidArg(what: string)

  ghost function Leaves(r: Rope): set<array<char>> {
    match r
    case Str(s) => {s}
    case App(l, r, _) => Leaves(l) + Leaves(r)
  }

  /** The text of a rope */
  ghost function Flat(r: Rope): seq<char>
    reads Leaves(r)
  {
    match r
    case Str(s) => s[..]
    case App(l, r, _) => Flat(l) + Flat(r)
  }

  /** rope_length */
  function RopeLength(r: Rope): nat {
    match r
    case Str(s) => s.Length
    case App(_, _, n) => n
  }

  /** The cached lengths are the true ones. */
  ghost predicate Good(r: Rope) {
    r.App? ==> Good(r.l) && Good(r.r) && r.n == RopeLength(r.l) + RopeLength(r.r)
  }

  lemma {:induction false} LengthIsTrue(r: Rope)
    requires Good(r)
    ensures |Flat(r)| == RopeLength(r)
  {
    if r.App? {
      LengthIsTrue(r.l);
      LengthIsTrue(r.r);
    }
  }

  /** rope_nth */
  function RopeNth(i: nat, r: Rope): (c: char)
    requires Good(r) && i < RopeLength(r)
    reads Leaves(r)
    ensures i < |Flat(r)| && c == Flat(r)[i]
  {
    LengthIsTrue(r);
    match r
    case Str(s) => s[i]
    case App(l, r, _) =>
      var ll := RopeLength(l);
      LengthIsTrue(l);
      if i < ll then RopeNth(i, l) else RopeNth(i - ll, r)
  }

  /** a with w written at position i */
  ghost function Overwrite(a: seq<char>, i: nat, w: seq<char>): seq<char>
    requires i + |w| <= |a|
  {
    a[..i] + w + a[i + |w|..]
  }

  lemma OverwriteTwice(a: seq<char>, i: nat, v: seq<char>, w: seq<char>)
    requires i + |v| + |w| <= |a|
    ensures Overwrite(Overwrite(a, i, v), i + |v|, w) == Overwrite(a, i, v + w)
  {
  }

  lemma OverwriteKeeps(a: seq<char>, i: nat, w: seq<char>)
    requires i + |w| <= |a|
    ensures |Overwrite(a, i, w)| == |a| && Overwrite(a, i, w)[..i] == a[..i]
    ensures Overwrite(a, i, w)[i..i + |w|] == w
  {
  }

  /** String.blit */
  method Blit(src: seq<char>, from: nat, dst: array<char>, at: nat, n: nat)
    requires from + n <= |src| && at + n <= dst.Length
    modifies dst
    ensures dst[..] == Overwrite(old(dst[..]), at, src[from..from + n])
  {
    for j := 0 to n
      invariant dst[..at + j] == old(dst[..at]) + src[from..from + j]
      invariant dst[at + j..] == old(dst[..])[at + j..]
    {
      dst[at + j] := src[from + j];
    }
  }

  /** The two parts of a rope */
  lemma AppParts(r: Rope)
    requires Good(r) && r.App?
    ensures Good(r.l) && Good(r.r) && RopeLength(r) == RopeLength(r.l) + RopeLength(r.r)
    ensures Leaves(r) == Leaves(r.l) + Leaves(r.r)
    ensures |Flat(r.l)| == RopeLength(r.l) && |Flat(r.r)| == RopeLength(r.r) && Flat(r) == Flat(r.l) + Flat(r.r)
  {
    LengthIsTrue(r.l);
    LengthIsTrue(r.r);
  }

  lemma StrParts(r: Rope)
    requires r.Str?
    ensures RopeLength(r) == r.s.Length && Leaves(r) == {r.s} && Flat(r) == r.s[..]
  {
  }

  lemma {:induction false} LeavesExist(r: Rope)
    ensures forall o | o in Leaves(r) :: allocated(o)
  {
    if r.App? {
      LeavesExist(r.l);
      LeavesExist(r.r);
    }
  }

  /** blit_rope */
  method BlitRope(s: array<char>, i: nat, r: Rope)
    requires Good(r) && s !in Leaves(r) && i + RopeLength(r) <= s.Length
    modifies s
    ensures i + |Flat(r)| <= s.Length && s[..] == Overwrite(old(s[..]), i, Flat(r))
    decreases r
  {
    hide Good, Leaves, Flat, RopeLength, Overwrite;
    match r {
      case Str(str) =>
        StrParts(r);
        assert str[..][0..str.Length] == str[..];
        Blit(str[..], 0, s, i, str.Length);
      case App(l, right, _) =>
        AppParts(r);
        LeavesExist(r);
        ghost var v, w, was := Flat(l), Flat(right), s[..];
        var ll := RopeLength(l);
        BlitRope(s, i, l);
        BlitRope(s, i + ll, right);
        OverwriteTwice(was, i, v, w);
        AppParts(r);
    }
  }

  /** A stretch of two texts in a row lies in one of them or runs over the seam. */
  lemma SliceOfTwo(v: seq<char>, w: seq<char>, ofs: nat, len: nat)
    requires ofs + len <= |v| + |w|
    ensures ofs + len <= |v| ==> (v + w)[ofs..ofs + len] == v[ofs..ofs + len]
    ensures ofs >= |v| ==> (v + w)[ofs..ofs + len] == w[ofs - |v|..ofs - |v| + len]
    ensures ofs < |v| < ofs + len ==>
              (v + w)[ofs..ofs + len] == v[ofs..ofs + (|v| - ofs)] + w[0..0 + (len - (|v| - ofs))]
  {
  }

  /** blit_subrope */
  method BlitSubrope(s: array<char>, i: nat, ofs: nat, len: nat, r: Rope)
    requires Good(r) && s !in Leaves(r) && i + len <= s.Length && ofs + len <= RopeLength(r)
    modifies s
    ensures ofs + len <= |Flat(r)| && s[..] == Overwrite(old(s[..]), i, Flat(r)[ofs..ofs + len])
    decreases r
  {
    hide Good, Leaves, Flat, RopeLength, Overwrite;
    match r {
      case Str(str) =>
        StrParts(r);
        Blit(str[..], ofs, s, i, len);
        StrParts(r);
      case App(l, right, _) =>
        AppParts(r);
        LeavesExist(r);
        ghost var v, w, was := Flat(l), Flat(right), s[..];
        SliceOfTwo(v, w, ofs, len);
        var ll := RopeLength(l);
        if ofs + len <= ll {
          BlitSubrope(s, i, ofs, len, l);
        } else if ofs >= ll {
          BlitSubrope(s, i, ofs - ll, len, right);
        } else {
          var lenl := ll - ofs;
          BlitSubrope(s, i, ofs, lenl, l);
          BlitSubrope(s, i + lenl, 0, len - lenl, right);
          OverwriteTwice(was, i, v[ofs..ofs + lenl], w[0..0 + (len - lenl)]);
        }
        AppParts(r);
    }
  }

  class Rbuffer {
    /** Sys.max_string_length */
    const maxStringLength: nat
    var rope: Rope
    var buffer: array<char>
    var position: nat

    ghost predicate Valid()
      reads this
    {
      && Good(rope)
      && buffer !in Leaves(rope)
      && position <= buffer.Length
      && 1 <= buffer.Length <= maxStringLength
    }

    /** The string built so far */
    ghost function Contents(): seq<char>
      requires position <= buffer.Length
      reads this, buffer, Leaves(rope)
    {
      Flat(rope) + buffer[..position]
    }

    /** create */
    constructor (n: int, maxStringLength: nat)
      requires maxStringLength >= 1
      ensures Valid() && Contents() == [] && fresh(buffer) && fresh(Leaves(rope))
      ensures this.maxStringLength == maxStringLength
      ensures buffer.Length == if n < 1 then 1 else if n > maxStringLength then maxStringLength else n
    {
      this.maxStringLength := maxStringLength;
      var n := if n < 1 then 1 else n;
      n := if n > maxStringLength then maxStringLength else n;
      var empty := new char[0];
      rope, buffer, position := Str(empty), new char[n], 0;
    }

    /** reset */
    method Reset()
      requires Valid()
      modifies `rope, `position
      ensures Valid() && Contents() == [] && fresh(Leaves(rope))
    {
      var empty := new char[0];
      rope, position := Str(empty), 0;
    }

    function Length(): (n: nat)
      requires Valid()
      reads this, buffer, Leaves(rope)
      ensures n == |Contents()|
    {
      LengthIsTrue(rope);
      RopeLength(rope) + position
    }

    /** move_buffer_to_rope */
    method MoveBufferToRope()
      requires Valid()
      modifies `rope, `buffer, `position
      ensures Valid() && position == 0 && Contents() == old(Contents())
      ensures buffer == old(buffer) || fresh(buffer)
      ensures forall o | o in Leaves(rope) :: o in old(Leaves(rope)) || o == old(buffer) || fresh(o)
      ensures old(position) == 0 ==> buffer == old(buffer) && rope == old(rope)
    {
      LeavesExist(rope);
      var pos := position;
      if pos > 0 {
        ghost var used := buffer[..pos];
        var n := buffer.Length;
        if pos == n {
          assert used == buffer[..];
          rope := App(rope, Str(buffer), RopeLength(rope) + pos);
          buffer := new char[n];
        } else {
          var part := new char[pos];
          Blit(buffer[..], 0, part, 0, pos);
          assert part[..] == used;
          rope := App(rope, Str(part), RopeLength(rope) + pos);
        }
        position := 0;
        assert Flat(rope) == old(Flat(rope)) + used;
      }
    }

    /** add_char */
    method AddChar(c: char)
      requires Valid()
      modifies this, buffer
      ensures Valid() && Contents() == old(Contents()) + [c]
      ensures buffer == old(buffer) || fresh(buffer)
      ensures forall o | o in Leaves(rope) :: o in old(Leaves(rope)) || o == old(buffer) || fresh(o)
    {
      LeavesExist(rope);
      if position == buffer.Length {
        MoveBufferToRope();
      }
      LeavesExist(rope);
      var pos := position;
      buffer[pos] := c;
      position := pos + 1;
    }

    /** The place that alloc hands out, in each of its three cases: in the buffer, in a block of the
        rope after what the buffer held, or in a block of its own after a block with that. */
    ghost predicate InBuffer(str: array<char>, pos: nat, len: nat, left: Rope, used: seq<char>)
      reads this, str
    {
      str == buffer && rope == left && position == pos + len <= str.Length && str[..pos] == used
    }

    ghost predicate InBlock(str: array<char>, pos: nat, len: nat, left: Rope, used: seq<char>)
      reads this, str
    {
      && rope.App? && rope.l == left && rope.r == Str(str) && position == 0
      && str.Length == pos + len && str[..pos] == used
    }

    ghost predicate InOwnBlock(str: array<char>, pos: nat, len: nat, left: Rope, used: seq<char>, part: array<char>)
      reads this, part
    {
      && rope.App? && rope.l == left && rope.r.App? && rope.r.l == Str(part) && rope.r.r == Str(str)
      && position == 0 && pos == 0 && str.Length == len
      && part != str && part[..] == used
    }

    /** Whichever case it was, the text is what came before followed by what the place holds. */
    lemma BufferHolds(str: array<char>, pos: nat, len: nat, left: Rope, used: seq<char>)
      requires InBuffer(str, pos, len, left, used)
      ensures Contents() == Flat(left) + used + str[pos..pos + len]
    {
      assert buffer[..position] == used + str[pos..pos + len];
    }

    lemma BlockHolds(str: array<char>, pos: nat, len: nat, left: Rope, used: seq<char>)
      requires InBlock(str, pos, len, left, used)
      ensures Contents() == Flat(left) + used + str[pos..pos + len]
    {
      assert str[..] == used + str[pos..pos + len];
      assert buffer[..position] == [];
      assert Flat(Str(str)) == str[..] && Flat(rope) == Flat(left) + str[..];
    }

    lemma OwnBlockHolds(str: array<char>, pos: nat, len: nat, left: Rope, used: seq<char>, part: array<char>)
      requires InOwnBlock(str, pos, len, left, used, part)
      ensures Contents() == Flat(left) + used + str[pos..pos + len]
    {
      assert str[..] == str[pos..pos + len];
      assert buffer[..position] == [];
      PairParts(part, str, rope.r.n);
      assert Flat(rope) == Flat(left) + (used + str[..]);
    }

    /** alloc */
    method Alloc(len: nat) returns (str: array<char>, pos: nat, ghost part: array<char>)
      requires Valid() && len <= maxStringLength
      modifies `rope, `position
      ensures Valid()
      ensures || InBuffer(str, pos, len, old(rope), old(buffer[..position]))
              || (fresh(str) && InBlock(str, pos, len, old(rope), old(buffer[..position])))
              || (fresh(str) && fresh(part) && InOwnBlock(str, pos, len, old(rope), old(buffer[..position]), part))
      ensures forall o | o in Leaves(rope) :: o in old(Leaves(rope)) || fresh(o)
    {
      LeavesExist(rope);
      ghost var used := buffer[..position];
      part := buffer;
      var n := buffer.Length;
      pos := position;
      var len' := pos + len;
      if len' <= n {
        position := len';
        str := buffer;
      } else if len' <= maxStringLength {
        str := new char[len'];
        Blit(buffer[..], 0, str, 0, pos);
        rope := App(rope, Str(str), RopeLength(rope) + len');
        position := 0;
      } else {
        var before := new char[pos];
        Blit(buffer[..], 0, before, 0, pos);
        assert before[..] == used;
        str := new char[len];
        PairParts(before, str, len');
        rope := App(rope, App(Str(before), Str(str), len'), RopeLength(rope) + len');
        position, pos := 0, 0;
        part := before;
      }
    }

    /** safe_add_substring */
    method SafeAddSubstring(s: seq<char>, offset: nat, len: nat)
      requires Valid() && offset + len <= |s| <= maxStringLength
      modifies this, buffer
      ensures Valid() && Contents() == old(Contents()) + s[offset..offset + len]
      ensures buffer == old(buffer)
      ensures forall o | o in Leaves(rope) :: o in old(Leaves(rope)) || fresh(o)
    {
      LeavesExist(rope);
      ghost var left, used, text := rope, buffer[..position], Flat(rope);
      var str, pos, part := Alloc(len);
      hide Leaves, Flat, Overwrite;
      assert str != buffer ==> fresh(str);
      ghost var was := str[..];
      Blit(s, offset, str, pos, len);
      OverwriteKeeps(was, pos, s[offset..offset + len]);
      assert Flat(left) == text;
      assert str[pos..pos + len] == s[offset..offset + len];
      assert str[..pos] == was[..pos];
      if InBuffer(str, pos, len, left, used) {
        BufferHolds(str, pos, len, left, used);
      } else if InBlock(str, pos, len, left, used) {
        BlockHolds(str, pos, len, left, used);
      } else {
        OwnBlockHolds(str, pos, len, left, used, part);
      }
    }

    /** add_substring */
    method AddSubstring(s: seq<char>, offset: int, len: int) returns (r: Result<()>)
      requires Valid() && |s| <= maxStringLength
      modifies this, buffer
      ensures Valid() && buffer == old(buffer)
      ensures 0 <= offset && 0 <= len && offset + len <= |s| ==>
                r == Ok(()) && Contents() == old(Contents()) + s[offset..offset + len]
      ensures !(0 <= offset && 0 <= len && offset + len <= |s|) ==>
                r == InvalidArg("Buffer.add_substring") && Contents() == old(Contents())
      ensures forall o | o in Leaves(rope) :: o in old(Leaves(rope)) || fresh(o)
    {
      LeavesExist(rope);
      if offset < 0 || len < 0 || offset > |s| - len {
        return InvalidArg("Buffer.add_substring");
      }
      SafeAddSubstring(s, offset, len);
      r := Ok(());
    }

    /** add_string */
    method AddString(s: seq<char>)
      requires Valid() && |s| <= maxStringLength
      modifies this, buffer
      ensures Valid() && buffer == old(buffer)
      ensures Contents() == old(Contents()) + s
      ensures forall o | o in Leaves(rope) :: o in old(Leaves(rope)) || fresh(o)
    {
      LeavesExist(rope);
      SafeAddSubstring(s, 0, |s|);
      assert s[0..0 + |s|] == s;
    }

    /** The block either buffer writes in is no part of the other. */
    ghost predicate Apart(b2: Rbuffer)
      reads this, b2
    {
      && buffer != b2.buffer && buffer !in Leaves(b2.rope) && b2.buffer !in Leaves(rope)
    }

    /** add_buffer, also of a buffer to itself; the rope of the other is shared, its block is copied. */
    method AddBuffer(b2: Rbuffer)
      requires Valid() && b2.Valid() && b2.maxStringLength == maxStringLength
      requires b2 == this || Apart(b2)
      modifies this, buffer
      ensures Valid() && Contents() == old(Contents()) + old(b2.Contents())
      ensures b2 != this ==> b2.Valid() && b2.Contents() == old(b2.Contents()) && Apart(b2)
      ensures buffer == old(buffer) || fresh(buffer)
      ensures forall o | o in Leaves(rope) ::
                o in old(Leaves(rope)) || o in old(Leaves(b2.rope)) || o == old(buffer) || fresh(o)
    {
      hide Flat, Leaves, Good, RopeLength;
      ghost var c, left, right := Contents(), Flat(b2.rope), b2.buffer[..b2.position];
      assert b2.Contents() == left + right;
      LeavesExist(rope);
      LeavesExist(b2.rope);
      if position > 0 {
        MoveBufferToRope();
      }
      ghost var mid := Flat(b2.rope);
      assert b2 == this ==> mid == c by {
        assert buffer[..0] == [];
      }
      AddRope(b2.rope);
      assert Contents() == c + mid;
      LeavesExist(rope);
      LeavesExist(b2.rope);
      ghost var tail := b2.buffer[..][0..0 + b2.position];
      var r := AddSubstring(b2.buffer[..], 0, b2.position);
      assert b2 != this ==> tail == right && c + mid + right == c + (left + right);
      assert b2 == this ==> tail == [] && c + mid + [] == c + c;
    }

    /** A rope after the rope */
    method AddRope(r2: Rope)
      requires Valid() && position == 0 && Good(r2) && buffer !in Leaves(r2)
      modifies `rope
      ensures Valid() && Leaves(rope) == old(Leaves(rope)) + Leaves(r2)
      ensures Contents() == old(Contents()) + old(Flat(r2))
    {
      LeavesExist(rope);
      LeavesExist(r2);
      rope := App(rope, r2, RopeLength(rope) + RopeLength(r2));
    }

    /** unsafe_contents */
    method UnsafeContents() returns (r: Result<seq<char>>)
      requires Valid()
      ensures r == if |Contents()| <= maxStringLength then Ok(Contents()) else InvalidArg("Rbuffer.contents")
    {
      hide Good, Flat, Leaves, RopeLength, Overwrite;
      LengthIsTrue(rope);
      LeavesExist(rope);
      ghost var text := Flat(rope);
      var left := RopeLength(rope);
      var n := position;
      var len := left + n;
      if len > maxStringLength {
        return InvalidArg("Rbuffer.contents");
      }
      var s := new char[len];
      ghost var was := s[..];
      BlitRope(s, 0, rope);
      Blit(buffer[..], 0, s, left, n);
      OverwriteTwice(was, 0, text, buffer[..][0..0 + n]);
      assert buffer[..][0..0 + n] == buffer[..n];
      OverwriteAll(was, text + buffer[..n]);
      r := Ok(s[..]);
    }

    /** sub */
    method Sub(ofs: int, len: int) returns (r: Result<seq<char>>)
      requires Valid()
      ensures 0 <= ofs && 0 <= len <= maxStringLength && ofs + len <= |Contents()| ==>
                r == Ok(Contents()[ofs..ofs + len])
      ensures !(0 <= ofs && 0 <= len <= maxStringLength && ofs + len <= |Contents()|) ==>
                r == InvalidArg("Buffer.sub")
    {
      hide Good, Flat, Leaves, RopeLength, Overwrite;
      LengthIsTrue(rope);
      LeavesExist(rope);
      ghost var text, used := Flat(rope), buffer[..position];
      var left := RopeLength(rope);
      if len > maxStringLength || ofs < 0 || len < 0 || ofs > left + position - len {
        return InvalidArg("Buffer.sub");
      }
      SliceOfTwo(text, used, ofs, len);
      var s := new char[len];
      ghost var was := s[..];
      if ofs + len <= left {
        BlitSubrope(s, 0, ofs, len, rope);
        OverwriteAll(was, text[ofs..ofs + len]);
      } else if ofs >= left {
        Blit(buffer[..], ofs - left, s, 0, len);
        assert buffer[..][ofs - left..ofs - left + len] == used[ofs - left..ofs - left + len];
        OverwriteAll(was, used[ofs - left..ofs - left + len]);
      } else {
        BlitSubrope(s, 0, ofs, left - ofs, rope);
        Blit(buffer[..], 0, s, left - ofs, ofs + len - left);
        assert buffer[..][0..0 + (ofs + len - left)] == used[0..0 + (ofs + len - left)];
        OverwriteTwice(was, 0, text[ofs..ofs + (left - ofs)], used[0..0 + (ofs + len - left)]);
        OverwriteAll(was, text[ofs..ofs + (left - ofs)] + used[0..0 + (ofs + len - left)]);
      }
      r := Ok(s[..]);
    }

    /** nth */
    method Nth(i: int) returns (r: Result<char>)
      requires Valid()
      ensures r == if 0 <= i < |Contents()| then Ok(Contents()[i]) else InvalidArg("Buffer.nth")
    {
      LengthIsTrue(rope);
      var left := RopeLength(rope);
      if i < 0 || i >= left + position {
        return InvalidArg("Buffer.nth");
      }
      r := Ok(if i < left then RopeNth(i, rope) else buffer[i - left]);
    }
  }

  lemma OverwriteAll(a: seq<char>, w: seq<char>)
    requires |w| == |a|
    ensures Overwrite(a, 0, w) == w
  {
  }

  /** One buffer appended to another beside a third: the third is not touched and stays apart. */
  method AppendBeside(b: Rbuffer, b2: Rbuffer, b3: Rbuffer)
    requires b.Valid() && b2.Valid() && b3.Valid() && b.maxStringLength == b2.maxStringLength
    requires b != b2 && b != b3 && b.Apart(b2) && b.Apart(b3) && b2.Apart(b3)
    modifies b, b.buffer
    ensures b.Valid() && b.Contents() == old(b.Contents()) + old(b2.Contents())
    ensures b2.Valid() && b2.Contents() == old(b2.Contents())
    ensures b3.Valid() && b3.Contents() == old(b3.Contents())
    ensures b.Apart(b2) && b.Apart(b3) && b2.Apart(b3)
    ensures b.buffer == old(b.buffer) || fresh(b.buffer)
  {
    hide Flat, Leaves, Good, RopeLength;
    LeavesExist(b2.rope);
    LeavesExist(b3.rope);
    b.AddBuffer(b2);
  }

  /** Two buffers appended to a third one after the other; so it can go on with any number. */
  method AppendBoth(b: Rbuffer, b2: Rbuffer, b3: Rbuffer)
    requires b.Valid() && b2.Valid() && b3.Valid()
    requires b.maxStringLength == b2.maxStringLength == b3.maxStringLength
    requires b != b2 && b != b3 && b.Apart(b2) && b.Apart(b3) && b2.Apart(b3)
    modifies b, b.buffer
    ensures b.Valid() && b.Contents() == old(b.Contents()) + old(b2.Contents()) + old(b3.Contents())
    ensures b2.Valid() && b2.Contents() == old(b2.Contents())
    ensures b3.Valid() && b3.Contents() == old(b3.Contents())
    ensures b.Apart(b2) && b.Apart(b3) && b2.Apart(b3)
  {
    AppendBeside(b, b2, b3);
    AppendBeside(b, b3, b2);
  }

  lemma PairParts(a: array<char>, b: array<char>, n: nat)
    ensures Leaves(App(Str(a), Str(b), n)) == {a, b}
    ensures Flat(App(Str(a), Str(b), n)) == a[..] + b[..]
  {
    assert Leaves(Str(a)) == {a} && Leaves(Str(b)) == {b};
  }
}
