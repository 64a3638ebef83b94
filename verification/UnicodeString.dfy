/** std/UnicodeString.hx on targets with UTF-16 strings: walks over native offsets that answer for
    code points. */
module UnicodeString {
  import opened Optional
  import opened Utf16

  /** get_length, over StringIteratorUnicode */
  method Length(s: seq<Unit>) returns (l: nat)
    requires WellFormed(s)
    ensures l == |Decode(s)|
  {
    hide EncodeAll, Decode, WellFormed, CodePointAt, Offset;
    ghost var cs := Decode(s);
    EncodeDecode(s);
    OffsetEnds(s, cs);
    l := 0;
    var offset := 0;
    while offset < |s|
      invariant l <= |cs| && offset == Offset(cs, l)
      decreases |cs| - l
    {
      Inside(s, cs, l);
      ReadAtOffset(s, cs, l);
      var c := CodePointAt(s, offset);
      offset := offset + 1;
      if c >= MIN_SURROGATE_CODE_POINT {
        offset := offset + 1;
      }
      l := l + 1;
    }
    OffsetGrows(s, cs, l, |cs|);
  }

  /** An offset before the end of the string is that of a code point. */
  lemma Inside(s: seq<Unit>, cs: seq<CodePoint>, k: nat)
    requires s == EncodeAll(cs) && k <= |cs| && Offset(cs, k) < |s|
    ensures k < |cs|
  {
    OffsetEnds(s, cs);
  }

  /** charCodeAt: no code point outside 0..length */
  method CharCodeAt(s: seq<Unit>, index: int) returns (r: Option<int>)
    requires WellFormed(s)
    ensures 0 <= index < |Decode(s)| ==> r == Some(Decode(s)[index])
    ensures !(0 <= index < |Decode(s)|) ==> r == None
  {
    hide EncodeAll, Decode, WellFormed, CodePointAt, Offset;
    if index < 0 {
      return None;
    }
    ghost var cs := Decode(s);
    EncodeDecode(s);
    OffsetEnds(s, cs);
    var unicodeOffset := 0;
    var nativeOffset := 0;
    while nativeOffset < |s|
      invariant unicodeOffset <= |cs| && nativeOffset == Offset(cs, unicodeOffset)
      invariant unicodeOffset <= index
      decreases |cs| - unicodeOffset
    {
      Inside(s, cs, unicodeOffset);
      ReadAtOffset(s, cs, unicodeOffset);
      var c := CodePointAt(s, nativeOffset);
      nativeOffset := nativeOffset + 1;
      if unicodeOffset == index {
        return Some(c);
      }
      if c >= MIN_SURROGATE_CODE_POINT {
        nativeOffset := nativeOffset + 1;
      }
      unicodeOffset := unicodeOffset + 1;
    }
    OffsetGrows(s, cs, unicodeOffset, |cs|);
    r := None;
  }

  /** charAt: the walk of charCodeAt, then String.fromCharCode */
  method CharAt(s: seq<Unit>, index: int) returns (r: seq<Unit>)
    requires WellFormed(s)
    ensures WellFormed(r)
    ensures Decode(r) == if 0 <= index < |Decode(s)| then [Decode(s)[index]] else []
  {
    hide EncodeAll, Decode, WellFormed, CodePointAt, Offset;
    DecodeEncode([]);
    EncodesNothing();
    if index < 0 {
      return [];
    }
    ghost var cs := Decode(s);
    EncodeDecode(s);
    OffsetEnds(s, cs);
    var unicodeOffset := 0;
    var nativeOffset := 0;
    while nativeOffset < |s|
      invariant unicodeOffset <= |cs| && nativeOffset == Offset(cs, unicodeOffset)
      invariant unicodeOffset <= index
      decreases |cs| - unicodeOffset
    {
      Inside(s, cs, unicodeOffset);
      ReadAtOffset(s, cs, unicodeOffset);
      var c := CodePointAt(s, nativeOffset);
      nativeOffset := nativeOffset + 1;
      if unicodeOffset == index {
        DecodeEncode([cs[index]]);
        EncodeOne(cs[index]);
        return Encode(c);
      }
      if c >= MIN_SURROGATE_CODE_POINT {
        nativeOffset := nativeOffset + 1;
      }
      unicodeOffset := unicodeOffset + 1;
    }
    OffsetGrows(s, cs, unicodeOffset, |cs|);
    r := [];
  }

  lemma EncodesNothing()
    ensures EncodeAll([]) == []
  {
  }

  /** The native units from the `from`-th code point on, or to the end of the `to`-th, encode that slice. */
  lemma Cut(s: seq<Unit>, cs: seq<CodePoint>, from: nat, to: nat)
    requires s == EncodeAll(cs) && from <= to <= |cs|
    ensures Offset(cs, from) <= Offset(cs, to) <= |s|
    ensures WellFormed(s[Offset(cs, from)..Offset(cs, to)])
    ensures Decode(s[Offset(cs, from)..Offset(cs, to)]) == cs[from..to]
  {
    hide EncodeAll, Decode, WellFormed, Offset;
    SliceAtOffsets(s, cs, from, to);
    DecodeEncode(cs[from..to]);
  }

  /** The loop that substr and substring share: the code points from `from` on, `count` of them at
      most, or all when no count is given. */
  method Walk(s: seq<Unit>, from: nat, count: Option<int>) returns (r: seq<Unit>)
    requires WellFormed(s)
    requires count.Some? ==> count.value > 0
    ensures WellFormed(r)
    ensures var cs := Decode(s);
            Decode(r) == if from >= |cs| then []
                         else if count.None? || from + count.value >= |cs| then cs[from..]
                         else cs[from..from + count.value]
  {
    hide EncodeAll, Decode, WellFormed, CodePointAt, Offset;
    ghost var cs := Decode(s);
    EncodeDecode(s);
    OffsetEnds(s, cs);
    DecodeEncode([]);
    EncodesNothing();
    var unicodeOffset: nat := 0;
    var nativeOffset: nat := 0;
    var fromOffset: int := -1;
    var subLength := 0;
    while nativeOffset < |s|
      invariant unicodeOffset <= |cs| && nativeOffset == Offset(cs, unicodeOffset)
      invariant unicodeOffset <= from ==> fromOffset == -1 && subLength == 0
      invariant unicodeOffset > from ==> fromOffset == Offset(cs, from) && count.Some?
      invariant unicodeOffset > from ==> subLength == unicodeOffset - from < count.value
      decreases |cs| - unicodeOffset
    {
      Inside(s, cs, unicodeOffset);
      ReadAtOffset(s, cs, unicodeOffset);
      var c := CodePointAt(s, nativeOffset);
      if unicodeOffset >= from {
        if fromOffset < 0 {
          if count.None? {
            Cut(s, cs, from, |cs|);
            assert s[nativeOffset..] == s[nativeOffset..|s|];
            return s[nativeOffset..];
          }
          fromOffset := nativeOffset;
        }
        subLength := subLength + 1;
        if subLength >= count.value {
          var lastOffset := if c < MIN_SURROGATE_CODE_POINT then nativeOffset else nativeOffset + 1;
          Cut(s, cs, from, unicodeOffset + 1);
          return s[fromOffset..lastOffset + 1];
        }
      }
      nativeOffset := nativeOffset + if c >= MIN_SURROGATE_CODE_POINT then 2 else 1;
      unicodeOffset := unicodeOffset + 1;
    }
    OffsetGrows(s, cs, unicodeOffset, |cs|);
    if fromOffset < 0 {
      return [];
    }
    Cut(s, cs, from, |cs|);
    assert s[fromOffset..] == s[fromOffset..|s|];
    r := s[fromOffset..];
  }

  /** substr: a negative position counts from the end, and so does a negative length */
  method Substr(s: seq<Unit>, pos: int, len: Option<int>) returns (r: seq<Unit>)
    requires WellFormed(s)
    ensures WellFormed(r)
    ensures var cs, n := Decode(s), |Decode(s)|;
            var rest := if pos >= n then [] else if pos >= 0 then cs[pos..] else if pos >= -n then cs[n + pos..] else cs;
            if len.None? then Decode(r) == rest
            else
              var count := if len.value < 0 then n + len.value else len.value;
              Decode(r) == if count <= 0 then [] else if count >= |rest| then rest else rest[..count]
  {
    hide EncodeAll, Decode, WellFormed;
    DecodeEncode([]);
    EncodesNothing();
    var from, count := pos, len;
    if from < 0 {
      var n := Length(s);
      from := n + from;
      if from < 0 {
        from := 0;
      }
    }
    if count.Some? {
      if count.value < 0 {
        var n := Length(s);
        count := Some(n + count.value);
      }
      if count.value <= 0 {
        return [];
      }
    }
    r := Walk(s, from, count);
  }

  /** substring: the ends are made non-negative, swapped into order and clipped to the string. */
  method Substring(s: seq<Unit>, startIndex: int, endIndex: Option<int>) returns (r: seq<Unit>)
    requires WellFormed(s)
    ensures WellFormed(r)
    ensures var cs, n := Decode(s), |Decode(s)|;
            var start := if startIndex < 0 then 0 else startIndex;
            if endIndex.None? then Decode(r) == if start >= n then [] else cs[start..]
            else
              var end := if endIndex.value < 0 then 0 else endIndex.value;
              var lo, hi := if start <= end then start else end, if start <= end then end else start;
              Decode(r) == if lo >= n then [] else if hi >= n then cs[lo..] else cs[lo..hi]
  {
    hide EncodeAll, Decode, WellFormed;
    DecodeEncode([]);
    EncodesNothing();
    var start, end := startIndex, endIndex;
    if start < 0 {
      start := 0;
    }
    if end.Some? {
      if end.value < 0 {
        end := Some(0);
      }
      if start == end.value {
        return [];
      }
      if start > end.value {
        start, end := end.value, Some(start);
      }
    }
    r := Walk(s, start, if end.None? then None else Some(end.value - start));
  }
}
