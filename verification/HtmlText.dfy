/** htmlEscape and htmlUnescape of std/StringTools.hx on strings of code points. */
module HtmlText {
  // ---------- the library calls the source is made of ----------

  function Split(s: string, sep: string): (parts: seq<string>)
    requires sep != []
    ensures parts != []
    decreases |s|
  {
    if s == [] then [[]]
    else if sep <= s then [[]] + Split(s[|sep|..], sep)
    else var parts := Split(s[1..], sep); [[s[0]] + parts[0]] + parts[1..]
  }

  function Join(parts: seq<string>, glue: string): string
    requires parts != []
  {
    if |parts| == 1 then parts[0] else parts[0] + glue + Join(parts[1..], glue)
  }

  /** Replacing from left to right. */
  function Replace(s: string, from: string, to: string): string
    requires from != []
    decreases |s|
  {
    if s == [] then []
    else if from <= s then to + Replace(s[|from|..], from, to)
    else [s[0]] + Replace(s[1..], from, to)
  }

  lemma {:induction false} SplitJoinReplaces(s: string, from: string, to: string)
    requires from != []
    ensures Join(Split(s, from), to) == Replace(s, from, to)
    decreases |s|
  {
    if s == [] {
    } else if from <= s {
      var parts := Split(s[|from|..], from);
      SplitJoinReplaces(s[|from|..], from, to);
      assert ([[]] + parts)[1..] == parts;
      assert [] + to == to;
    } else {
      var parts := Split(s[1..], from);
      SplitJoinReplaces(s[1..], from, to);
      JoinCons(s[0], parts, to);
    }
  }

  lemma JoinCons(c: char, parts: seq<string>, glue: string)
    requires parts != []
    ensures Join([[c] + parts[0]] + parts[1..], glue) == [c] + Join(parts, glue)
  {
    var more := [[c] + parts[0]] + parts[1..];
    assert more[1..] == parts[1..];
    if |parts| > 1 {
      assert [c] + parts[0] + glue + Join(parts[1..], glue) == [c] + (parts[0] + glue + Join(parts[1..], glue));
    }
  }

  // ---------- the source ----------

  function EscapeChar(c: char, quotes: bool): string {
    if c == '&' then "&amp;"
    else if c == '<' then "&lt;"
    else if c == '>' then "&gt;"
    else if c == '"' && quotes then "&quot;"
    else if c == '\'' && quotes then "&#039;"
    else [c]
  }

  function Escaped(s: string, quotes: bool): string {
    if s == [] then [] else EscapeChar(s[0], quotes) + Escaped(s[1..], quotes)
  }

  lemma {:induction false} EscapedAppend(a: string, b: string, quotes: bool)
    ensures Escaped(a + b, quotes) == Escaped(a, quotes) + Escaped(b, quotes)
  {
    hide EscapeChar;
    if a == [] {
      assert a + b == b;
    } else {
      assert (a + b)[1..] == a[1..] + b;
      EscapedAppend(a[1..], b, quotes);
    }
  }

  lemma EscapedChar(c: char, quotes: bool)
    ensures Escaped([c], quotes) == EscapeChar(c, quotes)
  {
    assert [c][1..] == [];
  }

  /** What becomes of each character; a string is escaped character by character. */
  lemma EscapedCharacters(c: char, quotes: bool)
    ensures Escaped("&", quotes) == "&amp;"
    ensures Escaped("<", quotes) == "&lt;"
    ensures Escaped(">", quotes) == "&gt;"
    ensures Escaped("\"", quotes) == if quotes then "&quot;" else "\""
    ensures Escaped("'", quotes) == if quotes then "&#039;" else "'"
    ensures c != '&' && c != '<' && c != '>' && c != '"' && c != '\'' ==> Escaped([c], quotes) == [c]
  {
    assert "&" == ['&'] && "<" == ['<'] && ">" == ['>'] && "\"" == ['"'] && "'" == ['\''];
    EscapedChar('&', quotes);
    EscapedChar('<', quotes);
    EscapedChar('>', quotes);
    EscapedChar('"', quotes);
    EscapedChar('\'', quotes);
    EscapedChar(c, quotes);
  }

  /** Some entity begins here. */
  predicate BeginsEntity(s: string) {
    "&amp;" <= s || "&lt;" <= s || "&gt;" <= s || "&quot;" <= s || "&#039;" <= s
  }

  /** No special character is left but the ampersands that begin entities. */
  ghost predicate IsSafe(e: string, quotes: bool) {
    && '<' !in e && '>' !in e
    && (quotes ==> '"' !in e && '\'' !in e)
    && forall i | 0 <= i < |e| && e[i] == '&' :: BeginsEntity(e[i..])
  }

  lemma EntityIsSafe(code: string, quotes: bool)
    requires BeginsEntity(code) && forall j | 0 < j < |code| :: code[j] != '&'
    requires '<' !in code && '>' !in code && '"' !in code && '\'' !in code
    ensures IsSafe(code, quotes)
  {
    hide BeginsEntity;
    forall i | 0 <= i < |code| && code[i] == '&'
      ensures BeginsEntity(code[i..])
    {
      assert code[0..] == code;
    }
  }

  lemma CodeIsSafe(c: char, quotes: bool)
    ensures IsSafe(EscapeChar(c, quotes), quotes)
  {
    if c == '&' {
      EntityIsSafe("&amp;", quotes);
    } else if c == '<' {
      EntityIsSafe("&lt;", quotes);
    } else if c == '>' {
      EntityIsSafe("&gt;", quotes);
    } else if c == '"' && quotes {
      EntityIsSafe("&quot;", quotes);
    } else if c == '\'' && quotes {
      EntityIsSafe("&#039;", quotes);
    }
  }

  lemma SafeAppend(a: string, b: string, quotes: bool)
    requires IsSafe(a, quotes) && IsSafe(b, quotes)
    ensures IsSafe(a + b, quotes)
  {
    forall i | 0 <= i < |a + b| && (a + b)[i] == '&'
      ensures BeginsEntity((a + b)[i..])
    {
      if i < |a| {
        assert (a + b)[i..] == a[i..] + b;
        assert BeginsEntity(a[i..]);
      } else {
        assert (a + b)[i..] == b[i - |a|..];
      }
    }
  }

  lemma {:induction false} EscapedIsSafe(s: string, quotes: bool)
    ensures IsSafe(Escaped(s, quotes), quotes)
  {
    hide EscapeChar, BeginsEntity, IsSafe;
    if s == [] {
      NothingIsSafe(quotes);
    } else {
      CodeIsSafe(s[0], quotes);
      EscapedIsSafe(s[1..], quotes);
      SafeAppend(EscapeChar(s[0], quotes), Escaped(s[1..], quotes), quotes);
    }
  }

  lemma NothingIsSafe(quotes: bool)
    ensures IsSafe([], quotes)
  {
  }

  /** htmlEscape */
  method HtmlEscape(s: string, quotes: bool) returns (buf: string)
    ensures buf == Escaped(s, quotes)
    ensures '<' !in buf && '>' !in buf && (quotes ==> '"' !in buf && '\'' !in buf)
    ensures forall i | 0 <= i < |buf| && buf[i] == '&' :: BeginsEntity(buf[i..])
  {
    EscapedIsSafe(s, quotes);
    buf := [];
    var i := 0;
    assert s[0..] == s;
    while i < |s|
      invariant i <= |s| && buf + Escaped(s[i..], quotes) == Escaped(s, quotes)
    {
      assert s[i..][0] == s[i] && s[i..][1..] == s[i + 1..];
      ghost var was := buf;
      var code := s[i];
      if code == '&' {
        buf := buf + "&amp;";
      } else if code == '<' {
        buf := buf + "&lt;";
      } else if code == '>' {
        buf := buf + "&gt;";
      } else if code == '"' && quotes {
        buf := buf + "&quot;";
      } else if code == '\'' && quotes {
        buf := buf + "&#039;";
      } else {
        buf := buf + [code];
      }
      Regroup(was, EscapeChar(code, quotes), Escaped(s[i + 1..], quotes));
      i := i + 1;
    }
  }

  lemma Regroup(a: string, b: string, c: string)
    ensures a + b + c == a + (b + c)
  {
  }

  /** htmlUnescape: five passes over the whole string, the ampersand last. */
  function HtmlUnescape(s: string): string {
    var s1 := Join(Split(s, "&gt;"), ">");
    var s2 := Join(Split(s1, "&lt;"), "<");
    var s3 := Join(Split(s2, "&quot;"), "\"");
    var s4 := Join(Split(s3, "&#039;"), "'");
    Join(Split(s4, "&amp;"), "&")
  }

  // ---------- one pass that knows all entities ----------

  datatype Entity = Entity(code: string, plain: char)

  /** The first entity of the list that stands at the beginning of s, or none. */
  function Find(s: string, es: seq<Entity>): (k: nat)
    ensures k <= |es|
    ensures k < |es| ==> es[k].code <= s
    ensures forall i | 0 <= i < k :: !(es[i].code <= s)
  {
    if es == [] then 0 else if es[0].code <= s then 0 else 1 + Find(s, es[1..])
  }

  ghost predicate IsCode(q: string) {
    && |q| > 1 && q[0] == '&' && '&' !in q[1..]
  }

  ghost predicate Codes(es: seq<Entity>) {
    forall i | 0 <= i < |es| :: IsCode(es[i].code)
  }

  /** Every entity is replaced at once, and what comes out is not looked at again. */
  function Decoded(s: string, es: seq<Entity>): string
    requires forall i | 0 <= i < |es| :: es[i].code != []
    decreases |s|
  {
    if s == [] then []
    else
      var k := Find(s, es);
      if k < |es| then [es[k].plain] + Decoded(s[|es[k].code|..], es)
      else [s[0]] + Decoded(s[1..], es)
  }

  /** A string that no replacement can produce or cut is found in the output exactly where it was. */
  lemma {:induction false} PlainSurvives(r: string, s: string, es: seq<Entity>)
    requires Codes(es) && '&' !in r && forall i | 0 <= i < |es| :: es[i].plain !in r
    ensures r <= Decoded(s, es) <==> r <= s
    ensures r <= s ==> Decoded(s, es) == r + Decoded(s[|r|..], es)
    decreases |r|
  {
    if r != [] && s != [] {
      var k := Find(s, es);
      if k < |es| {
        assert s[0] == es[k].code[0] == '&' != r[0];
        assert Decoded(s, es)[0] == es[k].plain != r[0];
      } else {
        PlainSurvives(r[1..], s[1..], es);
        if r <= s { TailAgain(r, s); }
        ConsSurvives(r, s, Decoded(s[1..], es), if r <= s then Decoded(s[|r|..], es) else []);
      }
    }
  }

  /** The first character in front of a part that is kept. */
  lemma ConsSurvives(r: string, s: string, d: string, after: string)
    requires r != [] && s != [] && (r[1..] <= d <==> r[1..] <= s[1..])
    requires r <= s && r[1..] <= s[1..] ==> d == r[1..] + after
    ensures r <= [s[0]] + d <==> r <= s
    ensures r <= s ==> [s[0]] + d == r + after && s[1..][|r[1..]|..] == s[|r|..]
  {
    ConsPrefix(r, s);
    ConsPrefix(r, [s[0]] + d);
    assert ([s[0]] + d)[1..] == d;
    if r <= s {
      assert r == [r[0]] + r[1..];
    }
  }

  lemma ConsPrefix(r: string, s: string)
    requires r != [] && s != []
    ensures r <= s <==> r[0] == s[0] && r[1..] <= s[1..]
  {
    if r[0] == s[0] && r[1..] <= s[1..] {
      assert forall i | 0 < i < |r| :: r[i] == r[1..][i - 1] == s[1..][i - 1] == s[i];
    }
  }

  ghost predicate Apart(q: string, es: seq<Entity>) {
    forall i | 0 <= i < |es| :: !(q <= es[i].code) && !(es[i].code <= q) && es[i].plain !in q
  }

  /** An entity that has not been replaced yet is found exactly where it was. */
  lemma CodeSurvives(q: string, s: string, es: seq<Entity>)
    requires Codes(es) && IsCode(q) && Apart(q, es)
    ensures q <= Decoded(s, es) <==> q <= s
    ensures q <= s ==> Decoded(s, es) == q + Decoded(s[|q|..], es) && Find(s, es) == |es|
  {
    if s != [] {
      var k := Find(s, es);
      if k < |es| {
        assert Decoded(s, es)[0] == es[k].plain != q[0];
        Comparable(q, es[k].code, s);
      } else {
        PlainSurvives(q[1..], s[1..], es);
        if q <= s { TailAgain(q, s); }
        ConsSurvives(q, s, Decoded(s[1..], es), if q <= s then Decoded(s[|q|..], es) else []);
      }
    }
  }

  lemma TailAgain(q: string, s: string)
    requires q != [] && q <= s
    ensures s[1..][|q[1..]|..] == s[|q|..] && q[1..] <= s[1..]
  {
  }

  lemma Comparable(a: string, b: string, s: string)
    requires b <= s && !(a <= b) && !(b <= a)
    ensures !(a <= s)
  {
  }

  lemma {:induction false} FindLater(s: string, es: seq<Entity>, e: Entity)
    ensures Find(s, es + [e]) == if Find(s, es) < |es| then Find(s, es) else if e.code <= s then |es| else |es| + 1
    decreases es
  {
    if es == [] {
      assert [e][1..] == [];
    } else if !(es[0].code <= s) {
      assert (es + [e])[1..] == es[1..] + [e];
      FindLater(s, es[1..], e);
    }
  }

  /** A further pass over the output is the same as knowing one more entity in the single pass. */
  lemma {:induction false} OneMorePass(s: string, es: seq<Entity>, e: Entity)
    requires Codes(es) && IsCode(e.code) && Apart(e.code, es)
    ensures Codes(es + [e])
    ensures Replace(Decoded(s, es), e.code, [e.plain]) == Decoded(s, es + [e])
    decreases |s|
  {
    assert Codes(es + [e]);
    if s != [] {
      var q, k, d := e.code, Find(s, es), Decoded(s, es);
      CodeSurvives(q, s, es);
      FindLater(s, es, e);
      if k < |es| {
        OneMorePass(s[|es[k].code|..], es, e);
        Comparable(q, es[k].code, s);
        assert d[1..] == Decoded(s[|es[k].code|..], es);
      } else if q <= s {
        OneMorePass(s[|q|..], es, e);
        assert d[|q|..] == Decoded(s[|q|..], es);
      } else {
        OneMorePass(s[1..], es, e);
        assert d[1..] == Decoded(s[1..], es);
      }
    }
  }

  const GT := Entity("&gt;", '>')
  const LT := Entity("&lt;", '<')
  const QUOT := Entity("&quot;", '"')
  const APOS := Entity("&#039;", '\'')
  const AMP := Entity("&amp;", '&')

  lemma {:induction false} NothingDecoded(s: string)
    ensures Decoded(s, []) == s
  {
    if s != [] { NothingDecoded(s[1..]); }
  }

  lemma AreCodes()
    ensures Codes([GT, LT, QUOT, APOS, AMP])
  {
    assert GT.code[1..] == "gt;" && LT.code[1..] == "lt;" && AMP.code[1..] == "amp;";
    assert QUOT.code[1..] == "quot;" && APOS.code[1..] == "#039;";
  }

  /** Codes that differ in their second character cannot begin at the same place. */
  lemma DifferAtOnce(a: string, b: string)
    requires |a| > 1 && |b| > 1 && a[1] != b[1]
    ensures !(a <= b) && !(b <= a)
  {
  }

  /** What tells the entities apart: their second characters, and which characters they hold */
  lemma SecondCharacters()
    ensures |GT.code| > 1 && |LT.code| > 1 && |QUOT.code| > 1 && |APOS.code| > 1 && |AMP.code| > 1
    ensures GT.code[1] == 'g' && LT.code[1] == 'l' && QUOT.code[1] == 'q' && APOS.code[1] == '#' && AMP.code[1] == 'a'
  {
  }

  lemma ApartOne(q: string, es: seq<Entity>, e: Entity)
    requires Apart(q, es) && |q| > 1 && |e.code| > 1 && q[1] != e.code[1] && e.plain !in q
    ensures Apart(q, es + [e])
  {
    DifferAtOnce(q, e.code);
  }

  lemma EntitiesAreApart()
    ensures Apart(LT.code, [GT]) && Apart(QUOT.code, [GT, LT]) && Apart(APOS.code, [GT, LT, QUOT])
    ensures Apart(AMP.code, [GT, LT, QUOT, APOS])
  {
    hide Apart;
    SecondCharacters();
    assert [] + [GT] == [GT] && [GT] + [LT] == [GT, LT] && [GT, LT] + [QUOT] == [GT, LT, QUOT];
    assert [GT, LT, QUOT] + [APOS] == [GT, LT, QUOT, APOS];
    ApartNone(LT.code);
    ApartOne(LT.code, [], GT);
    ApartNone(QUOT.code);
    ApartOne(QUOT.code, [], GT);
    ApartOne(QUOT.code, [GT], LT);
    ApartNone(APOS.code);
    ApartOne(APOS.code, [], GT);
    ApartOne(APOS.code, [GT], LT);
    ApartOne(APOS.code, [GT, LT], QUOT);
    ApartNone(AMP.code);
    ApartOne(AMP.code, [], GT);
    ApartOne(AMP.code, [GT], LT);
    ApartOne(AMP.code, [GT, LT], QUOT);
    ApartOne(AMP.code, [GT, LT, QUOT], APOS);
  }

  lemma ApartNone(q: string)
    ensures Apart(q, [])
  {
  }

  /** On every string, the five passes do what one pass does that looks for all five entities at once. */
  lemma UnescapeIsOnePass(s: string)
    ensures Codes([GT, LT, QUOT, APOS, AMP])
    ensures HtmlUnescape(s) == Decoded(s, [GT, LT, QUOT, APOS, AMP])
    ensures [GT, LT, QUOT, APOS, AMP] == [Entity("&gt;", '>'), Entity("&lt;", '<'), Entity("&quot;", '"'),
                                          Entity("&#039;", '\''), Entity("&amp;", '&')]
  {
    EntitiesAreApart();
    AreCodes();
    NothingDecoded(s);
    var es := [GT, LT, QUOT, APOS, AMP];
    assert IsCode(es[0].code) && IsCode(es[1].code) && IsCode(es[2].code) && IsCode(es[3].code) && IsCode(es[4].code);
    assert [] + [GT] == [GT] && [GT] + [LT] == [GT, LT] && [GT, LT] + [QUOT] == [GT, LT, QUOT];
    assert [GT, LT, QUOT] + [APOS] == [GT, LT, QUOT, APOS];
    assert [GT, LT, QUOT, APOS] + [AMP] == [GT, LT, QUOT, APOS, AMP];
    PassIs(s, s, [], GT);
    var s1 := Join(Split(s, "&gt;"), ">");
    PassIs(s, s1, [GT], LT);
    var s2 := Join(Split(s1, "&lt;"), "<");
    PassIs(s, s2, [GT, LT], QUOT);
    var s3 := Join(Split(s2, "&quot;"), "\"");
    PassIs(s, s3, [GT, LT, QUOT], APOS);
    var s4 := Join(Split(s3, "&#039;"), "'");
    PassIs(s, s4, [GT, LT, QUOT, APOS], AMP);
  }

  lemma PassIs(s: string, t: string, es: seq<Entity>, e: Entity)
    requires Codes(es) && t == Decoded(s, es) && IsCode(e.code) && Apart(e.code, es)
    ensures Codes(es + [e]) && Join(Split(t, e.code), [e.plain]) == Decoded(s, es + [e])
  {
    SplitJoinReplaces(t, e.code, [e.plain]);
    OneMorePass(s, es, e);
  }

  lemma FindEscaped(c: char, quotes: bool, rest: string)
    ensures var es, code := [GT, LT, QUOT, APOS, AMP], EscapeChar(c, quotes);
            var k := Find(code + rest, es);
            if |code| == 1 then k == 5 else k < 5 && es[k].code == code && es[k].plain == c
  {
    var es, code := [GT, LT, QUOT, APOS, AMP], EscapeChar(c, quotes);
    var s := code + rest;
    var k := Find(s, es);
    assert s[0] == code[0];
    if |code| > 1 {
      var j := if c == '>' then 0 else if c == '<' then 1 else if c == '"' then 2 else if c == '\'' then 3 else 4;
      assert es[j].code == code && code <= s && s[1] == code[1];
      assert GT.code[1] == 'g' && LT.code[1] == 'l' && QUOT.code[1] == 'q' && APOS.code[1] == '#' && AMP.code[1] == 'a';
      assert k == j;
    }
  }

  /** One pass reads one escaped character as that character and goes on behind it. */
  lemma DecodedOnce(c: char, quotes: bool, rest: string)
    ensures Codes([GT, LT, QUOT, APOS, AMP])
    ensures var es := [GT, LT, QUOT, APOS, AMP];
            Decoded(EscapeChar(c, quotes) + rest, es) == [c] + Decoded(rest, es)
  {
    hide Find;
    AreCodes();
    FindEscaped(c, quotes, rest);
    var code := EscapeChar(c, quotes);
    assert (code + rest)[|code|..] == rest && (code + rest)[0] == code[0];
  }

  lemma {:induction false} DecodedInvertsEscaped(s: string, quotes: bool)
    ensures Codes([GT, LT, QUOT, APOS, AMP])
    ensures Decoded(Escaped(s, quotes), [GT, LT, QUOT, APOS, AMP]) == s
  {
    AreCodes();
    if s != [] {
      hide Decoded, EscapeChar;
      DecodedInvertsEscaped(s[1..], quotes);
      DecodedOnce(s[0], quotes, Escaped(s[1..], quotes));
    }
  }

  /** htmlUnescape undoes htmlEscape, with quotes escaped or not. */
  lemma UnescapeInvertsEscape(s: string, quotes: bool)
    ensures HtmlUnescape(Escaped(s, quotes)) == s
  {
    hide HtmlUnescape, Decoded, Escaped;
    UnescapeIsOnePass(Escaped(s, quotes));
    DecodedInvertsEscaped(s, quotes);
  }
}
