/** What parsing answers for every text: the layouts of documents are accepted, with the callbacks of the
    document, and for any other text an exception is thrown that says what is wrong. */
module XmlRoundTrip {
  import opened Optional
  import opened XmlMachine
  import opened XmlParser
  import opened XmlDocument
  import opened XmlLeads
  import opened XmlPrints
  import opened XmlErrors
  import opened XmlMistakes
  import opened XmlReads

  // ---------- the byte order mark ----------

  lemma MarkLength(text: string)
    ensures BomLength(text) <= |text| && Body(text) == text[BomLength(text)..]
    ensures BomLength(text) == if MARK <= text then 3 else 0
  {
    if |text| >= 3 {
      assert text[..3] == [text[0], text[1], text[2]];
      assert MARK <= text <==> text[..3] == MARK;
    }
  }

  lemma BodyStands(text: string)
    ensures At(text + [NUL], BomLength(text), Body(text)) && BomLength(text) + |Body(text)| == |text|
  {
    MarkLength(text);
    assert (text + [NUL])[BomLength(text)..|text|] == text[BomLength(text)..];
  }

  lemma TextIsCString(text: string)
    requires NoNul(text)
    ensures CString(text + [NUL])
  {
  }

  lemma MarkHasNoNul(text: string)
    requires NoNul(Body(text))
    ensures NoNul(text)
  {
    if MARK <= text {
      assert text == MARK + text[3..];
      assert forall i | 0 <= i < 3 :: text[i] == MARK[i];
      assert forall i | 3 <= i < |text| :: text[i] == Body(text)[i - 3];
    }
  }

  // ---------- what is accepted ----------

  lemma ParseItems(items: seq<Item>, text: string)
    requires WellAll(items) && ShowAll(items) == Body(text)
    ensures NoNul(text)
    ensures var o := ParseXml(text);
            o.Finished? && o.p == |text| && o.trace.events == ContentEvents(NodesOf(items))
  {
    hide Act, Run, ShowAll, WellAll, AllEvents, Subs, At, NodesOf, CString, Body, BomLength;
    ItemsNoNul(items);
    MarkHasNoNul(text);
    TextIsCString(text);
    BodyStands(text);
    var buf, p, t := text + [NUL], BomLength(text), Trace(0, [], []);
    StartBetween(buf, p);
    var n, u := ItemsLead(buf, None, Start(p), t, items);
    RunEnd(buf, None, n, u);
  }

  /** Parsing any layout of a document, behind a byte order mark or without one, consumes all of it and
      makes exactly the callbacks of the document, with one empty text if it has no content. */
  lemma ParsePrint(doc: seq<Node>, text: string)
    requires Prints(doc, Body(text))
    ensures NoNul(text)
    ensures var o := ParseXml(text);
            o.Finished? && o.p == |text| && o.trace.events == ContentEvents(doc)
  {
    hide WellAll, NodesOf, ShowAll, Body, ContentEvents;
    var items :| WellAll(items) && NodesOf(items) == doc && ShowAll(items) == Body(text);
    ParseItems(items, text);
  }

  // ---------- what is rejected ----------

  lemma MistakeStands(buf: string, p: nat, w: Wrong, after: string, all: string)
    requires At(buf, p, all) && p + |all| == |buf| - 1 && GoesWrong(w, after, all)
    ensures Stands(buf, p, w.path, w.items, w.mistake, after)
  {
    hide At, ShowPath, ShowAll, ShowMistake, IsMistake, WellPath, WellAll;
    FourParts(buf, p, ShowPath(w.path), ShowAll(w.items), ShowMistake(w.mistake), after);
  }

  /** A text that is laid out well up to a mistake is rejected with the exception for that mistake, at the
      place where it shows, however deep in the document that is. */
  lemma MistakeIsReported(w: Wrong, after: string, text: string)
    requires NoNul(text) && GoesWrong(w, after, Body(text))
    ensures var o := ParseXml(text);
            && o.Failed? && o.error == ErrorOf(w.mistake, Innermost(w.path, None))
            && o.p + |after| == |text| - if w.mistake.NotDocType? || w.mistake.NotComment? then 1 else 0
  {
    hide Act, Run, IsMistake, ShowAll, WellAll, ShowPath, WellPath, Body, BomLength, CString, At;
    TextIsCString(text);
    BodyStands(text);
    var buf, p := text + [NUL], BomLength(text);
    StartBetween(buf, p);
    MistakeStands(buf, p, w, after, Body(text));
    MistakeInPath(buf, None, Start(p), Trace(0, [], []), w.path, w.items, w.mistake, after);
  }

  lemma WholeText(buf: string, p: nat, s: string, rest: string)
    requires CString(buf) && At(buf, p, s) && At(buf, p, rest) && p + |rest| == |buf| - 1 && buf[p + |s|] == NUL
    ensures s == rest
  {
  }

  lemma WrongText(buf: string, p: nat, w: Wrong, text: string) returns (after: string)
    requires WrongAt(buf, None, p, w) && At(buf, p, text) && p + |text| == |buf| - 1
    ensures GoesWrong(w, after, text) && !w.mistake.OpenAtEnd?
  {
    hide ShowPath, ShowAll, ShowMistake, IsMistake, WellPath, WellAll;
    var shown := ShowPath(w.path) + ShowAll(w.items) + ShowMistake(w.mistake);
    ThreeJoin(buf, p, ShowPath(w.path), ShowAll(w.items), ShowMistake(w.mistake));
    after := After(buf, p + |shown|);
    assert buf[p..|buf| - 1] == buf[p..p + |shown|] + buf[p + |shown|..|buf| - 1];
  }

  /** Every text that does not end too early is a layout, or one up to a mistake. */
  lemma PrintedOrWrong(text: string) returns (items: seq<Item>, wrong: Option<Wrong>, after: string)
    requires NoNul(text) && (ParseXml(text).Failed? ==> !ParseXml(text).error.UnexpectedEnd?)
    ensures wrong.None? ==> WellAll(items) && ShowAll(items) == Body(text)
    ensures wrong.Some? ==> GoesWrong(wrong.value, after, Body(text)) && !wrong.value.mistake.OpenAtEnd?
  {
    hide Act, Run, ShowAll, WellAll, At, Body, BomLength, CString, WrongAt, GoesWrong;
    TextIsCString(text);
    BodyStands(text);
    var buf, p, t := text + [NUL], BomLength(text), Trace(0, [], []);
    StartBetween(buf, p);
    var lead, name, trail;
    items, lead, name, trail, wrong := ItemsRead(buf, None, Start(p), t);
    after := "";
    if wrong.Some? {
      after := WrongText(buf, p, wrong.value, Body(text));
    } else {
      WholeText(buf, p, ShowAll(items), Body(text));
    }
  }

  /** Whatever is parsed without an exception is a layout of some document. */
  lemma ParsedIsPrinted(text: string) returns (doc: seq<Node>)
    requires NoNul(text) && !ParseXml(text).Failed?
    ensures Prints(doc, Body(text))
  {
    hide ParseXml, ShowAll, WellAll, NodesOf, Body, GoesWrong;
    var items, wrong, after := PrintedOrWrong(text);
    if wrong.Some? {
      MistakeIsReported(wrong.value, after, text);
    }
    doc := NodesOf(items);
  }

  /** Whatever is rejected before its end shows one of the mistakes. */
  lemma RejectedIsWrong(text: string) returns (w: Wrong, after: string)
    requires NoNul(text) && ParseXml(text).Failed? && !ParseXml(text).error.UnexpectedEnd?
    ensures GoesWrong(w, after, Body(text)) && !w.mistake.OpenAtEnd?
  {
    hide ParseXml, ShowAll, WellAll, NodesOf, Body, GoesWrong;
    var items, wrong;
    items, wrong, after := PrintedOrWrong(text);
    if wrong.None? {
      ParseItems(items, text);
    }
    w := wrong.value;
  }

  /** The accepted texts are exactly the layouts of documents, and the callbacks are those of the
      document, whichever of its layouts was read. */
  lemma AcceptedIffPrinted(text: string)
    requires NoNul(text)
    ensures ParseXml(text).Finished? <==> exists doc :: Prints(doc, Body(text))
    ensures ParseXml(text).Failed? <==> !ParseXml(text).Finished?
    ensures forall doc | Prints(doc, Body(text)) :: ParseXml(text).trace.events == ContentEvents(doc)
  {
    hide ParseXml, Prints, Body, ContentEvents;
    if !ParseXml(text).Failed? {
      var doc := ParsedIsPrinted(text);
      ParsePrint(doc, text);
    }
    forall doc | Prints(doc, Body(text))
      ensures ParseXml(text).Finished? && ParseXml(text).trace.events == ContentEvents(doc)
    {
      ParsePrint(doc, text);
    }
  }

  /** The exceptions other than an unexpected end are thrown exactly for the texts with one of the mistakes,
      each for its own; what is left are the texts that end too early. */
  lemma RejectedIffWrong(text: string)
    requires NoNul(text)
    ensures ParseXml(text).Failed? && !ParseXml(text).error.UnexpectedEnd?
            <==> exists w, after :: GoesWrong(w, after, Body(text)) && !w.mistake.OpenAtEnd?
    ensures forall w, after | GoesWrong(w, after, Body(text)) ::
              ParseXml(text).Failed? && ParseXml(text).error == ErrorOf(w.mistake, Innermost(w.path, None))
  {
    hide ParseXml, GoesWrong, Body, Innermost;
    if ParseXml(text).Failed? && !ParseXml(text).error.UnexpectedEnd? {
      var w, after := RejectedIsWrong(text);
    }
    forall w, after | GoesWrong(w, after, Body(text))
      ensures ParseXml(text).Failed? && ParseXml(text).error == ErrorOf(w.mistake, Innermost(w.path, None))
    {
      MistakeIsReported(w, after, text);
    }
  }

  lemma NulIsLast(text: string, q: nat)
    requires NoNul(text) && q <= |text| && (text + [NUL])[q] == NUL
    ensures q == |text|
  {
    assert forall i | 0 <= i < |text| :: (text + [NUL])[i] == text[i];
  }

  /** All other texts end too early, and the exception says so, at their end. */
  lemma OthersEndTooEarly(text: string)
    requires NoNul(text)
    ensures ParseXml(text).Failed? && ParseXml(text).error.UnexpectedEnd?
            <==> !(exists doc :: Prints(doc, Body(text)))
                 && !(exists w, after :: GoesWrong(w, after, Body(text)) && !w.mistake.OpenAtEnd?)
    ensures ParseXml(text).Failed? && ParseXml(text).error.UnexpectedEnd? ==> ParseXml(text).p == |text|
  {
    hide Act, Run, GoesWrong, Prints, Body, BomLength;
    AcceptedIffPrinted(text);
    RejectedIffWrong(text);
    TextIsCString(text);
    BodyStands(text);
    StartBetween(text + [NUL], BomLength(text));
    RunEndsUnexpectedly(text + [NUL], None, Start(BomLength(text)), Trace(0, [], []));
    if ParseXml(text).Failed? && ParseXml(text).error.UnexpectedEnd? {
      NulIsLast(text, ParseXml(text).p);
    }
  }

  // ---------- there and back ----------

  /** A layout that begins with a byte order mark begins with a text that does. */
  lemma MarkedText(items: seq<Item>)
    requires WellAll(items) && MARK <= ShowAll(items)
    ensures items != [] && items[0].Words? && MARK <= items[0].text
  {
    hide Show, Well;
    var all := ShowAll(items);
    assert all[0] == MARK[0] && all[1] == MARK[1] && all[2] == MARK[2];
    if !items[0].Words? {
      BeginsWithAngle(items[0]);
    } else {
      WordsShow(items[0]);
      ItemsUnfold(items);
      ShortText(items[0].text, items[1..]);
    }
  }

  lemma ShortText(s: string, rest: seq<Item>)
    requires MARK <= s + ShowAll(rest) && (rest != [] ==> !rest[0].Words?)
    ensures MARK <= s
  {
    if |s| < 3 {
      var all := s + ShowAll(rest);
      assert all[0] == MARK[0] && all[1] == MARK[1] && all[2] == MARK[2];
      assert all[|s|] == ShowAll(rest)[0];
      BeginsWithAngle(rest[0]);
    } else {
      assert (s + ShowAll(rest))[..3] == s[..3];
    }
  }

  /** The document that is left when the parser has skipped a mark it took from the first text. */
  function Unmarked(items: seq<Item>): seq<Item>
    requires items != [] && items[0].Words? && MARK <= items[0].text
  {
    if |items[0].text| == 3 then items[1..] else [Words(items[0].text[3..])] + items[1..]
  }

  lemma ConsWords(s: string, rest: seq<Item>)
    ensures ShowAll([Words(s)] + rest) == s + ShowAll(rest)
    ensures AllEvents(NodesOf([Words(s)] + rest)) == [PcData(s)] + AllEvents(NodesOf(rest))
    ensures Subs(NodesOf([Words(s)] + rest)) == 1 + Subs(NodesOf(rest))
  {
    hide ShowAll, NodesOf, AllEvents, Subs;
    var all := [Words(s)] + rest;
    assert all[1..] == rest;
    WordsShow(all[0]);
    ItemsUnfold(all);
  }

  lemma WordsBehindMark(s: string)
    requires Well(Words(s)) && MARK <= s && |s| > 3
    ensures Well(Words(s[3..]))
  {
    assert forall c | c in s[3..] :: c in s;
  }

  lemma PrefixOfJoin(s: string, rest: string)
    requires MARK <= s
    ensures MARK <= s + rest && (s + rest)[3..] == s[3..] + rest
  {
    assert (s + rest)[..3] == s[..3];
  }

  lemma UnmarkedIsWell(items: seq<Item>)
    requires WellAll(items) && items != [] && items[0].Words? && MARK <= items[0].text
    ensures WellAll(Unmarked(items)) && ShowAll(Unmarked(items)) == Body(ShowAll(items)) && MARK <= ShowAll(items)
  {
    hide Show, Well, ShowAll;
    var s, rest := items[0].text, items[1..];
    assert items == [Words(s)] + rest;
    ConsWords(s, rest);
    PrefixOfJoin(s, ShowAll(rest));
    if |s| > 3 {
      ConsWords(s[3..], rest);
      assert Unmarked(items)[1..] == rest && Unmarked(items)[0] == Words(s[3..]);
      WordsBehindMark(s);
    } else {
      assert s[3..] + ShowAll(rest) == ShowAll(rest);
    }
  }

  lemma UnmarkedEvents(items: seq<Item>)
    requires WellAll(items) && items != [] && items[0].Words? && MARK <= items[0].text
    ensures ContentEvents(NodesOf(Unmarked(items))) != ContentEvents(NodesOf(items))
  {
    hide ShowAll, NodesOf, AllEvents, Subs;
    var s, rest := items[0].text, items[1..];
    assert items == [Words(s)] + rest;
    ConsWords(s, rest);
    var all := AllEvents(NodesOf(rest));
    assert ContentEvents(NodesOf(items)) == [PcData(s)] + all;
    if |s| > 3 {
      ConsWords(s[3..], rest);
      assert ContentEvents(NodesOf(Unmarked(items))) == [PcData(s[3..])] + all;
      assert ([PcData(s)] + all)[0] != ([PcData(s[3..])] + all)[0];
    } else if Subs(NodesOf(rest)) == 0 {
      EventsWithoutContent(NodesOf(rest));
      assert ([PcData(s)] + all)[0] == PcData(s);
    }
  }

  lemma EventsWithoutContent(ns: seq<Node>)
    requires Subs(ns) == 0
    ensures ContentEvents(ns) != []
    ensures ContentEvents(ns)[0] == PcData("") || !ContentEvents(ns)[0].PcData?
  {
    if ns != [] {
      assert Events(ns[0]) != [] && AllEvents(ns) == Events(ns[0]) + AllEvents(ns[1..]);
    }
  }

  /** Laying out and parsing give a document back exactly when the layout does not begin with a byte order
      mark, which the parser would take for one. */
  lemma RoundTrip(doc: seq<Node>, text: string)
    requires Prints(doc, text)
    ensures NoNul(text)
    ensures var o := ParseXml(text);
            && o.Finished? && o.p == |text|
            && (o.trace.events == ContentEvents(doc) <==> !(MARK <= text))
  {
    hide Act, Run, ShowAll, NodesOf, WellAll, AllEvents, Subs;
    var items :| WellAll(items) && NodesOf(items) == doc && ShowAll(items) == text;
    if MARK <= text {
      MarkedText(items);
      UnmarkedIsWell(items);
      UnmarkedEvents(items);
      ParseItems(Unmarked(items), text);
    } else {
      ParseItems(items, text);
    }
  }

  // ---------- the plain layout ----------

  function PlainAttributes(attrs: seq<(string, string)>): seq<Attribute> {
    seq(|attrs|, i requires 0 <= i < |attrs| => Attribute(" ", attrs[i].0, "", "", '"', attrs[i].1))
  }

  /** No blanks but one before each attribute, double quotes, and words in upper case */
  function Plain(n: Node): Item
    decreases n, 1
  {
    match n
    case Element(name, attrs, children) =>
      Paired("", name, PlainAttributes(attrs), "", PlainAll(children), "", name, "")
    case EmptyElement(name, attrs) => SelfClosed("", name, PlainAttributes(attrs), "")
    case Text(s) => Words(s)
    case CDataSection(s) => Section("", "CDATA", s)
    case CommentNode(s) => Remark("", s)
    case Header(s) => Instruction("", s)
    case DocTypeNode(s) => TypeSection("", "DOCTYPE", s)
  }

  function PlainAll(ns: seq<Node>): seq<Item>
    decreases ns, 0
  {
    if ns == [] then [] else [Plain(ns[0])] + PlainAll(ns[1..])
  }

  lemma {:induction false} PlainAttributesShow(attrs: seq<(string, string)>)
    ensures ShowAttributes(PlainAttributes(attrs)) == PrintAttrs(attrs) && Pairs(PlainAttributes(attrs)) == attrs
  {
    if attrs != [] {
      PlainAttributesShow(attrs[1..]);
      var all := PlainAttributes(attrs);
      assert all[1..] == PlainAttributes(attrs[1..]);
      assert ShowAttribute(all[0]) == PrintAttr(attrs[0]);
    }
  }

  lemma PlainAttributesWell(attrs: seq<(string, string)>)
    requires GoodAttrs(attrs)
    ensures WellAttributes(PlainAttributes(attrs))
  {
  }

  lemma SameItself(s: string)
    ensures SameUpToCase(s, s) && Blanks("")
  {
  }

  lemma {:induction false} PlainIsWell(n: Node)
    requires Good(n)
    ensures Well(Plain(n)) && NodeOf(Plain(n)) == n && Show(Plain(n)) == Print(n)
    decreases n, 1
  {
    hide Good, Well, Show, Print, Plain, NodeOf;
    if n.Element? {
      PlainElementIsWell(n);
    } else if n.EmptyElement? {
      PlainEmptyIsWell(n);
    } else {
      PlainSectionIsWell(n);
    }
  }

  lemma PlainEmptyIsWell(n: Node)
    requires Good(n) && n.EmptyElement?
    ensures Well(Plain(n)) && NodeOf(Plain(n)) == n && Show(Plain(n)) == Print(n)
  {
    hide GoodAttrs, WellAttributes, PlainAttributes, ShowAttributes, Pairs, PrintAttrs, Blanks, IsName;
    NothingBlank();
    PlainAttributesShow(n.attrs);
    PlainAttributesWell(n.attrs);
    PlainEmpty(n.name, PrintAttrs(n.attrs));
  }

  lemma PlainEmpty(name: string, attrs: string)
    ensures ("<" + "" + name + attrs + "") + "/>" == "<" + name + attrs + "/>"
  {
  }

  lemma OpeningWords()
    ensures "<" + "" + "![" + "CDATA" + "[" == "<![CDATA[" && "<" + "" + "!" + "DOCTYPE" == "<!DOCTYPE"
    ensures "<" + "" + "!--" == "<!--" && "<" + "" + "?" == "<?"
  {
  }

  lemma PlainSectionShows(n: Node)
    requires !n.Element? && !n.EmptyElement?
    ensures NodeOf(Plain(n)) == n && Show(Plain(n)) == Print(n)
  {
    OpeningWords();
  }

  lemma PlainSectionIsWell(n: Node)
    requires Good(n) && !n.Element? && !n.EmptyElement?
    ensures Well(Plain(n)) && NodeOf(Plain(n)) == n && Show(Plain(n)) == Print(n)
  {
    hide Blanks, SameUpToCase, FreeOf, NoNul, DocTypeDepth, Show, Print, NodeOf;
    SameItself("CDATA");
    SameItself("DOCTYPE");
    PlainSectionShows(n);
  }

  lemma {:induction false} PlainElementIsWell(n: Node)
    requires Good(n) && n.Element?
    ensures Well(Plain(n)) && NodeOf(Plain(n)) == n && Show(Plain(n)) == Print(n)
    decreases n, 0
  {
    hide GoodAttrs, WellAttributes, PlainAttributes, ShowAttributes, Pairs, PrintAttrs, Blanks, SameUpToCase;
    hide IsName, GoodAll, WellAll, ShowAll, PrintAll, NodesOf, PlainAll;
    SameItself(n.name);
    PlainAttributesShow(n.attrs);
    PlainAttributesWell(n.attrs);
    PlainAllIsWell(n.children);
    PlainElement(n.name, PrintAttrs(n.attrs), PrintAll(n.children));
  }

  lemma PlainElement(name: string, attrs: string, inner: string)
    ensures ("<" + "" + name + attrs + "") + ">" + inner + ("<" + "" + "/" + name + "" + ">")
         == "<" + name + attrs + ">" + inner + "</" + name + ">"
  {
  }

  lemma {:induction false} PlainAllIsWell(ns: seq<Node>)
    requires GoodAll(ns)
    ensures WellAll(PlainAll(ns)) && NodesOf(PlainAll(ns)) == ns && ShowAll(PlainAll(ns)) == PrintAll(ns)
    ensures ns != [] ==> PlainAll(ns) != [] && PlainAll(ns)[0].Words? == ns[0].Text?
    decreases ns, 0
  {
    hide Good, Well, Show, Print;
    if ns != [] {
      PlainIsWell(ns[0]);
      PlainAllIsWell(ns[1..]);
      assert PlainAll(ns)[1..] == PlainAll(ns[1..]);
      PlainKind(ns[0]);
    }
  }

  lemma PlainKind(n: Node)
    ensures Plain(n).Words? == n.Text?
  {
  }

  /** The plain print of a document is one of its layouts. */
  lemma PrintPrints(doc: seq<Node>)
    requires GoodAll(doc)
    ensures Prints(doc, PrintAll(doc))
  {
    PlainAllIsWell(doc);
  }

  // ---------- examples ----------

  /** A text of just the three bytes of the mark */
  lemma MarkIsTaken()
    ensures var s := "\U{EF}\U{BB}\U{BF}"; Prints([Text(s)], s) && NoNul(s) && ParseXml(s).trace.events == [PcData("")]
  {
    var s := "\U{EF}\U{BB}\U{BF}";
    var items: seq<Item> := [Words(s)];
    assert items[1..] == [] && ShowAll(items) == s + "" == s;
    NodesUnfold(items);
    assert NodesOf(items) == [Text(s)] + [];
    assert Well(items[0]) && WellAll(items);
    assert MARK <= s && Body(s) == "" == ShowAll([]);
    ParseItems([], s);
  }

  /** An element that an end tag closes is never done. */
  lemma ClosedNotDone()
    ensures NoNul("<a></a>") && ParseXml("<a></a>").trace.events == [Xml("a", map[]), PcData("")]
  {
    var doc: seq<Node> := [Element("a", [], [])];
    assert doc[1..] == [] && Print(doc[0]) == "<a></a>" && PrintAll(doc) == "<a></a>" + "" == "<a></a>";
    assert "<a></a>"[0] == '<';
    hide Act, Run;
    PrintPrints(doc);
    RoundTrip(doc, "<a></a>");
  }

  lemma OneNode(n: Node)
    ensures ContentEvents([n]) == Events(n) + if Subs([n]) == 0 then [PcData("")] else []
  {
    hide Events, Subs;
    assert [n][1..] == [] && AllEvents([]) == [];
    assert AllEvents([n]) == Events(n) + [];
  }

  lemma MarkupHasNoMark(text: string)
    requires text != "" && text[0] == '<'
    ensures Body(text) == text
  {
    assert MARK[0] != '<';
  }

  /** A layout of a single item */
  lemma OneItem(item: Item, text: string)
    requires Well(item) && Show(item) == text && text != "" && text[0] == '<'
    ensures NoNul(text) && ParseXml(text).Finished?
    ensures ParseXml(text).trace.events == Events(NodeOf(item)) + if Subs([NodeOf(item)]) == 0 then [PcData("")] else []
  {
    hide Well, Show, NodeOf, Events, Subs, ContentEvents, ParseXml, Body;
    var items: seq<Item> := [item];
    assert items[1..] == [] && ShowAll(items) == text + "" == text;
    NodesUnfold(items);
    assert NodesOf(items) == [NodeOf(item)] + [] == [NodeOf(item)];
    MarkupHasNoMark(text);
    ParseItems(items, text);
    OneNode(NodeOf(item));
  }

  /** Single quotes around a double quote, and a line break before the attribute */
  lemma SingleQuotes()
    ensures NoNul("<a\nb='\"'/>") && ParseXml("<a\nb='\"'/>").Finished?
    ensures ParseXml("<a\nb='\"'/>").trace.events == [Xml("a", map["b" := "\""]), Done]
  {
    hide Act, Run;
    var a := Attribute("\n", "b", "", "", '\'', "\"");
    var item := SelfClosed("", "a", [a], "");
    assert ShowAttribute(a) == "\nb='\"'" && [a][1..] == [] && ShowAttributes([a]) == ShowAttribute(a) + "";
    assert Show(item) == "<a\nb='\"'/>" && Well(item);
    var pairs := [("b", "\"")];
    assert Pairs([a]) == pairs && pairs[..0] == [] && AttrMap(pairs) == map["b" := "\""];
    hide Well, Show;
    OneItem(item, "<a\nb='\"'/>");
  }

  /** An end tag in the other case, and blanks where they may stand */
  lemma OtherCase()
    ensures NoNul("< A\t><\r/a >") && ParseXml("< A\t><\r/a >").Finished?
    ensures ParseXml("< A\t><\r/a >").trace.events == [Xml("A", map[]), PcData("")]
  {
    hide Act, Run;
    var item := Paired(" ", "A", [], "\t", [], "\r", "a", " ");
    assert Show(item) == "< A\t><\r/a >" && Well(item);
    hide Well, Show;
    OneItem(item, "< A\t><\r/a >");
  }

  lemma NamedInOtherCase(name: string, endName: string, text: string)
    requires IsName(name) && SameUpToCase(name, endName) && text == "<" + name + "></" + endName + ">"
    ensures NoNul(text) && ParseXml(text).Finished?
    ensures ParseXml(text).trace.events == [Xml(name, map[]), PcData("")]
  {
    hide Act, Run, IsName, SameUpToCase;
    var item := Paired("", name, [], "", [], "", endName, "");
    NothingBlank();
    assert ShowTag("", name, [], "") == "<" + name && ShowEnd("", endName, "") == "</" + endName + ">";
    assert Show(item) == "<" + name + ">" + "" + ("</" + endName + ">") == text;
    assert Well(item);
    hide Well, Show;
    OneItem(item, text);
  }

  /** A name of characters of every kind, and in the other case */
  lemma NameCharacters()
    ensures NoNul("<zZ:._-0></Zz:._-0>") && ParseXml("<zZ:._-0></Zz:._-0>").Finished?
    ensures ParseXml("<zZ:._-0></Zz:._-0>").trace.events == [Xml("zZ:._-0", map[]), PcData("")]
  {
    assert "<zZ:._-0></Zz:._-0>" == "<" + "zZ:._-0" + "></" + "Zz:._-0" + ">";
    assert IsName("zZ:._-0") && SameUpToCase("zZ:._-0", "Zz:._-0");
    hide ParseXml, NoNul, IsName, SameUpToCase;
    NamedInOtherCase("zZ:._-0", "Zz:._-0", "<zZ:._-0></Zz:._-0>");
  }

  /** A section whose word is in lower case */
  lemma LowerCase()
    ensures NoNul("<![cdata[x]]>") && ParseXml("<![cdata[x]]>").Finished?
    ensures ParseXml("<![cdata[x]]>").trace.events == [CDataText("x")]
  {
    hide Act, Run;
    var item := Section("", "cdata", "x");
    assert ("x" + "]]>")[0..][0] == 'x' && FreeOf("x", "]]>");
    assert Show(item) == "<![cdata[x]]>" && Well(item);
    hide Well, Show;
    OneItem(item, "<![cdata[x]]>");
  }

  /** Brackets that end a section may stand in its text. */
  lemma ThreeBrackets()
    ensures NoNul("<![CDATA[]]]>") && ParseXml("<![CDATA[]]]>").Finished?
    ensures ParseXml("<![CDATA[]]]>").trace.events == [CDataText("]")]
  {
    hide Act, Run;
    var item := Section("", "CDATA", "]");
    assert ("]" + "]]>")[0..][2] == ']' && FreeOf("]", "]]>");
    assert Show(item) == "<![CDATA[]]]>" && Well(item);
    hide Well, Show;
    OneItem(item, "<![CDATA[]]]>");
  }

  /** A header is reported as a comment, with its question marks, and is no content. */
  lemma HeaderIsComment()
    ensures NoNul("<?x?>") && ParseXml("<?x?>").Finished?
    ensures ParseXml("<?x?>").trace.events == [Comment("?x?"), PcData("")]
  {
    hide Act, Run;
    var item := Instruction("", "x");
    assert ("x" + "?>")[0..][0] == 'x' && FreeOf("x", "?>");
    assert Show(item) == "<?x?>" && Well(item) && "?" + "x" + "?" == "?x?";
    assert [NodeOf(item)][1..] == [];
    hide Well, Show;
    OneItem(item, "<?x?>");
  }

  /** A bracketed part of a document type may hold its terminator. */
  lemma BracketsInDocType()
    ensures NoNul("<!DOCTYPE[>]>") && ParseXml("<!DOCTYPE[>]>").Finished?
    ensures ParseXml("<!DOCTYPE[>]>").trace.events == [DocType("[>]"), PcData("")]
  {
    hide Act, Run;
    var item := TypeSection("", "DOCTYPE", "[>]");
    assert "[>]"[1..] == ">]" && ">]"[1..] == "]" && "]"[1..] == "";
    assert DocTypeDepth(0, "[>]") == DocTypeDepth(1, ">]") == DocTypeDepth(1, "]") == DocTypeDepth(0, "") == Some(0);
    assert Show(item) == "<!DOCTYPE[>]>" && Well(item);
    assert [NodeOf(item)][1..] == [];
    hide Well, Show;
    OneItem(item, "<!DOCTYPE[>]>");
  }

  lemma TwiceHead()
    ensures var head := Head("", "a", [Attribute(" ", "b", "", "", '\'', "1")], " ");
            (head.Text() == "<a b='1' " && head.Valid() && HasName(head.attrs, "b"))
  {
    var a := Attribute(" ", "b", "", "", '\'', "1");
    assert ShowAttribute(a) == " b='1'" && [a][1..] == [] && ShowAttributes([a]) == ShowAttribute(a) + "";
    assert [a][0].name == "b";
  }

  /** An attribute that comes twice */
  lemma TwiceTheSame()
    ensures NoNul("<a b='1' b=\"2\"/>")
    ensures var o := ParseXml("<a b='1' b=\"2\"/>"); o.Failed? && o.error == DuplicateAttribute && o.p == 10
  {
    hide Act, Run, Head.Text, Head.Valid, HasName;
    var head := Head("", "a", [Attribute(" ", "b", "", "", '\'', "1")], " ");
    TwiceHead();
    assert "<a b='1' " + "b" + "=\"2\"/>" == "<a b='1' b=\"2\"/>";
    assert Body("<a b='1' b=\"2\"/>") == "<a b='1' b=\"2\"/>" by { assert "<a b='1' b=\"2\"/>"[0] == '<'; }
    MistakeIsReported(Wrong([], [], InTag(head, Repeated("b"))), "=\"2\"/>", "<a b='1' b=\"2\"/>");
  }
}
