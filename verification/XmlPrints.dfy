/** Whatever lays out a document is read as the callbacks of the document. */
module XmlPrints {
  import opened Optional
  import opened XmlMachine
  import opened XmlParser
  import opened XmlDocument
  import opened XmlLeads

  /** Between nodes: looking for the next one, with all brackets closed. */
  ghost predicate Between(r: Regs) {
    r.state == BEGIN && r.nbrackets == 0
  }

  // ---------- sections ----------

  /** The parts of a section: what opens it, its text, its terminator */
  lemma SectionParts(buf: string, p: nat, lead: string, open: string, s: string, close: string)
    requires At(buf, p, "<" + lead + open + s + close) && open != [] && open[0] != NUL && !Blank(open[0])
    ensures At(buf, p, "<" + lead) && At(buf, p + 1 + |lead|, open) && At(buf, p + 1 + |lead| + |open|, s + close)
    ensures var q := p + 1 + |lead|; q < |buf| && buf[q] == open[0]
    ensures At(buf, p + 1 + |lead| + |open|, s) && At(buf, p + 1 + |lead| + |open| + |s|, close)
  {
    FourParts(buf, p, "<" + lead, open, s, close);
    assert "<" + lead + open + s + close == ("<" + lead + open) + (s + close);
    AtSplit(buf, p, "<" + lead + open, s + close);
    FirstChar(buf, p + 1 + |lead|, open);
  }

  lemma SectionItemLeads(buf: string, parent: Option<string>, r: Regs, t: Trace, lead: string, word: string, s: string)
      returns (n: Regs, u: Trace)
    requires CString(buf) && r.Valid(buf) && Between(r) && Well(Section(lead, word, s))
    requires At(buf, r.p, Show(Section(lead, word, s)))
    ensures Leads(buf, parent, r, t, n, u) && Between(n) && n.p == r.p + |Show(Section(lead, word, s))|
    ensures n.nsubs == r.nsubs + 1 && u.events == t.events + [CDataText(s)]
  {
    hide Act, Run, Regs.Valid, At, Blanks, SameUpToCase, FreeOf, Blank;
    assert Show(Section(lead, word, s)) == "<" + lead + ("![" + word + "[") + s + "]]>";
    BlankMarks();
    WordLength("CDATA", word);
    SectionParts(buf, r.p, lead, "![" + word + "[", s, "]]>");
    TextAt(buf, r.p + 9 + |lead|, s);
    n, u := AngleLeads(buf, parent, r, t, lead);
    n, u := CDataOpens(buf, parent, n, u, word);
    u := SectionLeads(buf, parent, n, u, s, "]]>");
    n, u := CDataCloses(buf, parent, n.(p := n.p + |s|), u);
  }

  lemma BlankMarks()
    ensures !Blank('!') && !Blank('?') && !Blank('/') && !Blank('>') && !NameChar('/') && !NameChar('>')
  {
  }

  lemma RemarkLeads(buf: string, parent: Option<string>, r: Regs, t: Trace, lead: string, s: string)
      returns (n: Regs, u: Trace)
    requires CString(buf) && r.Valid(buf) && Between(r) && Well(Remark(lead, s))
    requires At(buf, r.p, Show(Remark(lead, s)))
    ensures Leads(buf, parent, r, t, n, u) && Between(n) && n.p == r.p + |Show(Remark(lead, s))|
    ensures n.nsubs == r.nsubs && u.events == t.events + [Comment(s)]
  {
    hide Act, Run, Regs.Valid, At, Blanks, FreeOf, Blank;
    BlankMarks();
    SectionParts(buf, r.p, lead, "!--", s, "-->");
    TextAt(buf, r.p + 4 + |lead|, s);
    n, u := AngleLeads(buf, parent, r, t, lead);
    n, u := CommentOpens(buf, parent, n, u);
    u := SectionLeads(buf, parent, n, u, s, "-->");
    n, u := CommentCloses(buf, parent, n.(p := n.p + |s|), u);
  }

  lemma HeaderText(buf: string, p: nat, s: string)
    requires p > 0 && At(buf, p, "?") && At(buf, p + 1, s) && At(buf, p + 1 + |s|, "?>")
    ensures buf[p..p + 2 + |s|] == "?" + s + "?"
  {
    AtChars(buf, p, "?");
    AtChars(buf, p + 1 + |s|, "?>");
    assert buf[p + 0] == '?' && buf[p + 1 + |s| + 0] == '?';
  }

  lemma InstructionLeads(buf: string, parent: Option<string>, r: Regs, t: Trace, lead: string, s: string)
      returns (n: Regs, u: Trace)
    requires CString(buf) && r.Valid(buf) && Between(r) && Well(Instruction(lead, s))
    requires At(buf, r.p, Show(Instruction(lead, s)))
    ensures Leads(buf, parent, r, t, n, u) && Between(n) && n.p == r.p + |Show(Instruction(lead, s))|
    ensures n.nsubs == r.nsubs && u.events == t.events + [Comment("?" + s + "?")]
  {
    hide Act, Run, Regs.Valid, At, Blanks, FreeOf, Blank;
    BlankMarks();
    SectionParts(buf, r.p, lead, "?", s, "?>");
    HeaderText(buf, r.p + 1 + |lead|, s);
    n, u := AngleLeads(buf, parent, r, t, lead);
    n, u := HeaderOpens(buf, parent, n, u);
    u := SectionLeads(buf, parent, n, u, s, "?>");
    n, u := HeaderCloses(buf, parent, n.(p := n.p + |s|), u);
  }

  lemma TypeSectionOpens(buf: string, parent: Option<string>, r: Regs, t: Trace, lead: string, word: string, s: string)
      returns (n: Regs, u: Trace)
    requires CString(buf) && r.Valid(buf) && r.state == BEGIN && Blanks(lead) && SameUpToCase("DOCTYPE", word)
    requires At(buf, r.p, Show(TypeSection(lead, word, s)))
    ensures Leads(buf, parent, r, t, n, u) && u.events == t.events
    ensures n == r.(state := DOCTYPE, next := BEGIN_NODE, start := r.p + 9 + |lead|, p := r.p + 9 + |lead|)
    ensures At(buf, n.p, s) && At(buf, n.p + |s|, ">") && n.p + |s| + 1 == r.p + |Show(TypeSection(lead, word, s))|
  {
    hide Act, Run, Regs.Valid, At, Blanks, SameUpToCase, Blank;
    assert Show(TypeSection(lead, word, s)) == "<" + lead + ("!" + word) + s + ">";
    BlankMarks();
    SectionParts(buf, r.p, lead, "!" + word, s, ">");
    WordLength("DOCTYPE", word);
    n, u := AngleLeads(buf, parent, r, t, lead);
    n, u := DocTypeOpens(buf, parent, n, u, word);
  }

  lemma TypeSectionLeads(buf: string, parent: Option<string>, r: Regs, t: Trace, lead: string, word: string, s: string)
      returns (n: Regs, u: Trace)
    requires CString(buf) && r.Valid(buf) && Between(r) && Well(TypeSection(lead, word, s))
    requires At(buf, r.p, Show(TypeSection(lead, word, s)))
    ensures Leads(buf, parent, r, t, n, u) && Between(n) && n.p == r.p + |Show(TypeSection(lead, word, s))|
    ensures n.nsubs == r.nsubs && u.events == t.events + [DocType(s)]
  {
    hide Act, Run, Regs.Valid, At, Blanks, SameUpToCase, NoNul, Blank, DocTypeDepth;
    n, u := TypeSectionOpens(buf, parent, r, t, lead, word, s);
    TextAt(buf, n.p, s);
    LastChar(buf, n.p + |s|, '>');
    n, u := DocTypeLeads(buf, parent, n, u, s);
    n, u := DocTypeCloses(buf, parent, n, u);
  }

  lemma WordLength(full: string, word: string)
    requires SameUpToCase(full, word)
    ensures |word| == |full|
  {
  }

  // ---------- elements ----------

  lemma {:induction false} AttributesBegin(attrs: seq<Attribute>)
    requires WellAttributes(attrs) && attrs != []
    ensures ShowAttributes(attrs) != [] && Blank(ShowAttributes(attrs)[0])
  {
    var a := attrs[0];
    assert ShowAttribute(a)[0] == a.gap[0] && Blank(a.gap[0]);
  }

  /** After the name of a tag comes a blank or the end of the tag. */
  lemma AfterName(buf: string, p: nat, attrs: seq<Attribute>, trail: string, c: char)
    requires At(buf, p, ShowAttributes(attrs)) && At(buf, p + |ShowAttributes(attrs)|, trail)
    requires WellAttributes(attrs) && Blanks(trail) && buf[p + |ShowAttributes(attrs)| + |trail|] == c
    ensures buf[p] == c || Blank(buf[p])
  {
    hide ShowAttributes, WellAttributes, At, Blanks;
    if attrs == [] {
      NoAttributes();
      FirstOf(buf, p, trail, c);
    } else {
      AttributesBegin(attrs);
      FirstChar(buf, p, ShowAttributes(attrs));
    }
  }

  lemma NoAttributes()
    ensures ShowAttributes([]) == ""
  {
  }

  /** A start tag up to the character that ends it */
  lemma TagLeads(buf: string, parent: Option<string>, r: Regs, t: Trace, lead: string, name: string,
                 attrs: seq<Attribute>, trail: string)
      returns (n: Regs, u: Trace)
    requires CString(buf) && r.Valid(buf) && r.state == BEGIN && WellTag(lead, name, attrs, trail)
    requires At(buf, r.p, ShowTag(lead, name, attrs, trail))
    requires var q := r.p + |ShowTag(lead, name, attrs, trail)|; buf[q] == '>' || buf[q] == '/'
    ensures Leads(buf, parent, r, t, n, u) && u.events == t.events && SameCounts(r, n)
    ensures n.state == BODY && n.p == r.p + |ShowTag(lead, name, attrs, trail)|
    ensures n.nodename == name && n.attribs == AttrMap(Pairs(attrs))
  {
    hide Act, Run, Regs.Valid, At, Blanks, IsName, WellAttributes, ShowAttributes, AttrMap, Blank, NameChar;
    BlankMarks();
    n, u := OpenLeads(buf, parent, r, t, lead, name, attrs, trail);
    n, u := SkipLeads(buf, parent, n, u, trail);
  }

  /** A start tag up to the blanks after its attributes */
  lemma OpenLeads(buf: string, parent: Option<string>, r: Regs, t: Trace, lead: string, name: string,
                  attrs: seq<Attribute>, trail: string)
      returns (n: Regs, u: Trace)
    requires CString(buf) && r.Valid(buf) && r.state == BEGIN && WellTag(lead, name, attrs, trail)
    requires At(buf, r.p, ShowTag(lead, name, attrs, trail))
    requires var c := buf[r.p + |ShowTag(lead, name, attrs, trail)|];
             trail != [] || (c != NUL && !NameChar(c)) || attrs != []
    ensures Leads(buf, parent, r, t, n, u) && u.events == t.events && SameCounts(r, n)
    ensures n.state == IGNORE_SPACES && n.next == BODY && n.p + |trail| == r.p + |ShowTag(lead, name, attrs, trail)|
    ensures n.nodename == name && n.attribs == AttrMap(Pairs(attrs)) && At(buf, n.p, trail)
  {
    hide Act, Run, Regs.Valid, At, Blanks, IsName, WellAttributes, ShowAttributes, AttrMap;
    var ps := ShowAttributes(attrs);
    var q := r.p + 1 + |lead| + |name|;
    AtSplit(buf, r.p, "<" + lead + name + ps, trail);
    AtSplit(buf, r.p, "<" + lead + name, ps);
    NameStops(buf, q, attrs, trail);
    n, u := StartTagLeads(buf, parent, r, t, lead, name);
    NoPairs(attrs);
    n, u := AttrsLead(buf, parent, n, u, attrs, 0);
  }

  lemma NoPairs(attrs: seq<Attribute>)
    ensures AttrMap(Pairs(attrs)[..0]) == map[] && attrs[0..] == attrs
  {
  }

  /** What follows the name of a tag is no part of it. */
  lemma NameStops(buf: string, p: nat, attrs: seq<Attribute>, trail: string)
    requires At(buf, p, ShowAttributes(attrs)) && At(buf, p + |ShowAttributes(attrs)|, trail)
    requires WellAttributes(attrs) && Blanks(trail)
    requires var c := buf[p + |ShowAttributes(attrs)| + |trail|];
             trail != [] || (c != NUL && !NameChar(c)) || attrs != []
    ensures buf[p] != NUL && !NameChar(buf[p])
  {
    hide ShowAttributes, WellAttributes, At;
    TextAt(buf, p + |ShowAttributes(attrs)|, trail);
    AfterName(buf, p, attrs, trail, buf[p + |ShowAttributes(attrs)| + |trail|]);
    if attrs == [] {
      NoAttributes();
      if trail != [] { FirstChar(buf, p, trail); }
    } else {
      AttributesBegin(attrs);
      FirstChar(buf, p, ShowAttributes(attrs));
    }
  }

  lemma SelfClosedLeads(buf: string, parent: Option<string>, r: Regs, t: Trace, lead: string, name: string,
                        attrs: seq<Attribute>, trail: string)
      returns (n: Regs, u: Trace)
    requires CString(buf) && r.Valid(buf) && Between(r) && WellTag(lead, name, attrs, trail)
    requires At(buf, r.p, Show(SelfClosed(lead, name, attrs, trail)))
    ensures Leads(buf, parent, r, t, n, u) && Between(n)
    ensures n.p == r.p + |Show(SelfClosed(lead, name, attrs, trail))|
    ensures n.nsubs == r.nsubs + 1 && u.events == t.events + [Xml(name, AttrMap(Pairs(attrs))), Done]
  {
    hide Act, Run, Regs.Valid, At, AttrMap, WellTag, ShowTag;
    var tag := ShowTag(lead, name, attrs, trail);
    AtSplit(buf, r.p, tag, "/>");
    AtSplit(buf, r.p + |tag|, "/", ">");
    LastChar(buf, r.p + |tag|, '/');
    LastChar(buf, r.p + |tag| + 1, '>');
    n, u := TagLeads(buf, parent, r, t, lead, name, attrs, trail);
    n, u := SlashLeads(buf, parent, n, u);
    n, u := DoneLeads(buf, parent, n, u);
  }

  /** The parts of an element that an end tag closes */
  lemma PairedParts(buf: string, p: nat, tag: string, inner: string, end: string)
    requires At(buf, p, tag + ">" + inner + end) && end != []
    ensures At(buf, p, tag) && buf[p + |tag|] == '>' && At(buf, p + |tag| + 1, inner)
    ensures At(buf, p + |tag| + 1 + |inner|, end) && buf[p + |tag| + 1 + |inner|] == end[0]
    ensures p + |tag| + 1 < |buf| - 1
  {
    FourParts(buf, p, tag, ">", inner, end);
    LastChar(buf, p + |tag|, '>');
    FirstChar(buf, p + |tag| + 1 + |inner|, end);
  }

  lemma NotNul(buf: string, p: nat)
    requires CString(buf) && p < |buf| - 1
    ensures buf[p] != NUL
  {
  }

  lemma EndBegins(lead: string, name: string, trail: string)
    ensures ShowEnd(lead, name, trail) != [] && ShowEnd(lead, name, trail)[0] == '<'
  {
  }

  /** A whole element; its children are read by an activation of their own. */
  lemma {:induction false} PairedLeads(buf: string, parent: Option<string>, r: Regs, t: Trace, item: Item)
      returns (n: Regs, u: Trace)
    requires CString(buf) && r.Valid(buf) && Between(r) && item.Paired? && Well(item)
    requires At(buf, r.p, Show(item))
    ensures Leads(buf, parent, r, t, n, u) && Between(n)
    ensures n.p == r.p + |Show(item)| && n.nsubs == r.nsubs + 1
    ensures u.events == t.events + [Xml(item.name, AttrMap(Pairs(item.attrs)))] + ContentEvents(NodesOf(item.content))
    decreases item, 2
  {
    hide Act, Run, Regs.Valid, At, AttrMap, WellTag, WellEnd, ShowTag, ShowEnd, ShowAll, AllEvents, Subs, IsName;
    var Paired(lead, name, attrs, trail, content, endLead, endName, endTrail) := item;
    var tag, inner, end := ShowTag(lead, name, attrs, trail), ShowAll(content), ShowEnd(endLead, endName, endTrail);
    EndBegins(endLead, endName, endTrail);
    PairedParts(buf, r.p, tag, inner, end);
    TagNamed(lead, name, attrs, trail);
    n, u := TagLeads(buf, parent, r, t, lead, name, attrs, trail);
    n, u := ChildsLeads(buf, parent, n, u);
    NotNul(buf, n.p);
    StartBetween(buf, n.p);
    var k, v := ItemsLead(buf, Some(name), Start(n.p), u, content);
    EndTagReturns(buf, name, k, v, endLead, endName, endTrail);
    n, u := ChildEnds(buf, parent, n, u);
  }

  lemma TagNamed(lead: string, name: string, attrs: seq<Attribute>, trail: string)
    requires WellTag(lead, name, attrs, trail)
    ensures IsName(name)
  {
  }

  lemma StartBetween(buf: string, p: nat)
    requires p < |buf|
    ensures Start(p).Valid(buf) && Between(Start(p)) && Start(p).nsubs == 0
  {
  }

  lemma ChildDescends(buf: string, parent: Option<string>, r: Regs)
    requires CString(buf) && r.Valid(buf) && r.state == CHILDS && buf[r.p] != NUL
    ensures Act(buf, parent, r).Descend?
  {
  }

  /** The child activation returns at its closing bracket and the parent goes on after it. */
  lemma ChildEnds(buf: string, parent: Option<string>, r: Regs, t: Trace) returns (n: Regs, u: Trace)
    requires CString(buf) && r.Valid(buf) && r.state == CHILDS && buf[r.p] != NUL
    requires Start(r.p).Valid(buf) && Run(buf, Some(r.nodename), Start(r.p), t).Returned?
    ensures var child := Run(buf, Some(r.nodename), Start(r.p), t);
            && Leads(buf, parent, r, t, n, u) && u.events == child.trace.events
            && n == Resume(r, child.p)
  {
    ChildDescends(buf, parent, r);
    hide Act, Regs.Valid;
    var child := Run(buf, Some(r.nodename), Start(r.p), t);
    RunChild(buf, parent, r, t);
    n, u := Resume(r, child.p), Ticked(child.trace, Tick(buf, child.p + 1));
  }

  /** Text up to a less-than sign or the end of the whole is as good as read. */
  lemma WordsLead(buf: string, parent: Option<string>, r: Regs, t: Trace, s: string)
      returns (n: Regs, u: Trace)
    requires CString(buf) && r.Valid(buf) && Between(r)
    requires At(buf, r.p, s) && Well(Words(s))
    requires buf[r.p + |s|] == '<' || (buf[r.p + |s|] == NUL && parent.None?)
    ensures Leads(buf, parent, r, t, n, u) && Between(n) && n.p == r.p + |s|
    ensures n.nsubs == r.nsubs + 1 && u.events == t.events + [PcData(s)]
  {
    hide Act, Run;
    AtChars(buf, r.p, s);
    assert buf[r.p + 0] == s[0] && s[0] in s;
    var m, v := TextBegins(buf, parent, r, t);
    v := TextIdles(buf, parent, m, v, s);
    m := m.(p := m.p + |s|);
    n, u := m.(state := BEGIN, nsubs := m.nsubs + 1), v.(events := v.events + [PcData(s)]);
    if buf[m.p] == '<' {
      TextEndsAtTag(buf, parent, m, v);
    } else {
      TextEndsAtNul(buf, m, v);
    }
  }

  // ---------- whole documents ----------

  /** One item other than text */
  lemma {:induction false} ItemLeads(buf: string, parent: Option<string>, r: Regs, t: Trace, item: Item)
      returns (n: Regs, u: Trace)
    requires CString(buf) && r.Valid(buf) && Between(r) && Well(item) && !item.Words?
    requires At(buf, r.p, Show(item))
    ensures Leads(buf, parent, r, t, n, u) && Between(n) && n.p == r.p + |Show(item)|
    ensures n.nsubs == r.nsubs + Subs([NodeOf(item)]) && u.events == t.events + Events(NodeOf(item))
    decreases item, 3
  {
    hide Act, Run, Regs.Valid, At, AttrMap, AllEvents, FreeOf, DocTypeDepth, Well, Show, ContentEvents;
    hide Leads, Between, WellAll, NoNul, CString, WellTag;
    assert [NodeOf(item)][1..] == [];
    match item
    case Paired(_, _, _, _, _, _, _, _) => n, u := PairedLeads(buf, parent, r, t, item);
    case SelfClosed(lead, name, attrs, trail) =>
      SelfClosedIsWell(item);
      n, u := SelfClosedLeads(buf, parent, r, t, lead, name, attrs, trail);
    case Section(lead, word, s) => n, u := SectionItemLeads(buf, parent, r, t, lead, word, s);
    case Remark(lead, s) => n, u := RemarkLeads(buf, parent, r, t, lead, s);
    case Instruction(lead, s) => n, u := InstructionLeads(buf, parent, r, t, lead, s);
    case TypeSection(lead, word, s) => n, u := TypeSectionLeads(buf, parent, r, t, lead, word, s);
  }

  lemma SelfClosedIsWell(item: Item)
    requires item.SelfClosed? && Well(item)
    ensures WellTag(item.lead, item.name, item.attrs, item.trail)
  {
  }

  /** Text that ends here is reported. */
  predicate TextMayEnd(buf: string, parent: Option<string>, q: nat)
    requires q < |buf|
  {
    buf[q] == '<' || (buf[q] == NUL && parent.None?)
  }

  /** A sequence of items, up to markup or the end of the whole text. */
  lemma {:induction false} ItemsLead(buf: string, parent: Option<string>, r: Regs, t: Trace, items: seq<Item>)
      returns (n: Regs, u: Trace)
    requires CString(buf) && r.Valid(buf) && Between(r) && WellAll(items)
    requires At(buf, r.p, ShowAll(items))
    requires TextMayEnd(buf, parent, r.p + |ShowAll(items)|) || !EndsInWords(items)
    ensures Leads(buf, parent, r, t, n, u) && Between(n) && n.p == r.p + |ShowAll(items)|
    ensures n.nsubs == r.nsubs + Subs(NodesOf(items)) && u.events == t.events + AllEvents(NodesOf(items))
    decreases items, 1
  {
    hide Act, Run, Regs.Valid, At, Show, Events, ShowAll, AllEvents, WellAll, Well, Subs, Between, CString, NodesOf, NodeOf;
    TextAt(buf, r.p, ShowAll(items));
    ItemsUnfold(items);
    if items == [] {
      n, u := r, t;
    } else {
      var k, v;
      AtSplit(buf, r.p, Show(items[0]), ShowAll(items[1..]));
      if items[0].Words? {
        WordsShow(items[0]);
        WordsStop(buf, r.p + |items[0].text|, items[1..]);
        ItemsUnfold(items[1..]);
        k, v := WordsLead(buf, parent, r, t, items[0].text);
      } else {
        k, v := ItemLeads(buf, parent, r, t, items[0]);
      }
      n, u := ItemsLead(buf, parent, k, v, items[1..]);
      EventsJoin(t.events, Events(NodeOf(items[0])), AllEvents(NodesOf(items[1..])));
    }
  }

  lemma EventsJoin(a: seq<Event>, b: seq<Event>, c: seq<Event>)
    ensures a + b + c == a + (b + c)
  {
  }

  lemma NodesUnfold(items: seq<Item>)
    requires items != []
    ensures NodesOf(items) == [NodeOf(items[0])] + NodesOf(items[1..])
    ensures NodesOf(items)[0] == NodeOf(items[0]) && NodesOf(items)[1..] == NodesOf(items[1..])
  {
    hide NodeOf;
  }

  lemma EventsUnfold(n: Node, rest: seq<Node>)
    ensures AllEvents([n] + rest) == Events(n) + AllEvents(rest)
    ensures Subs([n] + rest) == Subs([n]) + Subs(rest)
  {
    hide Events;
    assert ([n] + rest)[0] == n && ([n] + rest)[1..] == rest && [n][1..] == [];
  }

  lemma ItemsUnfold(items: seq<Item>)
    ensures items == [] ==> ShowAll(items) == "" && AllEvents(NodesOf(items)) == [] && Subs(NodesOf(items)) == 0
    ensures items != [] ==> ShowAll(items) == Show(items[0]) + ShowAll(items[1..])
    ensures items != [] ==>
              AllEvents(NodesOf(items)) == Events(NodeOf(items[0])) + AllEvents(NodesOf(items[1..]))
    ensures items != [] ==> Subs(NodesOf(items)) == Subs([NodeOf(items[0])]) + Subs(NodesOf(items[1..]))
    ensures items != [] && WellAll(items) ==> Well(items[0]) && WellAll(items[1..])
    ensures |items| > 1 && WellAll(items) && items[0].Words? ==> !items[1].Words?
  {
    hide Show, Well, NodeOf, Events;
    if items != [] {
      NodesUnfold(items);
      EventsUnfold(NodeOf(items[0]), NodesOf(items[1..]));
    }
  }

  lemma WordsShow(item: Item)
    requires item.Words?
    ensures Show(item) == item.text && Events(NodeOf(item)) == [PcData(item.text)] && Subs([NodeOf(item)]) == 1
    ensures Well(item) ==> Well(Words(item.text)) && item.text != []
  {
    assert [NodeOf(item)][1..] == [];
  }

  /** An item other than text begins with an angle bracket. */
  lemma BeginsWithAngle(item: Item)
    requires !item.Words?
    ensures Show(item) != [] && Show(item)[0] == '<'
  {
  }

  /** After a text comes markup, or the end of the sequence. */
  lemma WordsStop(buf: string, p: nat, rest: seq<Item>)
    requires At(buf, p, ShowAll(rest)) && (rest != [] ==> !rest[0].Words?)
    ensures rest != [] ==> buf[p] == '<'
  {
    if rest != [] {
      BeginsWithAngle(rest[0]);
      FirstChar(buf, p, ShowAll(rest));
    }
  }

  // ---------- no terminator inside ----------

  lemma NoNulJoin(a: string, b: string)
    requires NoNul(a) && NoNul(b)
    ensures NoNul(a + b)
  {
  }

  lemma NoNulFour(a: string, b: string, c: string, d: string)
    requires NoNul(a) && NoNul(b) && NoNul(c) && NoNul(d)
    ensures NoNul(a + b + c + d)
  {
    hide NoNul;
    NoNulJoin(a, b);
    NoNulJoin(a + b, c);
    NoNulJoin(a + b + c, d);
  }

  lemma BlanksNoNul(s: string)
    ensures Blanks(s) || IsName(s) ==> NoNul(s)
  {
  }

  lemma AttributeNoNul(a: Attribute)
    requires WellAttribute(a)
    ensures NoNul(ShowAttribute(a))
  {
    hide NoNul, Blanks, IsName;
    BlanksNoNul(a.gap);
    BlanksNoNul(a.name);
    BlanksNoNul(a.before);
    BlanksNoNul(a.after);
    MarksNoNul();
    NoNulFour(a.gap, a.name, a.before, "=");
    NoNulFour(a.gap + a.name + a.before + "=", a.after, [a.quote], a.value);
    NoNulJoin(a.gap + a.name + a.before + "=" + a.after + [a.quote] + a.value, [a.quote]);
  }

  lemma MarksNoNul()
    ensures NoNul("<") && NoNul(">") && NoNul("/") && NoNul("/>") && NoNul("=") && NoNul(['"']) && NoNul(['\''])
    ensures NoNul("![") && NoNul("[") && NoNul("]]>") && NoNul("!--") && NoNul("-->") && NoNul("?") && NoNul("?>")
    ensures NoNul("!")
  {
  }

  lemma {:induction false} AttributesNoNul(attrs: seq<Attribute>)
    requires forall i | 0 <= i < |attrs| :: WellAttribute(attrs[i])
    ensures NoNul(ShowAttributes(attrs))
  {
    hide NoNul, WellAttribute, ShowAttribute;
    if attrs == [] {
      NothingNoNul();
    } else {
      AttributeNoNul(attrs[0]);
      AttributesNoNul(attrs[1..]);
      NoNulJoin(ShowAttribute(attrs[0]), ShowAttributes(attrs[1..]));
    }
  }

  lemma NothingNoNul()
    ensures NoNul("")
  {
  }

  lemma TagNoNul(lead: string, name: string, attrs: seq<Attribute>, trail: string)
    requires WellTag(lead, name, attrs, trail)
    ensures NoNul(ShowTag(lead, name, attrs, trail))
  {
    hide NoNul, Blanks, IsName, ShowAttributes, WellAttribute;
    MarksNoNul();
    BlanksNoNul(lead);
    BlanksNoNul(name);
    BlanksNoNul(trail);
    AttributesNoNul(attrs);
    NoNulFour("<", lead, name, ShowAttributes(attrs));
    NoNulJoin("<" + lead + name + ShowAttributes(attrs), trail);
  }

  lemma EndNoNul(start: string, lead: string, name: string, trail: string)
    requires IsName(start) && WellEnd(start, lead, name, trail)
    ensures NoNul(ShowEnd(lead, name, trail))
  {
    hide NoNul, Blanks, IsName, SameUpToCase;
    MarksNoNul();
    SameIsName(start, name);
    BlanksNoNul(lead);
    BlanksNoNul(name);
    BlanksNoNul(trail);
    NoNulFour("<", lead, "/", name);
    NoNulJoin("<" + lead + "/" + name, trail);
    NoNulJoin("<" + lead + "/" + name + trail, ">");
  }

  lemma WordNoNul(word: string)
    requires SameUpToCase("CDATA", word) || SameUpToCase("DOCTYPE", word)
    ensures NoNul(word)
  {
    var full := if SameUpToCase("CDATA", word) then "CDATA" else "DOCTYPE";
    assert forall i | 0 <= i < |full| :: SameLetter(full[i], word[i]) && full[i] != NUL;
  }

  lemma FreeNoNul(s: string, terminator: string)
    requires FreeOf(s, terminator)
    ensures NoNul(s)
  {
  }

  lemma SectionNoNul(item: Item)
    requires Well(item) && (item.Section? || item.Remark? || item.Instruction? || item.TypeSection?)
    ensures NoNul(Show(item))
  {
    hide NoNul, Blanks, SameUpToCase, FreeOf, DocTypeDepth;
    MarksNoNul();
    BlanksNoNul(item.lead);
    match item
    case Section(lead, word, s) =>
      FreeNoNul(s, "]]>");
      WordNoNul(word);
      NoNulFour("<", lead, "![", word);
      NoNulFour("<" + lead + "![" + word, "[", s, "]]>");
    case Remark(lead, s) =>
      FreeNoNul(s, "-->");
      NoNulFour("<", lead, "!--", s);
      NoNulJoin("<" + lead + "!--" + s, "-->");
    case Instruction(lead, s) =>
      FreeNoNul(s, "?>");
      NoNulFour("<", lead, "?", s);
      NoNulJoin("<" + lead + "?" + s, "?>");
    case TypeSection(lead, word, s) =>
      WordNoNul(word);
      NoNulFour("<", lead, "!", word);
      NoNulJoin("<" + lead + "!" + word, s);
      NoNulJoin("<" + lead + "!" + word + s, ">");
  }

  lemma {:induction false} ItemNoNul(item: Item)
    requires Well(item)
    ensures NoNul(Show(item))
    decreases item, 1
  {
    hide NoNul, WellTag, WellEnd, ShowTag, ShowEnd, ShowAll, WellAll, FreeOf, SameUpToCase, DocTypeDepth, IsName;
    MarksNoNul();
    match item
    case Paired(lead, name, attrs, trail, content, endLead, endName, endTrail) =>
      TagNamed(lead, name, attrs, trail);
      TagNoNul(lead, name, attrs, trail);
      ItemsNoNul(content);
      EndNoNul(name, endLead, endName, endTrail);
      NoNulFour(ShowTag(lead, name, attrs, trail), ">", ShowAll(content), ShowEnd(endLead, endName, endTrail));
    case SelfClosed(lead, name, attrs, trail) =>
      TagNoNul(lead, name, attrs, trail);
      NoNulJoin(ShowTag(lead, name, attrs, trail), "/>");
    case Words(s) =>
    case _ => SectionNoNul(item);
  }

  lemma {:induction false} ItemsNoNul(items: seq<Item>)
    requires WellAll(items)
    ensures NoNul(ShowAll(items))
    decreases items, 0
  {
    hide NoNul, Show, Well;
    if items == [] {
      NothingNoNul();
    } else {
      ItemNoNul(items[0]);
      ItemsNoNul(items[1..]);
      NoNulJoin(Show(items[0]), ShowAll(items[1..]));
    }
  }
}
