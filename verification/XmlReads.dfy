/** What every run reads, unless the text ends too early: a layout, or a layout up to a mistake. */
module XmlReads {
  import opened Optional
  import opened XmlMachine
  import opened XmlParser
  import opened XmlDocument
  import opened XmlErrors
  import opened XmlLeads
  import opened XmlMistakes
  import opened XmlPrints

  /** The run does not come to an unexpected end of the text. */
  ghost predicate Lives(buf: string, parent: Option<string>, r: Regs, t: Trace) {
    && CString(buf) && r.Valid(buf) && r.p < |buf|
    && (Run(buf, parent, r, t).Failed? ==> !Run(buf, parent, r, t).error.UnexpectedEnd?)
  }

  lemma LeadsLives(buf: string, parent: Option<string>, r: Regs, t: Trace, n: Regs, u: Trace)
    requires Lives(buf, parent, r, t) && Leads(buf, parent, r, t, n, u)
    ensures Lives(buf, parent, n, u)
  {
  }

  lemma LivesMeans(buf: string, parent: Option<string>, r: Regs, t: Trace)
    requires Lives(buf, parent, r, t)
    ensures CString(buf) && r.Valid(buf) && r.p < |buf|
  {
  }

  /** Only text may stand at the end, and only outside all elements. */
  lemma LivesAtEnd(buf: string, parent: Option<string>, r: Regs, t: Trace)
    requires Lives(buf, parent, r, t) && buf[r.p] == NUL
    ensures parent.None? && (r.state == BEGIN || r.state == PCDATA)
  {
    RunEnd(buf, parent, r, t);
  }

  /** The text from q on */
  function After(buf: string, q: nat): string
    requires q < |buf|
  {
    buf[q..|buf| - 1]
  }

  lemma AfterStands(buf: string, q: nat)
    requires CString(buf) && q < |buf|
    ensures Rest(buf, q, After(buf, q)) && First(After(buf, q)) == buf[q]
    ensures forall i | 0 <= i < |After(buf, q)| :: After(buf, q)[i] == buf[q + i]
  {
  }

  lemma AfterFirst(buf: string, q: nat)
    requires CString(buf) && q < |buf|
    ensures First(After(buf, q)) == buf[q]
  {
    AfterStands(buf, q);
  }

  lemma AtJoin(buf: string, p: nat, a: string, b: string)
    requires At(buf, p, a) && At(buf, p + |a|, b)
    ensures At(buf, p, a + b)
  {
    assert buf[p..p + |a + b|] == buf[p..p + |a|] + buf[p + |a|..p + |a + b|];
  }

  // ---------- blanks and names ----------

  lemma BlanksFrom(buf: string, p: nat) returns (gap: string)
    requires CString(buf) && p < |buf|
    ensures At(buf, p, gap) && Blanks(gap) && !Blank(buf[p + |gap|])
  {
    var q := p;
    while Blank(buf[q])
      invariant p <= q < |buf| && forall i | p <= i < q :: Blank(buf[i])
      decreases |buf| - q
    {
      q := q + 1;
    }
    gap := buf[p..q];
    Slice(buf, p, q);
  }

  lemma NameFrom(buf: string, p: nat) returns (name: string)
    requires CString(buf) && p < |buf|
    ensures At(buf, p, name) && (name != [] ==> IsName(name)) && !NameChar(buf[p + |name|])
  {
    var q := p;
    while NameChar(buf[q])
      invariant p <= q < |buf| && forall i | p <= i < q :: NameChar(buf[i])
      decreases |buf| - q
    {
      q := q + 1;
    }
    name := buf[p..q];
    Slice(buf, p, q);
  }

  /** What is skipped are blanks, and something follows. */
  lemma SkipRead(buf: string, parent: Option<string>, r: Regs, t: Trace) returns (gap: string, n: Regs, u: Trace)
    requires Lives(buf, parent, r, t) && r.state == IGNORE_SPACES
    ensures At(buf, r.p, gap) && Blanks(gap)
    ensures n == r.(p := r.p + |gap|, state := r.next) && Lives(buf, parent, n, u)
    ensures Leads(buf, parent, r, t, n, u) && buf[n.p] != NUL && !Blank(buf[n.p])
  {
    hide Act, Run, Regs.Valid, Blank, Blanks;
    gap := BlanksFrom(buf, r.p);
    u := BlanksLead(buf, parent, r, t, gap);
    n := r.(p := r.p + |gap|);
    LeadsLives(buf, parent, r, t, n, u);
    if buf[n.p] == NUL { LivesAtEnd(buf, parent, n, u); }
    n, u := BlanksEnd(buf, parent, n, u);
    LeadsLives(buf, parent, r, t, n, u);
  }

  /** The name that such a state collects, which something follows; there may be none. */
  lemma NameRead(buf: string, parent: Option<string>, r: Regs, t: Trace) returns (name: string, n: Regs, u: Trace)
    requires Lives(buf, parent, r, t) && (r.state.TAG_NAME? || r.state.ATTRIB_NAME? || r.state.CLOSE?) && r.start <= r.p
    ensures At(buf, r.p, name) && (name != "" ==> IsName(name)) && buf[r.p..r.p + |name|] == name
    ensures n == r.(p := r.p + |name|) && Lives(buf, parent, n, u)
    ensures Leads(buf, parent, r, t, n, u) && EndsName(buf[n.p])
  {
    hide Act, Run, Regs.Valid, IsName, NameChar, Idle;
    name := NameFrom(buf, r.p);
    forall i: nat | r.p <= i < r.p + |name|
      ensures Idle(buf, r.(p := i))
    {
      NameIdles(buf, r, name, i);
    }
    u := IdleLeads(buf, parent, r, t, r.p + |name|);
    n := r.(p := r.p + |name|);
    LeadsLives(buf, parent, r, t, n, u);
    if buf[n.p] == NUL { LivesAtEnd(buf, parent, n, u); }
  }

  // ---------- attributes ----------

  /** How far a state passes over characters */
  lemma IdleScan(buf: string, r: Regs) returns (q: nat)
    requires CString(buf) && r.p < |buf| && r.start < |buf|
    ensures r.p <= q < |buf| && !Idle(buf, r.(p := q)) && forall i: nat | r.p <= i < q :: Idle(buf, r.(p := i))
  {
    hide Idle;
    q := r.p;
    while Idle(buf, r.(p := q))
      invariant r.p <= q < |buf| && forall i: nat | r.p <= i < q :: Idle(buf, r.(p := i))
      decreases |buf| - q
    {
      IdleHasChar(buf, r.(p := q));
      q := q + 1;
    }
  }

  lemma ValueIs(buf: string, r: Regs, q: nat)
    requires CString(buf) && r.state == ATTRIB_VAL && r.p <= q < |buf| && r.start < |buf|
    requires forall i: nat | r.p <= i < q :: Idle(buf, r.(p := i))
    ensures NoNul(buf[r.p..q]) && buf[r.start] !in buf[r.p..q]
  {
    Slice(buf, r.p, q);
    forall i: nat | i < q - r.p
      ensures buf[r.p..q][i] != NUL && buf[r.p..q][i] != buf[r.start]
    {
      assert Idle(buf, r.(p := r.p + i));
    }
  }

  lemma ValueEnds(buf: string, r: Regs)
    requires CString(buf) && r.state == ATTRIB_VAL && r.p < |buf| && r.start < |buf| && !Idle(buf, r)
    ensures buf[r.p] == NUL || buf[r.p] == buf[r.start]
  {
  }

  lemma ValueRead(buf: string, parent: Option<string>, r: Regs, t: Trace) returns (value: string)
    requires Lives(buf, parent, r, t) && r.state == ATTRIB_VAL && r.start + 1 == r.p
    ensures At(buf, r.p, value + [buf[r.start]]) && NoNul(value) && buf[r.start] !in value
  {
    hide Act, Run, Regs.Valid, Idle;
    var q := IdleScan(buf, r);
    value := buf[r.p..q];
    ValueIs(buf, r, q);
    ValueEnds(buf, r.(p := q));
    var u := IdleLeads(buf, parent, r, t, q);
    LeadsLives(buf, parent, r, t, r.(p := q), u);
    if buf[q] == NUL { LivesAtEnd(buf, parent, r.(p := q), u); }
    LastIsNul(buf, q);
    OneAt(buf, q);
    AtJoin(buf, r.p, value, [buf[r.start]]);
  }

  lemma LastIsNul(buf: string, q: nat)
    requires CString(buf) && q < |buf| && buf[q] != NUL
    ensures q + 1 < |buf|
  {
  }

  lemma OneAt(buf: string, q: nat)
    requires q + 1 < |buf|
    ensures At(buf, q, [buf[q]])
  {
  }

  /** The equals sign and the quote, with the blanks around them, as far as they are there */
  lemma EqualsRead(buf: string, parent: Option<string>, r: Regs, t: Trace)
      returns (before: string, equals: bool, behind: string, n: Regs, u: Trace)
    requires Lives(buf, parent, r, t) && r.state == IGNORE_SPACES && r.next == EQUALS
    ensures Blanks(before) && Blanks(behind) && At(buf, r.p, before)
    ensures equals ==> At(buf, r.p, before + "=" + behind) && n.state == ATTVAL_BEGIN && Lives(buf, parent, n, u)
    ensures !equals ==> buf[r.p + |before|] != '='
    ensures n.p == r.p + |before| + (if equals then 1 + |behind| else 0) && n.p < |buf|
    ensures buf[n.p] != NUL && !Blank(buf[n.p])
  {
    hide Act, Run, Regs.Valid, Blanks, At, Blank;
    NothingBlank();
    before, n, u := SkipRead(buf, parent, r, t);
    TextAt(buf, r.p, before);
    equals, behind := buf[n.p] == '=', "";
    if equals {
      LastIsNul(buf, n.p);
      OneAt(buf, n.p);
      AtJoin(buf, r.p, before, "=");
      var m, v := EqualsLeads(buf, parent, n, u);
      LeadsLives(buf, parent, n, u, m, v);
      behind, n, u := SkipRead(buf, parent, m, v);
      TextAt(buf, m.p, behind);
      AtJoin(buf, r.p, before + "=", behind);
    }
  }

  /** The value in its quotes, when these begin */
  lemma QuotedRead(buf: string, parent: Option<string>, r: Regs, t: Trace) returns (quote: char, value: string)
    requires Lives(buf, parent, r, t) && r.state == ATTVAL_BEGIN && (buf[r.p] == '"' || buf[r.p] == '\'')
    ensures quote == buf[r.p] && At(buf, r.p, [quote] + value + [quote]) && NoNul(value) && quote !in value
  {
    hide Act, Run, Regs.Valid, At, NoNul;
    quote := buf[r.p];
    LastIsNul(buf, r.p);
    OneAt(buf, r.p);
    var n, u := QuoteOpens(buf, parent, r, t);
    LeadsLives(buf, parent, r, t, n, u);
    value := ValueRead(buf, parent, n, u);
    AtJoin(buf, r.p, [quote], value + [quote]);
    assert [quote] + (value + [quote]) == [quote] + value + [quote];
  }

  /** The name of an attribute; if it is new, up to the state that looks for the equals sign */
  lemma AttrNameRead(buf: string, parent: Option<string>, r: Regs, t: Trace) returns (name: string, n: Regs, u: Trace)
    requires Lives(buf, parent, r, t) && r.state == BODY && buf[r.p] != NUL && buf[r.p] != '/' && buf[r.p] != '>'
    ensures At(buf, r.p, name) && (name != "" ==> IsName(name)) && EndsName(buf[r.p + |name|])
    ensures name != "" && name !in r.attribs ==>
              Lives(buf, parent, n, u) && n.state == IGNORE_SPACES && n.next == EQUALS && n.p == r.p + |name|
  {
    hide Act, Run, Regs.Valid, IsName, NameChar;
    var m, v := AttrNameBegins(buf, parent, r, t);
    LeadsLives(buf, parent, r, t, m, v);
    name, n, u := NameRead(buf, parent, m, v);
    if name != "" && name !in r.attribs {
      m, v := AttrNameEnds(buf, parent, n, u);
      LeadsLives(buf, parent, n, u, m, v);
      n, u := m, v;
    }
  }

  lemma SlipJoin(buf: string, p: nat, name: string, before: string, behind: string)
    requires At(buf, p, name)
    ensures At(buf, p, Repeated(name).Text())
    ensures At(buf, p + |name|, before) ==> At(buf, p, NoEquals(name, before).Text())
    ensures At(buf, p + |name|, before + "=" + behind) ==> At(buf, p, NoQuote(name, before, behind).Text())
    ensures |Repeated(name).Text()| == |name| && |NoEquals(name, before).Text()| == |name| + |before|
    ensures |NoQuote(name, before, behind).Text()| == |name| + |before| + 1 + |behind|
  {
    hide At;
    if At(buf, p + |name|, before) { AtJoin(buf, p, name, before); }
    if At(buf, p + |name|, before + "=" + behind) {
      AtJoin(buf, p, name, before + "=" + behind);
      assert name + (before + "=" + behind) == name + before + "=" + behind;
    }
  }

  lemma AttributeJoin(buf: string, p: nat, a: Attribute)
    requires At(buf, p, a.gap) && At(buf, p + |a.gap|, a.name)
    requires At(buf, p + |a.gap| + |a.name|, a.before + "=" + a.after)
    requires At(buf, p + |a.gap| + |a.name| + |a.before| + |a.after| + 1, [a.quote] + a.value + [a.quote])
    ensures At(buf, p, ShowAttribute(a))
  {
    hide At;
    var x, y, z := a.gap + a.name, a.before + "=" + a.after, [a.quote] + a.value + [a.quote];
    AtJoin(buf, p, a.gap, a.name);
    AtJoin(buf, p, x, y);
    AtJoin(buf, p, x + y, z);
    assert ShowAttribute(a) == x + y + z;
  }

  /** What is read where an attribute should stand: one that is new, or a slip */
  ghost predicate AttributeOrSlip(buf: string, p: nat, keys: set<string>, gap: string, a: Attribute, slip: Option<Slip>) {
    match slip
    case None =>
      && |gap| <= p && WellAttribute(a) && At(buf, p - |gap|, ShowAttribute(a)) && a.name !in keys && a.gap == gap
      && p < |buf| && NameChar(buf[p])
    case Some(s) =>
      && At(buf, p, s.Text()) && p + |s.Text()| < |buf| && SlipHere(s, keys, buf[p + |s.Text()|])
      && (!s.NoAttribute? ==> NameChar(buf[p]))
  }

  /** The slip, with the names already taken as a set */
  ghost predicate SlipHere(s: Slip, keys: set<string>, c: char) {
    match s
    case NoAttribute => Odd(c) && c != '/' && c != '>'
    case Repeated(name) => IsName(name) && name in keys && EndsName(c)
    case NoEquals(name, before) =>
      && IsName(name) && name !in keys && Blanks(before)
      && c != NUL && c != '=' && !Blank(c) && (before == "" ==> !NameChar(c))
    case NoQuote(name, before, behind) =>
      && IsName(name) && name !in keys && Blanks(before) && Blanks(behind)
      && c != NUL && c != '"' && c != '\'' && !Blank(c)
  }

  /** An attribute, when the blanks before it have been read, or what there is of it */
  lemma AttributeRead(buf: string, parent: Option<string>, r: Regs, t: Trace, gap: string)
      returns (a: Attribute, slip: Option<Slip>)
    requires Lives(buf, parent, r, t) && r.state == BODY
    requires buf[r.p] != NUL && buf[r.p] != '/' && buf[r.p] != '>' && !Blank(buf[r.p])
    requires |gap| <= r.p && At(buf, r.p - |gap|, gap) && Blanks(gap)
    ensures AttributeOrSlip(buf, r.p, r.attribs.Keys, gap, a, slip)
  {
    hide Act, Run, Regs.Valid, IsName, At, Blanks, NoNul, ShowAttribute, NameChar, Blank, Slip.Text;
    var name, n, u := AttrNameRead(buf, parent, r, t);
    a, slip := Attribute("", "", "", "", '"', ""), Some(NoAttribute);
    if name == "" {
      NothingAt(buf, r.p);
      NoAttributeText();
    } else {
      NameIsSome(name);
      FirstChar(buf, r.p, name);
      TextAt(buf, r.p, name);
      if name in r.attribs {
        SlipJoin(buf, r.p, name, "", "");
        slip := Some(Repeated(name));
      } else {
        a, slip := ValueOrSlip(buf, parent, n, u, r.p, name, gap, r.attribs.Keys);
      }
    }
  }

  lemma NoAttributeText()
    ensures NoAttribute.Text() == ""
  {
  }

  /** What follows the name of an attribute */
  lemma ValueOrSlip(buf: string, parent: Option<string>, r: Regs, t: Trace, p: nat, name: string, gap: string,
                    keys: set<string>) returns (a: Attribute, slip: Option<Slip>)
    requires Lives(buf, parent, r, t) && r.state == IGNORE_SPACES && r.next == EQUALS && r.p == p + |name|
    requires At(buf, p, name) && IsName(name) && name !in keys && EndsName(buf[r.p]) && NameChar(buf[p])
    requires |gap| <= p && At(buf, p - |gap|, gap) && Blanks(gap)
    ensures AttributeOrSlip(buf, p, keys, gap, a, slip)
  {
    hide Act, Run, Regs.Valid, IsName, At, Blanks, NoNul, ShowAttribute, NameChar, Blank, Slip.Text;
    a, slip := Attribute("", "", "", "", '"', ""), None;
    var before, equals, behind, n, u := EqualsRead(buf, parent, r, t);
    SlipJoin(buf, p, name, before, behind);
    if !equals {
      slip := Some(NoEquals(name, before));
    } else if buf[n.p] != '"' && buf[n.p] != '\'' {
      slip := Some(NoQuote(name, before, behind));
    } else {
      var quote, value := QuotedRead(buf, parent, n, u);
      a := Attribute(gap, name, before, behind, quote, value);
      AttributeJoin(buf, p - |gap|, a);
    }
  }

  /** Well formed attributes of different names */
  ghost predicate Different(attrs: seq<Attribute>) {
    && (forall i | 0 <= i < |attrs| :: WellAttribute(attrs[i]))
    && forall i, j | 0 <= i < j < |attrs| :: attrs[i].name != attrs[j].name
  }

  lemma OneMoreDiffers(attrs: seq<Attribute>, a: Attribute)
    requires Different(attrs) && WellAttribute(a) && a.name !in AttrMap(Pairs(attrs))
    ensures Different(attrs + [a])
    ensures AttrMap(Pairs(attrs + [a])) == AttrMap(Pairs(attrs))[a.name := a.value]
  {
    hide WellAttribute, AttrMap;
    AttrMapKeys(Pairs(attrs));
    assert forall i | 0 <= i < |attrs| :: Pairs(attrs)[i].0 == attrs[i].name;
    OneMorePair(attrs + [a], |attrs|);
    assert Pairs(attrs + [a])[..|attrs|] == Pairs(attrs) && Pairs(attrs + [a])[..|attrs| + 1] == Pairs(attrs + [a]);
  }

  lemma ConsAttributes(buf: string, p: nat, a: Attribute, rest: seq<Attribute>)
    requires At(buf, p, ShowAttribute(a)) && At(buf, p + |ShowAttribute(a)|, ShowAttributes(rest))
    ensures At(buf, p, ShowAttributes([a] + rest))
    ensures |ShowAttributes([a] + rest)| == |ShowAttribute(a)| + |ShowAttributes(rest)|
  {
    hide At, ShowAttribute;
    AtJoin(buf, p, ShowAttribute(a), ShowAttributes(rest));
    assert ([a] + rest)[1..] == rest;
  }

  lemma SlipFollows(s: Slip, attrs: seq<Attribute>, takesName: bool, c: char)
    requires SlipHere(s, AttrMap(Pairs(attrs)).Keys, c) && (s.NoEquals? || s.NoQuote? ==> takesName)
    ensures s.Follows(attrs, takesName, c)
  {
    hide AttrMap, IsName, Blanks, Blank, NameChar;
    if !s.NoAttribute? { HasIsKey(attrs, s.name); }
  }

  /** How the attributes of a tag end: at the end of the tag, or in a slip */
  ghost predicate AttributesEnd(buf: string, q: nat, attrs: seq<Attribute>, trail: string, slip: Option<Slip>) {
    match slip
    case None => q < |buf| && (buf[q] == '>' || buf[q] == '/')
    case Some(s) =>
      && At(buf, q, s.Text()) && q + |s.Text()| < |buf|
      && s.Follows(attrs, trail != "" || attrs != [], buf[q + |s.Text()|])
  }

  /** The attributes that follow those already read, and the blanks behind them, up to the end of the tag
      or a slip */
  lemma {:induction false} AttributesRead(buf: string, parent: Option<string>, r: Regs, t: Trace, done: seq<Attribute>)
      returns (rest: seq<Attribute>, trail: string, slip: Option<Slip>)
    requires Lives(buf, parent, r, t) && r.state == IGNORE_SPACES && r.next == BODY
    requires Different(done) && r.attribs == AttrMap(Pairs(done))
    requires done == [] ==> !NameChar(buf[r.p])
    ensures Different(done + rest) && Blanks(trail)
    ensures At(buf, r.p, ShowAttributes(rest)) && At(buf, r.p + |ShowAttributes(rest)|, trail)
    ensures AttributesEnd(buf, r.p + |ShowAttributes(rest)| + |trail|, done + rest, trail, slip)
    ensures rest != [] && done == [] ==> rest[0].gap != ""
    decreases |buf| - r.p
  {
    hide Act, Run, Regs.Valid, At, Blanks, ShowAttributes, AttrMap, Different, Blank, ShowAttribute, NameChar;
    hide Slip.Text, Slip.Follows, SlipHere;
    NothingAt(buf, r.p);
    NoAttributes();
    var gap, n, u := SkipRead(buf, parent, r, t);
    TextAt(buf, r.p, gap);
    rest, trail, slip := [], gap, None;
    assert done + [] == done;
    if buf[n.p] != '>' && buf[n.p] != '/' {
      var a;
      a, slip := AttributeRead(buf, parent, n, u, gap);
      if slip.Some? {
        SlipFollows(slip.value, done, trail != "" || done != [], buf[n.p + |slip.value.Text()|]);
      } else {
        OneMoreDiffers(done, a);
        AttributeShown(a);
        var m, v := AttrLeads(buf, parent, r, t, a);
        LeadsLives(buf, parent, r, t, m, v);
        rest, trail, slip := AttributesRead(buf, parent, m, v, done + [a]);
        ConsAttributes(buf, r.p, a, rest);
        assert done + [a] + rest == done + ([a] + rest);
        rest := [a] + rest;
      }
    }
  }

  lemma AttributeShown(a: Attribute)
    ensures ShowAttribute(a) != []
  {
  }

  // ---------- start tags ----------

  lemma AngleRead(buf: string, parent: Option<string>, r: Regs, t: Trace) returns (lead: string, n: Regs, u: Trace)
    requires Lives(buf, parent, r, t) && r.state == BEGIN && buf[r.p] == '<'
    ensures n == r.(state := BEGIN_NODE, next := BEGIN_NODE, p := r.p + 1 + |lead|) && Lives(buf, parent, n, u)
    ensures At(buf, r.p, "<" + lead) && Blanks(lead) && n.p < |buf| && buf[n.p] != NUL && !Blank(buf[n.p])
  {
    hide Act, Run, Regs.Valid, At, Blanks, Blank;
    LastIsNul(buf, r.p);
    OneAt(buf, r.p);
    var m, v := AngleOpens(buf, parent, r, t);
    LeadsLives(buf, parent, r, t, m, v);
    lead, n, u := SkipRead(buf, parent, m, v);
    AtJoin(buf, r.p, "<", lead);
  }

  lemma NameOpens(buf: string, parent: Option<string>, r: Regs, t: Trace) returns (n: Regs, u: Trace)
    requires Lives(buf, parent, r, t) && r.state == BEGIN_NODE && buf[r.p] !in {NUL, '!', '?', '/'}
    ensures n == r.(state := TAG_NAME, start := r.p) && Leads(buf, parent, r, t, n, u)
  {
    n := r.(state := TAG_NAME, start := r.p);
    u := StayLeads(buf, parent, r, t, n, []);
  }

  /** The name, the attributes and the blanks of a tag, up to its end or a slip; or that there is no name */
  lemma TagRead(buf: string, parent: Option<string>, r: Regs, t: Trace)
      returns (name: string, attrs: seq<Attribute>, trail: string, slip: Option<Slip>)
    requires Lives(buf, parent, r, t) && r.state == BEGIN_NODE && buf[r.p] !in {NUL, '!', '?', '/'}
    ensures name == "" ==> EndsName(buf[r.p])
    ensures name != "" ==> IsName(name) && WellAttributes(attrs) && Blanks(trail)
    ensures name != "" ==> At(buf, r.p, name) && At(buf, r.p + |name|, ShowAttributes(attrs))
    ensures name != "" ==> At(buf, r.p + |name| + |ShowAttributes(attrs)|, trail)
    ensures name != "" ==>
              AttributesEnd(buf, r.p + |name| + |ShowAttributes(attrs)| + |trail|, attrs, trail, slip)
  {
    hide Act, Run, Regs.Valid, At, Blanks, ShowAttributes, AttrMap, IsName, NameChar, Different, WellAttributes;
    hide AttributesEnd;
    var n, u := NameOpens(buf, parent, r, t);
    LeadsLives(buf, parent, r, t, n, u);
    attrs, trail, slip := [], "", None;
    var m, v;
    name, m, v := NameRead(buf, parent, n, u);
    if name != "" {
      n, u := NameEnds(buf, parent, m, v);
      LeadsLives(buf, parent, m, v, n, u);
      NoneDiffer();
      attrs, trail, slip := AttributesRead(buf, parent, n, u, []);
      assert [] + attrs == attrs;
      WellIsDifferent(attrs);
    }
  }

  lemma NoneDiffer()
    ensures Different([]) && AttrMap(Pairs([])) == map[]
  {
  }

  lemma WellIsDifferent(attrs: seq<Attribute>)
    requires Different(attrs) && (attrs != [] ==> attrs[0].gap != "")
    ensures WellAttributes(attrs)
  {
    hide WellAttribute;
  }

  lemma TagJoin(buf: string, p: nat, lead: string, name: string, attrs: seq<Attribute>, trail: string)
    requires At(buf, p, "<" + lead) && At(buf, p + 1 + |lead|, name)
    requires At(buf, p + 1 + |lead| + |name|, ShowAttributes(attrs))
    requires At(buf, p + 1 + |lead| + |name| + |ShowAttributes(attrs)|, trail)
    ensures At(buf, p, ShowTag(lead, name, attrs, trail))
  {
    hide At, ShowAttributes;
    AtJoin(buf, p, "<" + lead, name);
    AtJoin(buf, p, "<" + lead + name, ShowAttributes(attrs));
    AtJoin(buf, p, "<" + lead + name + ShowAttributes(attrs), trail);
  }

  // ---------- end tags ----------

  /** What is read of an end tag: one that closes the element, or a mistake */
  ghost predicate EndOrMistake(buf: string, parent: Option<string>, p: nat, lead: string, name: string, trail: string,
                               wrong: Option<Mistake>) {
    match wrong
    case None => parent.Some? && WellEnd(parent.value, lead, name, trail) && At(buf, p, ShowEnd(lead, name, trail))
    case Some(m) => MistakeAt(buf, parent, p, m)
  }

  /** The mistake stands at p, with the rest of the text behind it. */
  ghost predicate MistakeAt(buf: string, parent: Option<string>, p: nat, m: Mistake) {
    var q := p + |ShowMistake(m)|;
    !m.OpenAtEnd? && At(buf, p, ShowMistake(m)) && q < |buf| && IsMistake(m, parent, After(buf, q))
  }

  lemma CloseOpens(buf: string, parent: Option<string>, r: Regs, t: Trace) returns (gap: string, n: Regs, u: Trace)
    requires Lives(buf, parent, r, t) && r.state == BEGIN_NODE && buf[r.p] == '/' && parent.Some? && parent.value != []
    ensures At(buf, r.p, "/") && At(buf, r.p + 1, gap) && Blanks(gap)
    ensures Lives(buf, parent, n, u) && n.state == CLOSE && n.start == r.p + 1 && n.p == r.p + 1 + |gap|
    ensures buf[n.p] != NUL && !Blank(buf[n.p])
  {
    hide Act, Run, Regs.Valid, At, Blanks, Blank;
    LastIsNul(buf, r.p);
    OneAt(buf, r.p);
    var m, v := CloseBegins(buf, parent, r, t);
    LeadsLives(buf, parent, r, t, m, v);
    gap, n, u := SkipRead(buf, parent, m, v);
  }

  /** Behind the name of an end tag that fits */
  lemma EndTrailRead(buf: string, parent: Option<string>, r: Regs, t: Trace) returns (trail: string, q: nat)
    requires Lives(buf, parent, r, t) && r.state == CLOSE && r.start < r.p && EndsName(buf[r.p])
    requires parent.Some? && EqualNoCase(parent.value, buf[r.start..r.p])
    ensures At(buf, r.p, trail) && Blanks(trail) && q == r.p + |trail| && q + 1 < |buf|
    ensures buf[q] != NUL && !Blank(buf[q])
  {
    hide Act, Run, Regs.Valid, At, Blanks, Blank, NameChar, EqualNoCase;
    var n, u := CloseEnds(buf, parent, r, t);
    LeadsLives(buf, parent, r, t, n, u);
    trail, n, u := SkipRead(buf, parent, n, u);
    q := n.p;
    LastIsNul(buf, q);
  }

  lemma ThreeJoin(buf: string, p: nat, a: string, b: string, c: string)
    requires At(buf, p, a) && At(buf, p + |a|, b) && At(buf, p + |a| + |b|, c)
    ensures At(buf, p, a + b + c)
  {
    hide At;
    AtJoin(buf, p, a, b);
    AtJoin(buf, p, a + b, c);
  }

  lemma NoEndNameMistake(buf: string, parent: Option<string>, p: nat, lead: string)
    requires CString(buf) && At(buf, p, "<" + lead + "/") && parent.Some? && Blanks(lead) && Odd(buf[p + 2 + |lead|])
    ensures MistakeAt(buf, parent, p, NoEndName(lead))
  {
    hide Blanks, Blank, NameChar, After, At;
    TextAt(buf, p, "<" + lead + "/");
    AfterFirst(buf, p + 2 + |lead|);
  }

  lemma OtherEndMistake(buf: string, parent: Option<string>, p: nat, lead: string, name: string)
    requires CString(buf) && At(buf, p, "<" + lead + "/" + name) && parent.Some? && Blanks(lead) && IsName(name)
    requires !SameUpToCase(parent.value, name) && EndsName(buf[p + 2 + |lead| + |name|])
    ensures MistakeAt(buf, parent, p, OtherEnd(lead, name))
  {
    hide Blanks, NameChar, After, At, SameUpToCase, IsName;
    TextAt(buf, p, "<" + lead + "/" + name);
    AfterFirst(buf, p + 2 + |lead| + |name|);
  }

  lemma EndNotClosedMistake(buf: string, parent: Option<string>, p: nat, lead: string, name: string, trail: string)
    requires CString(buf) && At(buf, p, "<" + lead + "/" + name + trail) && parent.Some? && Blanks(lead) && Blanks(trail)
    requires SameUpToCase(parent.value, name)
    requires var c := buf[p + 2 + |lead| + |name| + |trail|];
             c != NUL && c != '>' && !Blank(c) && (trail == "" ==> !NameChar(c))
    ensures MistakeAt(buf, parent, p, EndNotClosed(lead, name, trail))
  {
    hide Blanks, Blank, NameChar, After, At, SameUpToCase;
    TextAt(buf, p, "<" + lead + "/" + name + trail);
    AfterFirst(buf, p + 2 + |lead| + |name| + |trail|);
  }

  /** An end tag whose name follows its slash at once */
  lemma PromptEndRead(buf: string, parent: Option<string>, r: Regs, t: Trace, p: nat, lead: string)
      returns (name: string, trail: string, wrong: Option<Mistake>)
    requires Lives(buf, parent, r, t) && r.state == CLOSE && r.start == r.p && r.p == p + 2 + |lead|
    requires buf[r.p] != NUL && !Blank(buf[r.p]) && parent.Some? && IsName(parent.value)
    requires At(buf, p, "<" + lead) && At(buf, p + 1 + |lead|, "/") && Blanks(lead)
    ensures EndOrMistake(buf, parent, p, lead, name, trail, wrong)
  {
    hide Act, Run, Regs.Valid, At, Blanks, IsName, SameUpToCase, ShowEnd, Blank, NameChar, EqualNoCase, MistakeAt;
    hide WellEnd;
    var n, u;
    name, n, u := NameRead(buf, parent, r, t);
    trail, wrong := "", None;
    AtJoin(buf, p, "<" + lead, "/");
    if name == "" {
      NoEndNameMistake(buf, parent, p, lead);
      wrong := Some(NoEndName(lead));
    } else {
      AtJoin(buf, p, "<" + lead + "/", name);
      if !SameUpToCase(parent.value, name) {
        OtherEndMistake(buf, parent, p, lead, name);
        wrong := Some(OtherEnd(lead, name));
      } else {
        NameIsSome(name);
        trail, wrong := EndTagRest(buf, parent, n, u, p, lead, name);
      }
    }
  }

  /** What follows the name of an end tag that fits: the end of the tag, or a mistake */
  lemma EndTagRest(buf: string, parent: Option<string>, r: Regs, t: Trace, p: nat, lead: string, name: string)
      returns (trail: string, wrong: Option<Mistake>)
    requires Lives(buf, parent, r, t) && r.state == CLOSE && r.start < r.p && r.p == p + 2 + |lead| + |name|
    requires EndsName(buf[r.p]) && buf[r.start..r.p] == name && Blanks(lead) && At(buf, p, "<" + lead + "/" + name)
    requires parent.Some? && SameUpToCase(parent.value, name)
    ensures EndOrMistake(buf, parent, p, lead, name, trail, wrong)
  {
    hide Act, Run, Regs.Valid, At, Blanks, SameUpToCase, Blank, NameChar, EqualNoCase, MistakeAt;
    SameIsEqual(parent.value, name);
    var q;
    trail, q := EndTrailRead(buf, parent, r, t);
    wrong := None;
    AtJoin(buf, p, "<" + lead + "/" + name, trail);
    if buf[q] == '>' {
      OneAt(buf, q);
      AtJoin(buf, p, "<" + lead + "/" + name + trail, ">");
    } else {
      EndNotClosedMistake(buf, parent, p, lead, name, trail);
      wrong := Some(EndNotClosed(lead, name, trail));
    }
  }

  /** An end tag whose name does not follow its slash at once */
  lemma LateEndRead(buf: string, parent: Option<string>, r: Regs, t: Trace, p: nat, lead: string, gap: string)
      returns (m: Mistake)
    requires Lives(buf, parent, r, t) && r.state == CLOSE && r.start + |gap| == r.p && r.start == p + 2 + |lead|
    requires gap != "" && Blanks(gap) && buf[r.p] != NUL && !Blank(buf[r.p]) && parent.Some? && Blanks(lead)
    requires At(buf, p, "<" + lead) && At(buf, p + 1 + |lead|, "/") && At(buf, r.start, gap)
    ensures MistakeAt(buf, parent, p, m)
  {
    hide Act, Run, Regs.Valid, At, Blanks, IsName, Blank, NameChar, MistakeAt;
    var name, n, u := NameRead(buf, parent, r, t);
    AtJoin(buf, p, "<" + lead, "/");
    ThreeJoin(buf, p, "<" + lead + "/", gap, name);
    LateEndMistake(buf, parent, p, lead, gap, name);
    m := LateEnd(lead, gap, name);
  }

  lemma LateEndMistake(buf: string, parent: Option<string>, p: nat, lead: string, gap: string, name: string)
    requires CString(buf) && At(buf, p, "<" + lead + "/" + gap + name) && parent.Some?
    requires Blanks(lead) && gap != "" && Blanks(gap) && (name != "" ==> IsName(name))
    requires var c := buf[p + 2 + |lead| + |gap| + |name|]; EndsName(c) && (name == "" ==> !Blank(c))
    ensures MistakeAt(buf, parent, p, LateEnd(lead, gap, name))
  {
    hide Blanks, IsName, Blank, NameChar, After;
    AfterFirst(buf, p + 2 + |lead| + |gap| + |name|);
  }

  /** An end tag fits the element that is open, or it is a mistake. */
  lemma EndRead(buf: string, parent: Option<string>, r: Regs, t: Trace, p: nat, lead: string)
      returns (name: string, trail: string, wrong: Option<Mistake>)
    requires Lives(buf, parent, r, t) && r.state == BEGIN_NODE && buf[r.p] == '/' && (parent.Some? ==> IsName(parent.value))
    requires At(buf, p, "<" + lead) && r.p == p + 1 + |lead| && Blanks(lead)
    ensures EndOrMistake(buf, parent, p, lead, name, trail, wrong)
  {
    hide Act, Run, Regs.Valid, At, Blanks, IsName, Blank, After, ShowEnd, WellEnd;
    if parent.None? {
      AfterFirst(buf, r.p);
      name, trail, wrong := "", "", Some(StrayEnd(lead));
    } else {
      NameIsSome(parent.value);
      var gap, n, u := CloseOpens(buf, parent, r, t);
      if gap == "" {
        name, trail, wrong := PromptEndRead(buf, parent, n, u, p, lead);
      } else {
        var m := LateEndRead(buf, parent, n, u, p, lead, gap);
        name, trail, wrong := "", "", Some(m);
      }
    }
  }

  // ---------- sections ----------

  predicate TerminatorOf(s: State, terminator: string) {
    || (s.CDATA? && terminator == "]]>") || (s.COMMENT? && terminator == "-->")
    || (s.HEADER? && terminator == "?>")
  }

  lemma TerminatorAt(buf: string, q: nat, terminator: string)
    requires CString(buf) && q < |buf| && terminator <= buf[q..] && terminator in {"]]>", "-->", "?>"}
    ensures At(buf, q, terminator)
  {
    var k := |terminator|;
    assert buf[q..q + k] == buf[q..][..k] == terminator;
    assert buf[q + k - 1] == buf[q..q + k][k - 1] == '>';
  }

  lemma IdleSection(buf: string, r: Regs, terminator: string)
    requires CString(buf) && r.p < |buf| && r.start < |buf| && TerminatorOf(r.state, terminator)
    ensures Idle(buf, r) <==> buf[r.p] != NUL && !(terminator <= buf[r.p..])
  {
  }

  lemma FreeIfIdle(buf: string, p: nat, q: nat, terminator: string)
    requires p <= q && At(buf, q, terminator)
    requires forall i: nat | p <= i < q :: buf[i] != NUL && !(terminator <= buf[i..])
    ensures FreeOf(buf[p..q], terminator) && At(buf, p, buf[p..q] + terminator)
  {
    var s := buf[p..q];
    Slice(buf, p, q);
    AtJoin(buf, p, s, terminator);
    forall i | 0 <= i < |s|
      ensures s[i] != NUL && !(terminator <= (s + terminator)[i..])
    {
      if terminator <= (s + terminator)[i..] { NoEarlier(buf, p, s, terminator, i); }
    }
  }

  /** A terminator inside the section is one in the buffer. */
  lemma NoEarlier(buf: string, p: nat, s: string, terminator: string, i: nat)
    requires At(buf, p, s + terminator) && i < |s| && terminator <= (s + terminator)[i..]
    ensures terminator <= buf[p + i..]
  {
    AtChars(buf, p, s + terminator);
    forall j | 0 <= j < |terminator|
      ensures buf[p + i..][j] == terminator[j]
    {
      assert (s + terminator)[i..][j] == (s + terminator)[i + j] == buf[p + (i + j)];
    }
  }

  /** The text of a section, which its terminator ends */
  lemma SectionRead(buf: string, parent: Option<string>, r: Regs, t: Trace, terminator: string) returns (s: string)
    requires Lives(buf, parent, r, t) && r.start <= r.p && TerminatorOf(r.state, terminator)
    ensures FreeOf(s, terminator) && At(buf, r.p, s + terminator)
  {
    hide Act, Run, Regs.Valid, Idle, At, FreeOf;
    var q := IdleScan(buf, r);
    var u := IdleLeads(buf, parent, r, t, q);
    var n := r.(p := q);
    LeadsLives(buf, parent, r, t, n, u);
    if buf[q] == NUL { LivesAtEnd(buf, parent, n, u); }
    IdleSection(buf, n, terminator);
    TerminatorAt(buf, q, terminator);
    forall i: nat | r.p <= i < q
      ensures buf[i] != NUL && !(terminator <= buf[i..])
    {
      assert Idle(buf, r.(p := i));
      IdleSection(buf, r.(p := i), terminator);
    }
    s := buf[r.p..q];
    FreeIfIdle(buf, r.p, q, terminator);
  }

  /** The text of a document type, whose brackets close */
  lemma {:induction false} DocTypeRead(buf: string, parent: Option<string>, r: Regs, t: Trace) returns (s: string)
    requires Lives(buf, parent, r, t) && r.state == DOCTYPE
    ensures NoNul(s) && DocTypeDepth(r.nbrackets, s) == Some(0) && At(buf, r.p, s + ">")
    decreases |buf| - r.p
  {
    hide Act, Run, Regs.Valid, At;
    if buf[r.p] == NUL { LivesAtEnd(buf, parent, r, t); }
    LastIsNul(buf, r.p);
    OneAt(buf, r.p);
    if buf[r.p] == '>' && r.nbrackets == 0 {
      s := [];
      assert s + ">" == ">";
    } else {
      var n, u := DocTypeChar(buf, parent, r, t);
      LeadsLives(buf, parent, r, t, n, u);
      var rest := DocTypeRead(buf, parent, n, u);
      s := [buf[r.p]] + rest;
      AtJoin(buf, r.p, [buf[r.p]], rest + ">");
      assert s + ">" == [buf[r.p]] + (rest + ">") && s[1..] == rest;
    }
  }

  // ---------- what an exclamation mark begins ----------

  lemma SectionJoin(buf: string, p: nat, lead: string, open: string, s: string, close: string)
    requires At(buf, p, "<" + lead) && At(buf, p + 1 + |lead|, open) && At(buf, p + 1 + |lead| + |open|, s + close)
    ensures At(buf, p, "<" + lead + open + s + close)
  {
    hide At;
    AtJoin(buf, p, "<" + lead, open);
    AtJoin(buf, p, "<" + lead + open, s + close);
    assert "<" + lead + open + (s + close) == "<" + lead + open + s + close;
  }

  /** A section or a mistake, whichever is read */
  ghost predicate ItemOrMistake(buf: string, parent: Option<string>, p: nat, item: Item, wrong: Option<Mistake>) {
    match wrong
    case None => !item.Words? && Well(item) && At(buf, p, Show(item))
    case Some(m) => MistakeAt(buf, parent, p, m)
  }

  lemma AfterBegins(buf: string, q: nat, k: nat)
    requires CString(buf) && q < |buf|
    ensures k <= |After(buf, q)| <==> q + k < |buf|
    ensures k <= |After(buf, q)| ==> After(buf, q)[..k] == buf[q..q + k]
    ensures k < |After(buf, q)| ==> After(buf, q)[k] == buf[q + k]
  {
  }

  lemma CDataRead(buf: string, parent: Option<string>, r: Regs, t: Trace, p: nat, lead: string)
      returns (item: Item, wrong: Option<Mistake>)
    requires Lives(buf, parent, r, t) && r.state == BEGIN_NODE && At(buf, r.p, "![")
    requires At(buf, p, "<" + lead) && r.p == p + 1 + |lead| && Blanks(lead)
    ensures ItemOrMistake(buf, parent, p, item, wrong)
  {
    hide Act, Run, Regs.Valid, At, Blanks, SameUpToCase, After, MistakeAt, Well, Show;
    item, wrong := Words(""), None;
    TextAt(buf, r.p, "![");
    var q, after := r.p + 2, After(buf, r.p + 2);
    if |after| >= 6 && SameUpToCase("CDATA", after[..5]) && after[5] == '[' {
      AfterBegins(buf, q, 5);
      AfterBegins(buf, q, 6);
      item := CDataTextRead(buf, parent, r, t, p, lead);
    } else {
      AtJoin(buf, p, "<" + lead, "![");
      NotCDataMistake(buf, parent, p, lead);
      wrong := Some(NotCData(lead));
    }
  }

  lemma NotCDataMistake(buf: string, parent: Option<string>, p: nat, lead: string)
    requires At(buf, p, "<" + lead + "![") && Blanks(lead)
    requires var after := After(buf, p + 3 + |lead|);
             !(|after| >= 6 && SameUpToCase("CDATA", after[..5]) && after[5] == '[')
    ensures MistakeAt(buf, parent, p, NotCData(lead))
  {
    hide Blanks, SameUpToCase, After;
  }

  lemma CDataTextRead(buf: string, parent: Option<string>, r: Regs, t: Trace, p: nat, lead: string)
      returns (item: Item)
    requires Lives(buf, parent, r, t) && r.state == BEGIN_NODE && At(buf, r.p, "![") && r.p + 8 < |buf|
    requires SameUpToCase("CDATA", buf[r.p + 2..r.p + 7]) && buf[r.p + 7] == '['
    requires At(buf, p, "<" + lead) && r.p == p + 1 + |lead| && Blanks(lead)
    ensures item.Section? && Well(item) && At(buf, p, Show(item))
  {
    hide Act, Run, Regs.Valid, At, Blanks, FreeOf, SameUpToCase;
    var word := buf[r.p + 2..r.p + 7];
    CDataSpelled(buf, r.p);
    var n, u := CDataOpens(buf, parent, r, t, word);
    LeadsLives(buf, parent, r, t, n, u);
    var s := SectionRead(buf, parent, n, u, "]]>");
    item := Section(lead, word, s);
    SectionJoin(buf, p, lead, "![" + word + "[", s, "]]>");
    assert Show(item) == "<" + lead + ("![" + word + "[") + s + "]]>";
  }

  lemma CDataSpelled(buf: string, p: nat)
    requires At(buf, p, "![") && p + 8 < |buf| && buf[p + 7] == '['
    ensures At(buf, p, "![" + buf[p + 2..p + 7] + "[")
  {
    assert buf[p..p + 8] == buf[p..p + 2] + buf[p + 2..p + 7] + [buf[p + 7]];
  }

  lemma TypeRead(buf: string, parent: Option<string>, r: Regs, t: Trace, p: nat, lead: string)
      returns (item: Item, wrong: Option<Mistake>)
    requires Lives(buf, parent, r, t) && r.state == BEGIN_NODE && At(buf, r.p, "!") && r.nbrackets == 0
    requires buf[r.p + 1] == 'D' || buf[r.p + 1] == 'd'
    requires At(buf, p, "<" + lead) && r.p == p + 1 + |lead| && Blanks(lead)
    ensures ItemOrMistake(buf, parent, p, item, wrong)
  {
    hide Act, Run, Regs.Valid, At, Blanks, SameUpToCase, After, MistakeAt, Well, Show;
    item, wrong := Words(""), None;
    TextAt(buf, r.p, "!");
    var q, after := r.p + 1, After(buf, r.p + 1);
    if |after| >= 7 && SameUpToCase("DOCTYPE", after[..7]) {
      AfterBegins(buf, q, 7);
      item := TypeTextRead(buf, parent, r, t, p, lead);
    } else {
      AtJoin(buf, p, "<" + lead, "!");
      NotDocTypeMistake(buf, parent, p, lead);
      wrong := Some(NotDocType(lead));
    }
  }

  lemma NotDocTypeMistake(buf: string, parent: Option<string>, p: nat, lead: string)
    requires CString(buf) && At(buf, p, "<" + lead + "!") && Blanks(lead)
    requires var c := buf[p + 2 + |lead|]; c == 'D' || c == 'd'
    requires var after := After(buf, p + 2 + |lead|); !(|after| >= 7 && SameUpToCase("DOCTYPE", after[..7]))
    ensures MistakeAt(buf, parent, p, NotDocType(lead))
  {
    hide Blanks, SameUpToCase, After, At;
    TextAt(buf, p, "<" + lead + "!");
    AfterFirst(buf, p + 2 + |lead|);
  }

  lemma TypeTextRead(buf: string, parent: Option<string>, r: Regs, t: Trace, p: nat, lead: string)
      returns (item: Item)
    requires Lives(buf, parent, r, t) && r.state == BEGIN_NODE && At(buf, r.p, "!") && r.nbrackets == 0
    requires r.p + 8 < |buf| && SameUpToCase("DOCTYPE", buf[r.p + 1..r.p + 8])
    requires At(buf, p, "<" + lead) && r.p == p + 1 + |lead| && Blanks(lead)
    ensures item.TypeSection? && Well(item) && At(buf, p, Show(item))
  {
    hide Act, Run, Regs.Valid, At, Blanks, DocTypeDepth, NoNul, SameUpToCase;
    var word := buf[r.p + 1..r.p + 8];
    DocTypeSpelled(buf, r.p);
    var n, u := DocTypeOpens(buf, parent, r, t, word);
    LeadsLives(buf, parent, r, t, n, u);
    var s := DocTypeRead(buf, parent, n, u);
    item := TypeSection(lead, word, s);
    SectionJoin(buf, p, lead, "!" + word, s, ">");
    assert Show(item) == "<" + lead + ("!" + word) + s + ">";
  }

  lemma DocTypeSpelled(buf: string, p: nat)
    requires At(buf, p, "!") && p + 8 < |buf|
    ensures At(buf, p, "!" + buf[p + 1..p + 8])
  {
    assert buf[p..p + 8] == buf[p..p + 1] + buf[p + 1..p + 8];
  }

  lemma CommentRead(buf: string, parent: Option<string>, r: Regs, t: Trace, p: nat, lead: string)
      returns (item: Item, wrong: Option<Mistake>)
    requires Lives(buf, parent, r, t) && r.state == BEGIN_NODE && At(buf, r.p, "!")
    requires buf[r.p + 1] != '[' && buf[r.p + 1] != 'D' && buf[r.p + 1] != 'd'
    requires At(buf, p, "<" + lead) && r.p == p + 1 + |lead| && Blanks(lead)
    ensures ItemOrMistake(buf, parent, p, item, wrong)
  {
    hide Act, Run, Regs.Valid, At, Blanks, After, MistakeAt, Well, Show;
    item, wrong := Words(""), None;
    TextAt(buf, r.p, "!");
    if "--" <= After(buf, r.p + 1) {
      item := CommentTextRead(buf, parent, r, t, p, lead);
    } else {
      AtJoin(buf, p, "<" + lead, "!");
      NotCommentMistake(buf, parent, p, lead);
      wrong := Some(NotComment(lead));
    }
  }

  lemma NotCommentMistake(buf: string, parent: Option<string>, p: nat, lead: string)
    requires CString(buf) && At(buf, p, "<" + lead + "!") && Blanks(lead)
    requires var c := buf[p + 2 + |lead|]; c != '[' && c != 'D' && c != 'd'
    requires !("--" <= After(buf, p + 2 + |lead|))
    ensures MistakeAt(buf, parent, p, NotComment(lead))
  {
    hide Blanks, After, At;
    TextAt(buf, p, "<" + lead + "!");
    AfterFirst(buf, p + 2 + |lead|);
  }

  lemma CommentTextRead(buf: string, parent: Option<string>, r: Regs, t: Trace, p: nat, lead: string)
      returns (item: Item)
    requires Lives(buf, parent, r, t) && r.state == BEGIN_NODE && At(buf, r.p, "!") && "--" <= After(buf, r.p + 1)
    requires At(buf, p, "<" + lead) && r.p == p + 1 + |lead| && Blanks(lead)
    ensures item.Remark? && Well(item) && At(buf, p, Show(item))
  {
    hide Act, Run, Regs.Valid, At, Blanks, FreeOf, After;
    CommentSpelled(buf, r.p);
    var n, u := CommentOpens(buf, parent, r, t);
    LeadsLives(buf, parent, r, t, n, u);
    var s := SectionRead(buf, parent, n, u, "-->");
    item := Remark(lead, s);
    SectionJoin(buf, p, lead, "!--", s, "-->");
  }

  lemma CommentSpelled(buf: string, p: nat)
    requires CString(buf) && At(buf, p, "!") && "--" <= After(buf, p + 1)
    ensures At(buf, p, "!--")
  {
    AfterBegins(buf, p + 1, 2);
    assert After(buf, p + 1)[..2] == "--";
    assert buf[p..p + 3] == buf[p..p + 1] + buf[p + 1..p + 3];
  }

  lemma HeaderRead(buf: string, parent: Option<string>, r: Regs, t: Trace, p: nat, lead: string) returns (item: Item)
    requires Lives(buf, parent, r, t) && r.state == BEGIN_NODE && buf[r.p] == '?'
    requires At(buf, p, "<" + lead) && r.p == p + 1 + |lead| && Blanks(lead)
    ensures item.Instruction? && Well(item) && At(buf, p, Show(item))
  {
    hide Act, Run, Regs.Valid, At, Blanks, FreeOf;
    LastIsNul(buf, r.p);
    OneAt(buf, r.p);
    var n, u := HeaderOpens(buf, parent, r, t);
    LeadsLives(buf, parent, r, t, n, u);
    var s := SectionRead(buf, parent, n, u, "?>");
    item := Instruction(lead, s);
    SectionJoin(buf, p, lead, "?", s, "?>");
  }

  // ---------- text ----------

  lemma TextIs(buf: string, r: Regs, q: nat)
    requires CString(buf) && r.state == PCDATA && r.p <= q < |buf| && r.start < |buf|
    requires forall i: nat | r.p <= i < q :: Idle(buf, r.(p := i))
    ensures NoNul(buf[r.p..q]) && '<' !in buf[r.p..q]
  {
    Slice(buf, r.p, q);
    forall i: nat | i < q - r.p
      ensures buf[r.p..q][i] != NUL && buf[r.p..q][i] != '<'
    {
      assert Idle(buf, r.(p := r.p + i));
    }
  }

  lemma TextStopsAt(buf: string, r: Regs)
    requires CString(buf) && r.state == PCDATA && r.p < |buf| && r.start < |buf|
    ensures Idle(buf, r) <==> buf[r.p] != NUL && buf[r.p] != '<'
  {
  }

  lemma WordsRead(buf: string, parent: Option<string>, r: Regs, t: Trace) returns (item: Item)
    requires Lives(buf, parent, r, t) && r.state == BEGIN && buf[r.p] != NUL && buf[r.p] != '<'
    ensures item.Words? && Well(item) && At(buf, r.p, item.text)
    ensures buf[r.p + |item.text|] == '<' || (buf[r.p + |item.text|] == NUL && parent.None?)
  {
    hide Act, Run, Regs.Valid, Idle;
    var m, v := TextBegins(buf, parent, r, t);
    LeadsLives(buf, parent, r, t, m, v);
    TextStopsAt(buf, m);
    var q := IdleScan(buf, m);
    assert q != m.p;
    var u := IdleLeads(buf, parent, m, v, q);
    var n := m.(p := q);
    LeadsLives(buf, parent, m, v, n, u);
    TextStopsAt(buf, n);
    if buf[q] == NUL { LivesAtEnd(buf, parent, n, u); }
    TextIs(buf, m, q);
    item := Words(buf[r.p..q]);
    Slice(buf, r.p, q);
  }

  // ---------- whole documents ----------

  ghost predicate WrongAt(buf: string, parent: Option<string>, p: nat, w: Wrong) {
    var q := p + |ShowPath(w.path)|;
    && WellPath(w.path) && WellAll(w.items) && At(buf, p, ShowPath(w.path)) && At(buf, q, ShowAll(w.items))
    && MistakeAt(buf, Innermost(w.path, parent), q + |ShowAll(w.items)|, w.mistake)
  }

  lemma WrongHere(buf: string, parent: Option<string>, p: nat, m: Mistake)
    requires MistakeAt(buf, parent, p, m) && p < |buf|
    ensures WrongAt(buf, parent, p, Wrong([], [], m))
  {
    hide MistakeAt;
    NothingAt(buf, p);
  }

  lemma MistakeInBounds(buf: string, parent: Option<string>, p: nat, m: Mistake)
    requires MistakeAt(buf, parent, p, m)
    ensures p < |buf|
  {
  }

  lemma PathOfOne(o: Opened, rest: seq<Opened>, parent: Option<string>)
    ensures ShowPath([o] + rest) == ShowAll(o.before) + o.head.Text() + ">" + ShowPath(rest)
    ensures Innermost([o] + rest, parent) == Innermost(rest, Some(o.head.name))
    ensures WellPath([o] + rest) <==> WellAll(o.before) && o.head.Valid() && WellPath(rest)
  {
    var path := [o] + rest;
    assert path[0] == o && path[1..] == rest;
    assert forall i | 0 <= i < |rest| :: path[i + 1] == rest[i];
  }

  /** A mistake in the content of an element */
  lemma WrongInside(buf: string, parent: Option<string>, p: nat, head: Head, w: Wrong)
    requires head.Valid() && At(buf, p, head.Text() + ">")
    requires WrongAt(buf, Some(head.name), p + |head.Text()| + 1, w)
    ensures WrongAt(buf, parent, p, w.(path := [Opened([], head)] + w.path))
  {
    hide At, MistakeAt, ShowPath, WellPath, Innermost, Head.Text, Head.Valid;
    var o := Opened([], head);
    PathOfOne(o, w.path, parent);
    AtJoin(buf, p, head.Text() + ">", ShowPath(w.path));
    assert ShowPath([o] + w.path) == head.Text() + ">" + ShowPath(w.path);
  }

  /** The mistake that one more item stands before */
  function Behind(item: Item, w: Wrong): Wrong {
    if w.path == [] then w.(items := [item] + w.items)
    else w.(path := [Opened([item] + w.path[0].before, w.path[0].head)] + w.path[1..])
  }

  lemma WrongBehindText(buf: string, parent: Option<string>, p: nat, w: Wrong)
    requires WrongAt(buf, parent, p, w) && (buf[p] == '<' || buf[p] == NUL)
    ensures w.path == [] ==> w.items == [] || !w.items[0].Words?
    ensures w.path != [] ==> w.path[0].before == [] || !w.path[0].before[0].Words?
  {
    hide At, MistakeAt, ShowPath, ShowAll, WellAll;
    if w.path == [] {
      NoPath();
      WordsFirst(buf, p, w.items);
    } else {
      PathParts(buf, p, w.path);
      WordsFirst(buf, p, w.path[0].before);
    }
  }

  lemma NoPath()
    ensures ShowPath([]) == ""
  {
  }

  lemma WrongBehind(buf: string, parent: Option<string>, p: nat, item: Item, w: Wrong)
    requires Well(item) && At(buf, p, Show(item)) && WrongAt(buf, parent, p + |Show(item)|, w)
    requires item.Words? ==> p + |Show(item)| < |buf| && (buf[p + |Show(item)|] == '<' || buf[p + |Show(item)|] == NUL)
    ensures WrongAt(buf, parent, p, Behind(item, w))
  {
    hide At, MistakeAt, ShowPath, ShowAll, WellAll, Show, Well, WellPath, Innermost;
    if item.Words? { WrongBehindText(buf, parent, p + |Show(item)|, w); }
    NoPath();
    if w.path == [] {
      ConsItems(buf, p, item, w.items);
      assert Behind(item, w).path == [];
      TextAt(buf, p, Show(item));
      NothingAt(buf, p);
    } else {
      WrongBehindPath(buf, parent, p, item, w);
    }
  }

  lemma WrongBehindPath(buf: string, parent: Option<string>, p: nat, item: Item, w: Wrong)
    requires Well(item) && At(buf, p, Show(item)) && WrongAt(buf, parent, p + |Show(item)|, w) && w.path != []
    requires item.Words? ==> w.path[0].before == [] || !w.path[0].before[0].Words?
    ensures WrongAt(buf, parent, p, Behind(item, w))
  {
    hide At, MistakeAt, ShowPath, ShowAll, WellAll, Show, Well, WellPath, Innermost, Head.Text, Head.Valid;
    var o, rest := w.path[0], w.path[1..];
    assert w.path == [o] + rest;
    PathOfOne(o, rest, parent);
    var l := Opened([item] + o.before, o.head);
    PathOfOne(l, rest, parent);
    PathParts(buf, p + |Show(item)|, w.path);
    ConsItems(buf, p, item, o.before);
    LongerPath(buf, p, item, o, rest);
  }

  lemma LongerPath(buf: string, p: nat, item: Item, o: Opened, rest: seq<Opened>)
    requires At(buf, p, Show(item)) && At(buf, p + |Show(item)|, ShowPath([o] + rest))
    ensures At(buf, p, ShowPath([Opened([item] + o.before, o.head)] + rest))
    ensures |ShowPath([Opened([item] + o.before, o.head)] + rest)| == |Show(item)| + |ShowPath([o] + rest)|
  {
    hide At, ShowPath, ShowAll, Show, Head.Text;
    var l := Opened([item] + o.before, o.head);
    PathOfOne(o, rest, None);
    PathOfOne(l, rest, None);
    ConsShown(item, o.before);
    AtJoin(buf, p, Show(item), ShowPath([o] + rest));
    assert Show(item) + (ShowAll(o.before) + o.head.Text() + ">" + ShowPath(rest))
        == Show(item) + ShowAll(o.before) + o.head.Text() + ">" + ShowPath(rest);
  }

  lemma ConsShown(item: Item, rest: seq<Item>)
    ensures ShowAll([item] + rest) == Show(item) + ShowAll(rest)
  {
    assert ([item] + rest)[1..] == rest;
  }

  /** An element with children comes to an unexpected end if they do. */
  lemma ChildLives(buf: string, parent: Option<string>, r: Regs, t: Trace)
    requires Lives(buf, parent, r, t) && r.state == CHILDS
    ensures buf[r.p] != NUL && Lives(buf, Some(r.nodename), Start(r.p), t)
  {
    hide Act, Regs.Valid, Run;
    if buf[r.p] == NUL { LivesAtEnd(buf, parent, r, t); }
    ChildDescends(buf, parent, r);
    RunChild(buf, parent, r, t);
    StartIsValid(buf, r.p);
  }

  lemma SlashRead(buf: string, parent: Option<string>, r: Regs, t: Trace)
    requires Lives(buf, parent, r, t) && r.state == BODY && buf[r.p] == '/'
    ensures At(buf, r.p, "/") && r.p + 1 < |buf| && buf[r.p + 1] != NUL
    ensures buf[r.p + 1] == '>' ==> At(buf, r.p, "/>")
  {
    hide Act, Run, Regs.Valid;
    LastIsNul(buf, r.p);
    OneAt(buf, r.p);
    var n, u := SlashLeads(buf, parent, r, t);
    LeadsLives(buf, parent, r, t, n, u);
    if buf[n.p] == NUL { LivesAtEnd(buf, parent, n, u); }
    LastIsNul(buf, n.p);
    if buf[n.p] == '>' {
      OneAt(buf, n.p);
      AtJoin(buf, r.p, "/", ">");
    }
  }

  /** The item that is read, or where the mistake is that ends the reading */
  ghost predicate ItemOrWrong(buf: string, parent: Option<string>, p: nat, item: Item, wrong: Option<Wrong>) {
    match wrong
    case None => !item.Words? && Well(item) && At(buf, p, Show(item))
    case Some(w) => WrongAt(buf, parent, p, w)
  }

  lemma TagMistake(buf: string, parent: Option<string>, p: nat, head: Head, slip: Slip)
    requires CString(buf) && head.Valid() && At(buf, p, head.Text())
    requires AttributesEnd(buf, p + |head.Text()|, head.attrs, head.trail, Some(slip))
    ensures MistakeAt(buf, parent, p, InTag(head, slip))
  {
    hide At, Head.Valid, Head.Text, Slip.Text, Slip.Follows, After;
    AtJoin(buf, p, head.Text(), slip.Text());
    AfterFirst(buf, p + |head.Text()| + |slip.Text()|);
  }

  lemma SlashMistake(buf: string, parent: Option<string>, p: nat, head: Head)
    requires CString(buf) && head.Valid() && At(buf, p, head.Text() + "/")
    requires var c := buf[p + |head.Text()| + 1]; c != NUL && c != '>'
    ensures MistakeAt(buf, parent, p, NotSelfClosed(head))
  {
    hide Head.Valid, Head.Text;
    AfterFirst(buf, p + |head.Text()| + 1);
  }

  /** An element, when its start tag has been read up to what ends it */
  lemma {:induction false} ContentRead(buf: string, parent: Option<string>, r: Regs, t: Trace, p: nat, head: Head)
      returns (item: Item, wrong: Option<Wrong>)
    requires Lives(buf, parent, r, t) && r.state == BODY && r.nodename == head.name && head.Valid()
    requires At(buf, p, head.Text()) && r.p == p + |head.Text()| && (buf[r.p] == '/' || buf[r.p] == '>')
    ensures ItemOrWrong(buf, parent, p, item, wrong)
    decreases |buf| - r.p, 1
  {
    hide Act, Run, Regs.Valid, At, Blanks, IsName, ShowTag, ShowAll, ShowEnd;
    hide WellAll, WellEnd, WellTag, Lives, WrongAt, MistakeAt, IsMistake;
    LivesMeans(buf, parent, r, t);
    item, wrong := Words(""), None;
    var Head(lead, name, attrs, trail) := head;
    if buf[r.p] == '/' {
      SlashRead(buf, parent, r, t);
      if buf[r.p + 1] == '>' {
        item := SelfClosed(lead, name, attrs, trail);
        AtJoin(buf, p, head.Text(), "/>");
      } else {
        AtJoin(buf, p, head.Text(), "/");
        SlashMistake(buf, parent, p, head);
        MistakeInBounds(buf, parent, p, NotSelfClosed(head));
        WrongHere(buf, parent, p, NotSelfClosed(head));
        wrong := Some(Wrong([], [], NotSelfClosed(head)));
      }
    } else {
      item, wrong := ChildrenRead(buf, parent, r, t, p, head);
    }
  }

  /** An element with an end tag */
  lemma {:induction false} ChildrenRead(buf: string, parent: Option<string>, r: Regs, t: Trace, p: nat, head: Head)
      returns (item: Item, wrong: Option<Wrong>)
    requires Lives(buf, parent, r, t) && r.state == BODY && r.nodename == head.name && head.Valid()
    requires At(buf, p, head.Text()) && r.p == p + |head.Text()| && buf[r.p] == '>'
    ensures ItemOrWrong(buf, parent, p, item, wrong)
    decreases |buf| - r.p, 0
  {
    hide Act, Run, Regs.Valid, At, Blanks, IsName, ShowTag, ShowAll, ShowEnd;
    hide WellAll, WellEnd, WellTag, Lives, WrongAt;
    LivesMeans(buf, parent, r, t);
    item, wrong := Words(""), None;
    var Head(lead, name, attrs, trail) := head;
    LastIsNul(buf, r.p);
    OneAt(buf, r.p);
    AtJoin(buf, p, head.Text(), ">");
    TagNamed(lead, name, attrs, trail);
    var k, v := ChildsLeads(buf, parent, r, t);
    LeadsLives(buf, parent, r, t, k, v);
    ChildLives(buf, parent, k, v);
    StartBetween(buf, k.p);
    var items, endLead, endName, endTrail, inner := ItemsRead(buf, Some(name), Start(k.p), v);
    if inner.Some? {
      WrongInside(buf, parent, p, head, inner.value);
      wrong := Some(inner.value.(path := [Opened([], head)] + inner.value.path));
    } else {
      item := Paired(lead, name, attrs, trail, items, endLead, endName, endTrail);
      ThreeJoin(buf, p, head.Text() + ">", ShowAll(items), ShowEnd(endLead, endName, endTrail));
    }
  }

  lemma NoName(buf: string, parent: Option<string>, p: nat, lead: string)
    requires CString(buf) && At(buf, p, "<" + lead) && Blanks(lead)
    requires var c := buf[p + 1 + |lead|]; EndsName(c) && !Blank(c) && c !in {'!', '?', '/'}
    ensures WrongAt(buf, parent, p, Wrong([], [], NotNode(lead)))
  {
    hide Blank, Blanks, NameChar;
    AfterFirst(buf, p + 1 + |lead|);
    WrongHere(buf, parent, p, NotNode(lead));
  }

  /** An element, when the name of its tag comes next */
  lemma {:induction false} ElementRead(buf: string, parent: Option<string>, r: Regs, t: Trace, m: Regs, v: Trace,
                                       lead: string) returns (item: Item, wrong: Option<Wrong>)
    requires Lives(buf, parent, r, t) && Between(r) && Lives(buf, parent, m, v) && m.state == BEGIN_NODE
    requires At(buf, r.p, "<" + lead) && Blanks(lead) && m.p == r.p + 1 + |lead|
    requires buf[m.p] !in {NUL, '!', '?', '/'} && !Blank(buf[m.p])
    ensures ItemOrWrong(buf, parent, r.p, item, wrong)
    decreases |buf| - r.p, 0
  {
    hide Act, Run, Regs.Valid, At, Blanks, IsName, WellAttributes, ShowAttributes, ShowTag, AttrMap, ShowAll, ShowEnd;
    hide WellAll, WellEnd, Lives, WrongAt, MistakeAt, Blank, NameChar, AttributesEnd;
    LivesMeans(buf, parent, r, t);
    LivesMeans(buf, parent, m, v);
    item, wrong := Words(""), None;
    var name, attrs, trail, slip := TagRead(buf, parent, m, v);
    if name == "" {
      NoName(buf, parent, r.p, lead);
      wrong := Some(Wrong([], [], NotNode(lead)));
    } else {
      var head := Head(lead, name, attrs, trail);
      TagJoin(buf, r.p, lead, name, attrs, trail);
      TagLength(lead, name, attrs, trail);
      if slip.Some? {
        TagMistake(buf, parent, r.p, head, slip.value);
        WrongHere(buf, parent, r.p, InTag(head, slip.value));
        wrong := Some(Wrong([], [], InTag(head, slip.value)));
      } else {
        TagEnds(buf, m.p + |name| + |ShowAttributes(attrs)| + |trail|, attrs, trail);
        var n, u := TagLeads(buf, parent, r, t, lead, name, attrs, trail);
        LeadsLives(buf, parent, r, t, n, u);
        TagLonger(lead, name, attrs, trail);
        item, wrong := ContentRead(buf, parent, n, u, r.p, head);
      }
    }
  }

  lemma TagEnds(buf: string, q: nat, attrs: seq<Attribute>, trail: string)
    requires AttributesEnd(buf, q, attrs, trail, None)
    ensures q < |buf| && (buf[q] == '>' || buf[q] == '/')
  {
  }

  lemma TagLonger(lead: string, name: string, attrs: seq<Attribute>, trail: string)
    ensures |ShowTag(lead, name, attrs, trail)| > 0
  {
  }

  lemma TagLength(lead: string, name: string, attrs: seq<Attribute>, trail: string)
    ensures |ShowTag(lead, name, attrs, trail)| == 1 + |lead| + |name| + |ShowAttributes(attrs)| + |trail|
  {
  }

  /** A declaration */
  lemma DeclarationRead(buf: string, parent: Option<string>, r: Regs, t: Trace, p: nat, lead: string)
      returns (item: Item, wrong: Option<Mistake>)
    requires Lives(buf, parent, r, t) && r.state == BEGIN_NODE && buf[r.p] == '!' && r.nbrackets == 0
    requires At(buf, p, "<" + lead) && r.p == p + 1 + |lead| && Blanks(lead)
    ensures ItemOrMistake(buf, parent, p, item, wrong)
  {
    hide Act, Run, Regs.Valid, At, Blanks, Show, Well;
    LastIsNul(buf, r.p);
    OneAt(buf, r.p);
    if buf[r.p + 1] == '[' {
      LastIsNul(buf, r.p + 1);
      OneAt(buf, r.p + 1);
      AtJoin(buf, r.p, "!", "[");
      assert "!" + "[" == "![";
      item, wrong := CDataRead(buf, parent, r, t, p, lead);
    } else if buf[r.p + 1] == 'D' || buf[r.p + 1] == 'd' {
      item, wrong := TypeRead(buf, parent, r, t, p, lead);
    } else {
      item, wrong := CommentRead(buf, parent, r, t, p, lead);
    }
  }

  /** Markup other than an end tag */
  lemma {:induction false} MarkupRead(buf: string, parent: Option<string>, r: Regs, t: Trace, m: Regs, v: Trace,
                                      lead: string) returns (item: Item, wrong: Option<Wrong>)
    requires Lives(buf, parent, r, t) && Between(r) && Lives(buf, parent, m, v)
    requires m == r.(state := BEGIN_NODE, next := BEGIN_NODE, p := r.p + 1 + |lead|)
    requires At(buf, r.p, "<" + lead) && Blanks(lead) && buf[m.p] != NUL && buf[m.p] != '/' && !Blank(buf[m.p])
    ensures ItemOrWrong(buf, parent, r.p, item, wrong)
    decreases |buf| - r.p, 1
  {
    hide Act, Run, Regs.Valid, At, Blanks, Show, Well, Blank, MistakeAt, WrongAt;
    wrong := None;
    if buf[m.p] == '!' {
      var mistake;
      item, mistake := DeclarationRead(buf, parent, m, v, r.p, lead);
      if mistake.Some? {
        WrongHere(buf, parent, r.p, mistake.value);
        wrong := Some(Wrong([], [], mistake.value));
      }
    } else if buf[m.p] == '?' {
      item := HeaderRead(buf, parent, m, v, r.p, lead);
    } else {
      item, wrong := ElementRead(buf, parent, r, t, m, v, lead);
    }
  }

  /** What is left after the items: nothing outside, an end tag inside an element */
  ghost predicate Ends(buf: string, parent: Option<string>, p: nat, lead: string, name: string, trail: string) {
    if parent.None? then p < |buf| && buf[p] == NUL
    else WellEnd(parent.value, lead, name, trail) && At(buf, p, ShowEnd(lead, name, trail))
  }

  lemma ConsItems(buf: string, p: nat, item: Item, rest: seq<Item>)
    requires At(buf, p, Show(item)) && At(buf, p + |Show(item)|, ShowAll(rest)) && Well(item) && WellAll(rest)
    requires item.Words? && rest != [] ==> !rest[0].Words?
    ensures At(buf, p, ShowAll([item] + rest)) && WellAll([item] + rest)
    ensures |ShowAll([item] + rest)| == |Show(item)| + |ShowAll(rest)|
  {
    hide At, Show, Well;
    AtJoin(buf, p, Show(item), ShowAll(rest));
    assert ([item] + rest)[1..] == rest;
  }

  lemma TextBeginsWell(s: string)
    requires Well(Words(s))
    ensures s != "" && s[0] != '<' && s[0] != NUL
  {
    assert s[0] in s;
  }

  lemma WordsBegin(items: seq<Item>)
    requires WellAll(items) && items != [] && items[0].Words?
    ensures ShowAll(items) != "" && ShowAll(items)[0] != '<' && ShowAll(items)[0] != NUL
  {
    hide Show, Well, ShowAll, WellAll, NoNul;
    WordsShow(items[0]);
    ItemsUnfold(items);
    TextBeginsWell(items[0].text);
    assert ShowAll(items)[0] == items[0].text[0];
  }

  lemma WordsFirst(buf: string, p: nat, rest: seq<Item>)
    requires At(buf, p, ShowAll(rest)) && WellAll(rest) && (buf[p] == '<' || buf[p] == NUL)
    ensures rest != [] ==> !rest[0].Words?
  {
    if rest != [] && rest[0].Words? {
      WordsBegin(rest);
      FirstChar(buf, p, ShowAll(rest));
    }
  }

  lemma ItemIsSome(item: Item)
    requires Well(item)
    ensures Show(item) != []
  {
  }

  /** How an activation's reading ends: as it should, or in a mistake */
  ghost predicate EndsOrWrong(buf: string, parent: Option<string>, p: nat, items: seq<Item>, lead: string, name: string,
                              trail: string, wrong: Option<Wrong>) {
    match wrong
    case None =>
      WellAll(items) && At(buf, p, ShowAll(items)) && Ends(buf, parent, p + |ShowAll(items)|, lead, name, trail)
    case Some(w) => WrongAt(buf, parent, p, w)
  }

  lemma EndReading(buf: string, parent: Option<string>, p: nat, lead: string, name: string, trail: string,
                   mistake: Option<Mistake>) returns (wrong: Option<Wrong>)
    requires EndOrMistake(buf, parent, p, lead, name, trail, mistake) && p < |buf|
    ensures EndsOrWrong(buf, parent, p, [], lead, name, trail, wrong)
  {
    hide MistakeAt, WrongAt, WellEnd, ShowEnd;
    NoItems();
    NothingAt(buf, p);
    wrong := None;
    if mistake.Some? {
      WrongHere(buf, parent, p, mistake.value);
      wrong := Some(Wrong([], [], mistake.value));
    }
  }

  lemma ConsReading(buf: string, parent: Option<string>, p: nat, item: Item, rest: seq<Item>, lead: string,
                    name: string, trail: string, after: Option<Wrong>) returns (items: seq<Item>, wrong: Option<Wrong>)
    requires Well(item) && At(buf, p, Show(item))
    requires EndsOrWrong(buf, parent, p + |Show(item)|, rest, lead, name, trail, after)
    requires item.Words? ==> p + |Show(item)| < |buf| && (buf[p + |Show(item)|] == '<' || buf[p + |Show(item)|] == NUL)
    ensures EndsOrWrong(buf, parent, p, items, lead, name, trail, wrong)
  {
    hide At, Show, Well, WrongAt, WellAll, ShowAll, Ends, Behind;
    items, wrong := [item] + rest, None;
    if after.Some? {
      WrongBehind(buf, parent, p, item, after.value);
      wrong := Some(Behind(item, after.value));
    } else {
      if item.Words? { WordsFirst(buf, p + |Show(item)|, rest); }
      ConsItems(buf, p, item, rest);
    }
  }

  /** What an activation reads is a sequence of items, and then the end that it needs or a mistake. */
  lemma {:induction false} ItemsRead(buf: string, parent: Option<string>, r: Regs, t: Trace)
      returns (items: seq<Item>, lead: string, name: string, trail: string, wrong: Option<Wrong>)
    requires Lives(buf, parent, r, t) && Between(r) && (parent.Some? ==> IsName(parent.value))
    ensures EndsOrWrong(buf, parent, r.p, items, lead, name, trail, wrong)
    decreases |buf| - r.p, 3
  {
    hide Act, Run, Regs.Valid, At, Blanks, IsName, Show, Well, ShowAll, WellAll, ShowEnd, WellEnd, Lives, WrongAt;
    hide MistakeAt, Blank;
    items, lead, name, trail, wrong := [], "", "", "", None;
    NoItems();
    LivesMeans(buf, parent, r, t);
    NothingAt(buf, r.p);
    if buf[r.p] == NUL {
      LivesAtEnd(buf, parent, r, t);
    } else if buf[r.p] == '<' {
      var m, v;
      lead, m, v := AngleRead(buf, parent, r, t);
      if buf[m.p] == '/' {
        var mistake;
        name, trail, mistake := EndRead(buf, parent, m, v, r.p, lead);
        wrong := EndReading(buf, parent, r.p, lead, name, trail, mistake);
      } else {
        items, lead, name, trail, wrong := MarkupThenItems(buf, parent, r, t, m, v, lead);
      }
    } else {
      var item := WordsRead(buf, parent, r, t);
      WordsShow(item);
      ItemIsSome(item);
      var n, u := WordsLead(buf, parent, r, t, item.text);
      LeadsLives(buf, parent, r, t, n, u);
      items, lead, name, trail, wrong := ItemsRead(buf, parent, n, u);
      items, wrong := ConsReading(buf, parent, r.p, item, items, lead, name, trail, wrong);
    }
  }

  /** Markup and what follows it */
  lemma {:induction false} MarkupThenItems(buf: string, parent: Option<string>, r: Regs, t: Trace, m: Regs, v: Trace,
                                           open: string)
      returns (items: seq<Item>, lead: string, name: string, trail: string, wrong: Option<Wrong>)
    requires Lives(buf, parent, r, t) && Between(r) && (parent.Some? ==> IsName(parent.value))
    requires Lives(buf, parent, m, v) && m == r.(state := BEGIN_NODE, next := BEGIN_NODE, p := r.p + 1 + |open|)
    requires At(buf, r.p, "<" + open) && Blanks(open) && buf[m.p] != NUL && buf[m.p] != '/' && !Blank(buf[m.p])
    ensures EndsOrWrong(buf, parent, r.p, items, lead, name, trail, wrong)
    decreases |buf| - r.p, 2
  {
    hide Act, Run, Regs.Valid, At, Blanks, IsName, Show, Well, ShowAll, WellAll, ShowEnd, WellEnd, Lives, WrongAt;
    hide MistakeAt, Blank;
    items, lead, name, trail := [], "", "", "";
    LivesMeans(buf, parent, r, t);
    var item;
    item, wrong := MarkupRead(buf, parent, r, t, m, v, open);
    if wrong.None? {
      var n, u := ItemLeads(buf, parent, r, t, item);
      LeadsLives(buf, parent, r, t, n, u);
      ItemIsSome(item);
      items, lead, name, trail, wrong := ItemsRead(buf, parent, n, u);
      items, wrong := ConsReading(buf, parent, r.p, item, items, lead, name, trail, wrong);
    }
  }

  lemma NoItems()
    ensures ShowAll([]) == "" && WellAll([])
  {
  }
}
