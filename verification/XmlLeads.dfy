/** The steps of a run through the pieces of markup: each leads to where the next piece begins. */
module XmlLeads {
  import opened Optional
  import opened XmlMachine
  import opened XmlParser
  import opened XmlDocument

  /** s stands in the buffer at p, before the terminator. */
  ghost predicate At(buf: string, p: nat, s: string) {
    p + |s| < |buf| && buf[p..p + |s|] == s
  }

  lemma AtSplit(buf: string, p: nat, a: string, b: string)
    requires At(buf, p, a + b)
    ensures At(buf, p, a) && At(buf, p + |a|, b)
  {
    assert buf[p..p + |a|] == buf[p..p + |a + b|][..|a|];
    assert buf[p + |a|..p + |a| + |b|] == buf[p..p + |a + b|][|a|..];
  }

  lemma AtChars(buf: string, p: nat, s: string)
    requires At(buf, p, s)
    ensures forall i | 0 <= i < |s| :: buf[p + i] == s[i]
  {
    forall i | 0 <= i < |s|
      ensures buf[p + i] == s[i]
    {
      assert buf[p..p + |s|][i] == s[i];
    }
  }

  /** The run from (r, t) is the run from (n, u). */
  ghost predicate Leads(buf: string, parent: Option<string>, r: Regs, t: Trace, n: Regs, u: Trace) {
    && CString(buf) && r.Valid(buf) && n.Valid(buf) && n.p < |buf|
    && Run(buf, parent, r, t) == Run(buf, parent, n, u)
  }

  lemma StayLeads(buf: string, parent: Option<string>, r: Regs, t: Trace, n: Regs, ts: seq<Tag>) returns (u: Trace)
    requires CString(buf) && r.Valid(buf) && buf[r.p] != NUL && Act(buf, parent, r) == Stay(n, ts)
    ensures Leads(buf, parent, r, t, n, u) && u.events == t.events
  {
    RunRound(buf, parent, r, t);
    u := Later(t, 0, [], ts);
  }

  lemma AdvanceLeads(buf: string, parent: Option<string>, r: Regs, t: Trace, n: Regs, es: seq<Event>, ts: seq<Tag>)
      returns (u: Trace)
    requires CString(buf) && r.Valid(buf) && buf[r.p] != NUL && Act(buf, parent, r) == Advance(n, es, ts)
    ensures Leads(buf, parent, r, t, n, u) && u.events == t.events + es
  {
    RunRound(buf, parent, r, t);
    u := Later(t, Tick(buf, n.p), es, ts);
  }

  // ---------- states that pass over characters ----------

  /** The character at r.p is passed over without any effect. */
  predicate Idle(buf: string, r: Regs)
    requires CString(buf) && r.p < |buf| && r.start < |buf|
  {
    var p := r.p;
    buf[p] != NUL &&
    match r.state
    case PCDATA => buf[p] != '<'
    case TAG_NAME => IsValidChar(buf[p])
    case ATTRIB_NAME => IsValidChar(buf[p])
    case CLOSE => IsValidChar(buf[p])
    case ATTRIB_VAL => buf[p] != buf[r.start]
    case CDATA => !("]]>" <= buf[p..])
    case COMMENT => !("-->" <= buf[p..])
    case HEADER => !("?>" <= buf[p..])
    case _ => false
  }

  lemma IdleAct(buf: string, parent: Option<string>, r: Regs)
    requires CString(buf) && r.Valid(buf) && r.start < |buf| && Idle(buf, r)
    ensures Act(buf, parent, r) == Advance(r.(p := r.p + 1), [], [])
  {
    var p := r.p;
    if r.state.CDATA? || r.state.COMMENT? {
      if buf[p + 1] != NUL && p + 2 < |buf| {
        assert buf[p..][0] == buf[p] && buf[p..][1] == buf[p + 1] && buf[p..][2] == buf[p + 2];
      }
    } else if r.state.HEADER? {
      assert buf[p..][0] == buf[p] && buf[p..][1] == buf[p + 1];
    }
  }

  lemma {:induction false} IdleLeads(buf: string, parent: Option<string>, r: Regs, t: Trace, q: nat) returns (u: Trace)
    requires CString(buf) && r.Valid(buf) && r.start < |buf| && r.p <= q < |buf|
    requires forall i: nat | r.p <= i < q :: Idle(buf, r.(p := i))
    ensures Leads(buf, parent, r, t, r.(p := q), u) && u.events == t.events
    decreases q - r.p
  {
    hide Act, Idle;
    if r.p == q {
      u := t;
    } else {
      assert Idle(buf, r.(p := r.p));
      IdleAct(buf, parent, r);
      IdleHasChar(buf, r);
      u := AdvanceLeads(buf, parent, r, t, r.(p := r.p + 1), [], []);
      u := IdleLeads(buf, parent, r.(p := r.p + 1), u, q);
    }
  }

  lemma IdleHasChar(buf: string, r: Regs)
    requires CString(buf) && r.p < |buf| && r.start < |buf| && Idle(buf, r)
    ensures buf[r.p] != NUL
  {
  }

  // ---------- blanks ----------

  lemma BlankLeads(buf: string, parent: Option<string>, r: Regs, t: Trace) returns (u: Trace)
    requires CString(buf) && r.Valid(buf) && r.state == IGNORE_SPACES && Blank(buf[r.p])
    ensures Leads(buf, parent, r, t, r.(p := r.p + 1), u) && u.events == t.events
  {
    u := AdvanceLeads(buf, parent, r, t, r.(p := r.p + 1), [], []);
  }

  lemma {:induction false} BlanksLead(buf: string, parent: Option<string>, r: Regs, t: Trace, gap: string)
      returns (u: Trace)
    requires CString(buf) && r.Valid(buf) && r.state == IGNORE_SPACES && At(buf, r.p, gap) && Blanks(gap)
    ensures Leads(buf, parent, r, t, r.(p := r.p + |gap|), u) && u.events == t.events
    decreases |gap|
  {
    hide Act, Run, Regs.Valid, Blank;
    if gap == [] {
      u := t;
    } else {
      AtChars(buf, r.p, gap);
      assert buf[r.p + 0] == gap[0] && gap == [gap[0]] + gap[1..];
      AtSplit(buf, r.p, [gap[0]], gap[1..]);
      u := BlankLeads(buf, parent, r, t);
      u := BlanksLead(buf, parent, r.(p := r.p + 1), u, gap[1..]);
    }
  }

  lemma BlanksEnd(buf: string, parent: Option<string>, r: Regs, t: Trace) returns (n: Regs, u: Trace)
    requires CString(buf) && r.Valid(buf) && r.state == IGNORE_SPACES && buf[r.p] != NUL && !Blank(buf[r.p])
    ensures Leads(buf, parent, r, t, n, u) && u.events == t.events && n == r.(state := r.next)
  {
    n := r.(state := r.next);
    u := StayLeads(buf, parent, r, t, n, []);
  }

  /** Over all blanks to the state that waits behind them */
  lemma SkipLeads(buf: string, parent: Option<string>, r: Regs, t: Trace, gap: string) returns (n: Regs, u: Trace)
    requires CString(buf) && r.Valid(buf) && r.state == IGNORE_SPACES && At(buf, r.p, gap) && Blanks(gap)
    requires buf[r.p + |gap|] != NUL && !Blank(buf[r.p + |gap|])
    ensures Leads(buf, parent, r, t, n, u) && u.events == t.events
    ensures n == r.(p := r.p + |gap|, state := r.next)
  {
    hide Act, Run, Regs.Valid, Blank;
    u := BlanksLead(buf, parent, r, t, gap);
    n, u := BlanksEnd(buf, parent, r.(p := r.p + |gap|), u);
  }

  // ---------- tags ----------

  /** What stays the same while one piece of markup is read. */
  ghost predicate SameCounts(r: Regs, n: Regs) {
    n.nsubs == r.nsubs && n.nbrackets == r.nbrackets
  }

  lemma AngleOpens(buf: string, parent: Option<string>, r: Regs, t: Trace) returns (n: Regs, u: Trace)
    requires CString(buf) && r.Valid(buf) && r.state == BEGIN && buf[r.p] == '<'
    ensures Leads(buf, parent, r, t, n, u) && u.events == t.events
    ensures n == r.(state := IGNORE_SPACES, next := BEGIN_NODE, p := r.p + 1)
  {
    n := r.(state := IGNORE_SPACES, next := BEGIN_NODE, p := r.p + 1);
    u := AdvanceLeads(buf, parent, r, t, n, [], []);
  }

  /** From a less-than sign to the state that looks at what kind of node it opens. */
  lemma AngleLeads(buf: string, parent: Option<string>, r: Regs, t: Trace, lead: string) returns (n: Regs, u: Trace)
    requires CString(buf) && r.Valid(buf) && r.state == BEGIN && At(buf, r.p, "<" + lead) && Blanks(lead)
    requires buf[r.p + 1 + |lead|] != NUL && !Blank(buf[r.p + 1 + |lead|])
    ensures Leads(buf, parent, r, t, n, u) && u.events == t.events
    ensures n == r.(state := BEGIN_NODE, next := BEGIN_NODE, p := r.p + 1 + |lead|)
  {
    hide Act, Run, Regs.Valid, Blank, Blanks;
    AtSplit(buf, r.p, "<", lead);
    LastChar(buf, r.p, '<');
    n, u := AngleOpens(buf, parent, r, t);
    n, u := SkipLeads(buf, parent, n, u, lead);
  }

  lemma LastChar(buf: string, p: nat, c: char)
    requires At(buf, p, [c])
    ensures buf[p] == c
  {
    AtChars(buf, p, [c]);
    assert buf[p + 0] == c;
  }

  lemma NameIdles(buf: string, r: Regs, name: string, i: nat)
    requires CString(buf) && r.start < |buf| && At(buf, r.p, name) && IsName(name) && r.p <= i < r.p + |name|
    requires r.state.TAG_NAME? || r.state.ATTRIB_NAME? || r.state.CLOSE?
    ensures Idle(buf, r.(p := i))
  {
    AtChars(buf, r.p, name);
    assert buf[r.p + (i - r.p)] == name[i - r.p] && IsValidChar(name[i - r.p]);
  }

  /** A run of name characters in a state that collects a name. */
  lemma NameLeads(buf: string, parent: Option<string>, r: Regs, t: Trace, name: string) returns (u: Trace)
    requires CString(buf) && r.Valid(buf) && r.start == r.p && At(buf, r.p, name) && IsName(name)
    requires r.state.TAG_NAME? || r.state.ATTRIB_NAME? || r.state.CLOSE?
    ensures Leads(buf, parent, r, t, r.(p := r.p + |name|), u) && u.events == t.events
    ensures buf[r.p..r.p + |name|] == name
  {
    hide Act, Run, Regs.Valid, Idle, IsName;
    forall i: nat | r.p <= i < r.p + |name|
      ensures Idle(buf, r.(p := i))
    {
      NameIdles(buf, r, name, i);
    }
    u := IdleLeads(buf, parent, r, t, r.p + |name|);
  }

  lemma NameBegins(buf: string, parent: Option<string>, r: Regs, t: Trace) returns (n: Regs, u: Trace)
    requires CString(buf) && r.Valid(buf) && r.state == BEGIN_NODE && NameChar(buf[r.p])
    ensures Leads(buf, parent, r, t, n, u) && u.events == t.events
    ensures n == r.(state := TAG_NAME, start := r.p)
  {
    n := r.(state := TAG_NAME, start := r.p);
    u := StayLeads(buf, parent, r, t, n, []);
  }

  lemma NameEnds(buf: string, parent: Option<string>, r: Regs, t: Trace) returns (n: Regs, u: Trace)
    requires CString(buf) && r.Valid(buf) && r.state == TAG_NAME && r.start < r.p
    requires buf[r.p] != NUL && !NameChar(buf[r.p])
    ensures Leads(buf, parent, r, t, n, u) && u.events == t.events
    ensures n == r.(nodename := buf[r.start..r.p], nameAt := r.start, attribs := map[],
                    state := IGNORE_SPACES, next := BODY)
  {
    n := r.(nodename := buf[r.start..r.p], nameAt := r.start, attribs := map[],
            state := IGNORE_SPACES, next := BODY);
    u := StayLeads(buf, parent, r, t, n, []);
  }

  lemma NameIsSome(name: string)
    requires IsName(name)
    ensures name != [] && NameChar(name[0]) && name[0] != NUL && !Blank(name[0])
  {
  }

  lemma TextAt(buf: string, p: nat, s: string)
    requires At(buf, p, s)
    ensures p + |s| < |buf| && buf[p..p + |s|] == s
  {
  }

  lemma FirstChar(buf: string, p: nat, s: string)
    requires At(buf, p, s) && s != []
    ensures buf[p] == s[0]
  {
    AtChars(buf, p, s);
    assert buf[p + 0] == s[0];
  }

  /** The start of a tag, up to and including its name. */
  lemma StartTagLeads(buf: string, parent: Option<string>, r: Regs, t: Trace, lead: string, name: string)
      returns (n: Regs, u: Trace)
    requires CString(buf) && r.Valid(buf) && r.state == BEGIN
    requires At(buf, r.p, "<" + lead + name) && Blanks(lead) && IsName(name)
    requires buf[r.p + 1 + |lead| + |name|] != NUL && !NameChar(buf[r.p + 1 + |lead| + |name|])
    ensures Leads(buf, parent, r, t, n, u) && u.events == t.events && SameCounts(r, n)
    ensures n.state == IGNORE_SPACES && n.next == BODY && n.p == r.p + 1 + |lead| + |name|
    ensures n.nodename == name && n.attribs == map[]
  {
    hide Act, Run, Regs.Valid, At, Blanks, IsName, Blank, NameChar;
    AtSplit(buf, r.p, "<" + lead, name);
    NameIsSome(name);
    FirstChar(buf, r.p + 1 + |lead|, name);
    n, u := AngleLeads(buf, parent, r, t, lead);
    n, u := NameBegins(buf, parent, n, u);
    u := NameLeads(buf, parent, n, u, name);
    n, u := NameEnds(buf, parent, n.(p := n.p + |name|), u);
  }

  // ---------- attributes ----------

  lemma AttrNameBegins(buf: string, parent: Option<string>, r: Regs, t: Trace) returns (n: Regs, u: Trace)
    requires CString(buf) && r.Valid(buf) && r.state == BODY && buf[r.p] != NUL && buf[r.p] != '/' && buf[r.p] != '>'
    ensures Leads(buf, parent, r, t, n, u) && u.events == t.events
    ensures n == r.(state := ATTRIB_NAME, start := r.p)
  {
    n := r.(state := ATTRIB_NAME, start := r.p);
    u := StayLeads(buf, parent, r, t, n, []);
  }

  lemma AttrNameEnds(buf: string, parent: Option<string>, r: Regs, t: Trace) returns (n: Regs, u: Trace)
    requires CString(buf) && r.Valid(buf) && r.state == ATTRIB_NAME && r.start < r.p
    requires buf[r.p] != NUL && !NameChar(buf[r.p]) && buf[r.start..r.p] !in r.attribs
    ensures Leads(buf, parent, r, t, n, u) && u.events == t.events
    ensures n == r.(aname := buf[r.start..r.p], state := IGNORE_SPACES, next := EQUALS)
  {
    n := r.(aname := buf[r.start..r.p], state := IGNORE_SPACES, next := EQUALS);
    u := StayLeads(buf, parent, r, t, n, []);
  }

  lemma EqualsLeads(buf: string, parent: Option<string>, r: Regs, t: Trace) returns (n: Regs, u: Trace)
    requires CString(buf) && r.Valid(buf) && r.state == EQUALS && buf[r.p] == '='
    ensures Leads(buf, parent, r, t, n, u) && u.events == t.events
    ensures n == r.(state := IGNORE_SPACES, next := ATTVAL_BEGIN, p := r.p + 1)
  {
    n := r.(state := IGNORE_SPACES, next := ATTVAL_BEGIN, p := r.p + 1);
    u := AdvanceLeads(buf, parent, r, t, n, [], []);
  }

  lemma QuoteOpens(buf: string, parent: Option<string>, r: Regs, t: Trace) returns (n: Regs, u: Trace)
    requires CString(buf) && r.Valid(buf) && r.state == ATTVAL_BEGIN && (buf[r.p] == '"' || buf[r.p] == '\'')
    ensures Leads(buf, parent, r, t, n, u) && u.events == t.events
    ensures n == r.(state := ATTRIB_VAL, start := r.p, p := r.p + 1)
  {
    n := r.(state := ATTRIB_VAL, start := r.p, p := r.p + 1);
    u := AdvanceLeads(buf, parent, r, t, n, [], []);
  }

  lemma QuoteCloses(buf: string, parent: Option<string>, r: Regs, t: Trace) returns (n: Regs, u: Trace)
    requires CString(buf) && r.Valid(buf) && r.state == ATTRIB_VAL && buf[r.p] == buf[r.start] && buf[r.p] != NUL
    ensures Leads(buf, parent, r, t, n, u) && u.events == t.events
    ensures n == r.(attribs := r.attribs[r.aname := buf[r.start + 1..r.p]], state := IGNORE_SPACES, next := BODY,
                    p := r.p + 1)
  {
    n := r.(attribs := r.attribs[r.aname := buf[r.start + 1..r.p]], state := IGNORE_SPACES, next := BODY,
            p := r.p + 1);
    u := AdvanceLeads(buf, parent, r, t, n, [], []);
  }

  lemma ValueIdle(buf: string, r: Regs, value: string, i: nat)
    requires CString(buf) && r.start < |buf| && r.state == ATTRIB_VAL && At(buf, r.p, value) && r.p <= i < r.p + |value|
    requires NoNul(value) && buf[r.start] !in value
    ensures Idle(buf, r.(p := i))
  {
    AtChars(buf, r.p, value);
    assert buf[r.p + (i - r.p)] == value[i - r.p] && value[i - r.p] in value;
  }

  lemma ValueLeads(buf: string, parent: Option<string>, r: Regs, t: Trace, value: string) returns (u: Trace)
    requires CString(buf) && r.Valid(buf) && r.state == ATTRIB_VAL && r.p == r.start + 1
    requires At(buf, r.p, value) && NoNul(value) && buf[r.start] !in value
    ensures Leads(buf, parent, r, t, r.(p := r.p + |value|), u) && u.events == t.events
    ensures buf[r.p..r.p + |value|] == value
  {
    hide Act, Run, Regs.Valid, Idle, NoNul;
    TextAt(buf, r.p, value);
    forall i: nat | r.p <= i < r.p + |value|
      ensures Idle(buf, r.(p := i))
    {
      ValueIdle(buf, r, value, i);
    }
    u := IdleLeads(buf, parent, r, t, r.p + |value|);
  }

  /** The blanks before an attribute and its name, up to the state that looks for the equals sign. */
  lemma AttrNameLeads(buf: string, parent: Option<string>, r: Regs, t: Trace, gap: string, name: string)
      returns (n: Regs, u: Trace)
    requires CString(buf) && r.Valid(buf) && r.state == IGNORE_SPACES && r.next == BODY
    requires At(buf, r.p, gap + name) && Blanks(gap) && IsName(name)
    ensures Leads(buf, parent, r, t, n, u) && u.events == t.events
    ensures n == r.(state := ATTRIB_NAME, start := r.p + |gap|, p := r.p + |gap| + |name|)
    ensures buf[n.start..n.p] == name && n.start < n.p
  {
    hide Act, Run, Regs.Valid, At, Blanks, IsName;
    AtSplit(buf, r.p, gap, name);
    NameIsSome(name);
    FirstChar(buf, r.p + |gap|, name);
    n, u := SkipLeads(buf, parent, r, t, gap);
    n, u := AttrNameBegins(buf, parent, n, u);
    u := NameLeads(buf, parent, n, u, name);
    n := n.(p := n.p + |name|);
  }

  /** From the end of an attribute's name to the opening of its value. */
  lemma EqualsQuoteLeads(buf: string, parent: Option<string>, r: Regs, t: Trace, before: string, after: string,
                         quote: char) returns (n: Regs, u: Trace)
    requires CString(buf) && r.Valid(buf) && r.state == ATTRIB_NAME && r.start < r.p
    requires buf[r.start..r.p] !in r.attribs && Blanks(before) && Blanks(after) && (quote == '"' || quote == '\'')
    requires At(buf, r.p, before + "=" + after + [quote])
    ensures Leads(buf, parent, r, t, n, u) && u.events == t.events
    ensures n == r.(aname := buf[r.start..r.p], state := ATTRIB_VAL, next := ATTVAL_BEGIN,
                    start := r.p + |before| + 1 + |after|, p := r.p + |before| + 2 + |after|)
    ensures buf[n.start] == quote
  {
    hide Act, Run, Regs.Valid, At, Blanks;
    var q := r.p + |before|;
    AtSplit(buf, r.p, before + "=" + after, [quote]);
    AtSplit(buf, r.p, before + "=", after);
    AtSplit(buf, r.p, before, "=");
    LastChar(buf, q, '=');
    LastChar(buf, q + 1 + |after|, quote);
    FirstOf(buf, r.p, before, '=');
    n, u := AttrNameEnds(buf, parent, r, t);
    n, u := SkipLeads(buf, parent, n, u, before);
    n, u := EqualsLeads(buf, parent, n, u);
    n, u := SkipLeads(buf, parent, n, u, after);
    n, u := QuoteOpens(buf, parent, n, u);
  }

  /** Blanks followed by something else begin with one of both. */
  lemma FirstOf(buf: string, p: nat, gap: string, c: char)
    requires At(buf, p, gap) && Blanks(gap) && buf[p + |gap|] == c
    ensures buf[p] == c || Blank(buf[p])
  {
    if gap != [] { FirstChar(buf, p, gap); }
  }

  lemma FourParts(buf: string, p: nat, a: string, b: string, c: string, d: string)
    ensures At(buf, p, a + b + c + d) ==>
              && At(buf, p, a) && At(buf, p + |a|, b) && At(buf, p + |a| + |b|, c)
              && At(buf, p + |a| + |b| + |c|, d)
  {
    hide At;
    if At(buf, p, a + b + c + d) {
      AtSplit(buf, p, a + b + c, d);
      AtSplit(buf, p, a + b, c);
      AtSplit(buf, p, a, b);
    }
  }

  /** The parts of an attribute in the text */
  lemma AttributeParts(buf: string, p: nat, a: Attribute)
    requires At(buf, p, ShowAttribute(a))
    ensures var q := p + |a.gap| + |a.name|; var v := q + |a.before| + 2 + |a.after|;
            && At(buf, p, a.gap + a.name) && At(buf, q, a.before + "=" + a.after + [a.quote])
            && At(buf, v, a.value) && At(buf, v + |a.value|, [a.quote])
            && p + |ShowAttribute(a)| == v + |a.value| + 1
  {
    FourParts(buf, p, a.gap + a.name, a.before + "=" + a.after + [a.quote], a.value, [a.quote]);
    assert ShowAttribute(a)
        == (a.gap + a.name) + (a.before + "=" + a.after + [a.quote]) + a.value + [a.quote];
  }

  lemma AttrLeads(buf: string, parent: Option<string>, r: Regs, t: Trace, a: Attribute)
      returns (n: Regs, u: Trace)
    requires CString(buf) && r.Valid(buf) && r.state == IGNORE_SPACES && r.next == BODY
    requires At(buf, r.p, ShowAttribute(a)) && WellAttribute(a) && a.name !in r.attribs
    ensures Leads(buf, parent, r, t, n, u) && u.events == t.events && SameCounts(r, n)
    ensures n.state == IGNORE_SPACES && n.next == BODY && n.p == r.p + |ShowAttribute(a)|
    ensures n.nodename == r.nodename && n.attribs == r.attribs[a.name := a.value]
  {
    hide Act, Run, Regs.Valid, At, Blanks, IsName, ShowAttribute;
    AttributeParts(buf, r.p, a);
    n, u := AttrNameLeads(buf, parent, r, t, a.gap, a.name);
    n, u := EqualsQuoteLeads(buf, parent, n, u, a.before, a.after, a.quote);
    u := ValueLeads(buf, parent, n, u, a.value);
    LastChar(buf, n.p + |a.value|, a.quote);
    n, u := QuoteCloses(buf, parent, n.(p := n.p + |a.value|), u);
  }

  lemma NameIsNew(attrs: seq<Attribute>, k: nat, name: string)
    requires k <= |attrs| && forall i | 0 <= i < k :: attrs[i].name != name
    ensures name !in AttrMap(Pairs(attrs)[..k])
  {
    AttrMapKeys(Pairs(attrs)[..k]);
  }

  lemma OneMorePair(attrs: seq<Attribute>, k: nat)
    requires k < |attrs|
    ensures AttrMap(Pairs(attrs)[..k + 1]) == AttrMap(Pairs(attrs)[..k])[attrs[k].name := attrs[k].value]
  {
    var some := Pairs(attrs)[..k + 1];
    assert some[..k] == Pairs(attrs)[..k] && some[k] == (attrs[k].name, attrs[k].value);
  }

  /** The attributes from the k-th on. */
  lemma {:induction false} AttrsLead(buf: string, parent: Option<string>, r: Regs, t: Trace,
                                     attrs: seq<Attribute>, k: nat)
      returns (n: Regs, u: Trace)
    requires CString(buf) && r.Valid(buf) && r.state == IGNORE_SPACES && r.next == BODY
    requires WellAttributes(attrs) && k <= |attrs| && r.attribs == AttrMap(Pairs(attrs)[..k])
    requires At(buf, r.p, ShowAttributes(attrs[k..]))
    ensures Leads(buf, parent, r, t, n, u) && u.events == t.events && SameCounts(r, n)
    ensures n.state == IGNORE_SPACES && n.next == BODY && n.p == r.p + |ShowAttributes(attrs[k..])|
    ensures n.nodename == r.nodename && n.attribs == AttrMap(Pairs(attrs))
    decreases |attrs| - k
  {
    hide Act, Run, Regs.Valid, ShowAttribute, WellAttribute, AttrMap, At;
    TextAt(buf, r.p, ShowAttributes(attrs[k..]));
    if k == |attrs| {
      assert Pairs(attrs)[..k] == Pairs(attrs);
      n, u := r, t;
    } else {
      assert attrs[k..][0] == attrs[k] && attrs[k..][1..] == attrs[k + 1..];
      AtSplit(buf, r.p, ShowAttribute(attrs[k]), ShowAttributes(attrs[k + 1..]));
      NameIsNew(attrs, k, attrs[k].name);
      OneMorePair(attrs, k);
      n, u := AttrLeads(buf, parent, r, t, attrs[k]);
      n, u := AttrsLead(buf, parent, n, u, attrs, k + 1);
    }
  }

  // ---------- the ends of tags ----------

  lemma SlashLeads(buf: string, parent: Option<string>, r: Regs, t: Trace) returns (n: Regs, u: Trace)
    requires CString(buf) && r.Valid(buf) && r.state == BODY && buf[r.p] == '/'
    ensures Leads(buf, parent, r, t, n, u) && u.events == t.events + [Xml(r.nodename, r.attribs)]
    ensures n == r.(state := WAIT_END, nsubs := r.nsubs + 1, p := r.p + 1)
  {
    n := r.(state := WAIT_END, nsubs := r.nsubs + 1, p := r.p + 1);
    u := AdvanceLeads(buf, parent, r, t, n, [Xml(r.nodename, r.attribs)], []);
  }

  lemma DoneLeads(buf: string, parent: Option<string>, r: Regs, t: Trace) returns (n: Regs, u: Trace)
    requires CString(buf) && r.Valid(buf) && r.state == WAIT_END && buf[r.p] == '>'
    ensures Leads(buf, parent, r, t, n, u) && u.events == t.events + [Done]
    ensures n == r.(state := BEGIN, p := r.p + 1)
  {
    n := r.(state := BEGIN, p := r.p + 1);
    u := AdvanceLeads(buf, parent, r, t, n, [Done], []);
  }

  lemma ChildsLeads(buf: string, parent: Option<string>, r: Regs, t: Trace) returns (n: Regs, u: Trace)
    requires CString(buf) && r.Valid(buf) && r.state == BODY && buf[r.p] == '>'
    ensures Leads(buf, parent, r, t, n, u) && u.events == t.events + [Xml(r.nodename, r.attribs)]
    ensures n == r.(state := CHILDS, nsubs := r.nsubs + 1, p := r.p + 1)
  {
    n := r.(state := CHILDS, nsubs := r.nsubs + 1, p := r.p + 1);
    u := AdvanceLeads(buf, parent, r, t, n, [Xml(r.nodename, r.attribs)], [Open(r.nodename, r.nameAt)]);
  }

  lemma CloseBegins(buf: string, parent: Option<string>, r: Regs, t: Trace) returns (n: Regs, u: Trace)
    requires CString(buf) && r.Valid(buf) && r.state == BEGIN_NODE && buf[r.p] == '/'
    requires parent.Some? && parent.value != []
    ensures Leads(buf, parent, r, t, n, u) && u.events == t.events
    ensures n == r.(start := r.p + 1, state := IGNORE_SPACES, next := CLOSE, p := r.p + 1)
  {
    n := r.(start := r.p + 1, state := IGNORE_SPACES, next := CLOSE, p := r.p + 1);
    u := AdvanceLeads(buf, parent, r, t, n, [], []);
  }

  lemma SameIsEqual(a: string, b: string)
    ensures SameUpToCase(a, b) == EqualNoCase(a, b)
  {
    assert forall i | 0 <= i < |a| && |a| == |b| :: SameLetter(a[i], b[i]) == (Lower(a[i]) == Lower(b[i]));
  }

  lemma SameIsName(a: string, b: string)
    requires IsName(a) && SameUpToCase(a, b)
    ensures IsName(b)
  {
    assert forall i | 0 <= i < |a| :: NameChar(a[i]) && SameLetter(a[i], b[i]);
  }

  lemma CloseEnds(buf: string, parent: Option<string>, r: Regs, t: Trace) returns (n: Regs, u: Trace)
    requires CString(buf) && r.Valid(buf) && r.state == CLOSE && r.start < r.p && buf[r.p] != NUL && !NameChar(buf[r.p])
    requires parent.Some? && EqualNoCase(parent.value, buf[r.start..r.p])
    ensures Leads(buf, parent, r, t, n, u) && u.events == t.events
    ensures n == r.(state := IGNORE_SPACES, next := WAIT_END_RET)
  {
    hide EqualNoCase;
    n := r.(state := IGNORE_SPACES, next := WAIT_END_RET);
    u := StayLeads(buf, parent, r, t, n, [Close(buf[r.start..r.p], r.start)]);
  }

  lemma ReturnEnds(buf: string, parent: Option<string>, r: Regs, t: Trace)
    requires CString(buf) && r.Valid(buf) && r.state == WAIT_END_RET && buf[r.p] == '>'
    ensures var o := Run(buf, parent, r, t);
            o.Returned? && o.p == r.p
            && o.trace.events == t.events + if r.nsubs == 0 then [PcData("")] else []
  {
    RunRound(buf, parent, r, t);
  }

  lemma EndParts(buf: string, p: nat, lead: string, name: string, trail: string)
    requires At(buf, p, ShowEnd(lead, name, trail))
    ensures var q := p + 2 + |lead|; var e := q + |name| + |trail|;
            && At(buf, p, "<" + lead) && At(buf, q - 1, "/") && At(buf, q, name) && At(buf, q + |name|, trail)
            && At(buf, e, ">") && p + |ShowEnd(lead, name, trail)| == e + 1
  {
    AtSplit(buf, p, "<" + lead + "/" + name + trail, ">");
    AtSplit(buf, p, "<" + lead + "/" + name, trail);
    AtSplit(buf, p, "<" + lead + "/", name);
    AtSplit(buf, p, "<" + lead, "/");
  }

  /** The beginning of an end tag, up to and including the slash */
  lemma EndOpens(buf: string, parent: Option<string>, r: Regs, t: Trace, lead: string) returns (n: Regs, u: Trace)
    requires CString(buf) && r.Valid(buf) && r.state == BEGIN && At(buf, r.p, "<" + lead) && Blanks(lead)
    requires At(buf, r.p + 1 + |lead|, "/") && parent.Some? && parent.value != []
    ensures Leads(buf, parent, r, t, n, u) && u.events == t.events && n.nsubs == r.nsubs
    ensures n.state == IGNORE_SPACES && n.next == CLOSE && n.start == n.p == r.p + 2 + |lead|
  {
    hide Act, Run, Regs.Valid, At, Blanks;
    LastChar(buf, r.p + 1 + |lead|, '/');
    n, u := AngleLeads(buf, parent, r, t, lead);
    n, u := CloseBegins(buf, parent, n, u);
  }

  /** The name of an end tag, up to the state that waits for its bracket */
  lemma EndNameLeads(buf: string, parent: Option<string>, r: Regs, t: Trace, name: string) returns (n: Regs, u: Trace)
    requires CString(buf) && r.Valid(buf) && r.state == IGNORE_SPACES && r.next == CLOSE && r.start == r.p
    requires At(buf, r.p, name) && IsName(name) && buf[r.p + |name|] != NUL && !NameChar(buf[r.p + |name|])
    requires parent.Some? && EqualNoCase(parent.value, name)
    ensures Leads(buf, parent, r, t, n, u) && u.events == t.events && n.nsubs == r.nsubs
    ensures n.state == IGNORE_SPACES && n.next == WAIT_END_RET && n.p == r.p + |name|
  {
    hide Act, Run, Regs.Valid, At, IsName, EqualNoCase;
    NameIsSome(name);
    FirstChar(buf, r.p, name);
    n, u := BlanksEnd(buf, parent, r, t);
    u := NameLeads(buf, parent, n, u, name);
    n, u := CloseEnds(buf, parent, n.(p := n.p + |name|), u);
  }

  /** The end tag that closes the activation it is read by. */
  lemma EndTagReturns(buf: string, name: string, r: Regs, t: Trace, lead: string, endName: string, trail: string)
    requires CString(buf) && r.Valid(buf) && r.state == BEGIN && IsName(name)
    requires At(buf, r.p, ShowEnd(lead, endName, trail)) && WellEnd(name, lead, endName, trail)
    ensures var o := Run(buf, Some(name), r, t);
            o.Returned? && o.p == r.p + |ShowEnd(lead, endName, trail)| - 1
            && o.trace.events == t.events + if r.nsubs == 0 then [PcData("")] else []
  {
    hide Act, Run, Regs.Valid, At, IsName, Blanks, SameUpToCase, ShowEnd, EqualNoCase;
    var q := r.p + 2 + |lead| + |endName|;
    EndParts(buf, r.p, lead, endName, trail);
    SameIsName(name, endName);
    SameIsEqual(name, endName);
    NameIsSome(name);
    LastChar(buf, q + |trail|, '>');
    FirstOf(buf, q, trail, '>');
    var n, u := EndOpens(buf, Some(name), r, t, lead);
    n, u := EndNameLeads(buf, Some(name), n, u, endName);
    n, u := SkipLeads(buf, Some(name), n, u, trail);
    ReturnEnds(buf, Some(name), n, u);
  }

  // ---------- sections with a terminator ----------

  /** In the buffer, too, a terminator-free text does not meet its terminator early. */
  lemma StillFree(buf: string, p: nat, s: string, terminator: string, i: nat)
    requires At(buf, p, s + terminator) && FreeOf(s, terminator) && i < |s|
    ensures !(terminator <= buf[p + i..]) && buf[p + i] == s[i] != NUL
  {
    AtChars(buf, p, s + terminator);
    assert buf[p + i] == (s + terminator)[i];
    if terminator <= buf[p + i..] {
      forall k | 0 <= k < |terminator|
        ensures terminator[k] == (s + terminator)[i..][k]
      {
        assert buf[p + i..][k] == buf[p + (i + k)];
      }
    }
  }

  lemma SectionLeads(buf: string, parent: Option<string>, r: Regs, t: Trace, s: string, terminator: string)
      returns (u: Trace)
    requires CString(buf) && r.Valid(buf) && r.start <= r.p
    requires At(buf, r.p, s + terminator) && FreeOf(s, terminator)
    requires || (r.state.CDATA? && terminator == "]]>") || (r.state.COMMENT? && terminator == "-->")
             || (r.state.HEADER? && terminator == "?>")
    ensures Leads(buf, parent, r, t, r.(p := r.p + |s|), u) && u.events == t.events
    ensures At(buf, r.p, s) && At(buf, r.p + |s|, terminator)
  {
    hide Act, Run;
    AtSplit(buf, r.p, s, terminator);
    forall i: nat | r.p <= i < r.p + |s|
      ensures Idle(buf, r.(p := i))
    {
      hide Regs.Valid, At;
      StillFree(buf, r.p, s, terminator, i - r.p);
    }
    u := IdleLeads(buf, parent, r, t, r.p + |s|);
  }

  /** The word of a section, in either case */
  lemma WordAt(buf: string, p: nat, full: string, word: string)
    requires At(buf, p, word) && SameUpToCase(full, word)
    ensures forall i: nat | i < |full| :: SameLetter(full[i], buf[p + i])
  {
    AtChars(buf, p, word);
  }

  lemma CDataWord(buf: string, p: nat, word: string)
    requires CString(buf) && At(buf, p, "![" + word + "[") && SameUpToCase("CDATA", word)
    ensures p + 8 < |buf| && buf[p] == '!' && buf[p + 1] == '[' && buf[p + 7] == '['
    ensures Either(buf[p + 2], 'C', 'c') && Either(buf[p + 3], 'D', 'd') && Either(buf[p + 4], 'A', 'a')
    ensures Either(buf[p + 5], 'T', 't') && Either(buf[p + 6], 'A', 'a')
  {
    AtSplit(buf, p, "![" + word, "[");
    AtSplit(buf, p, "![", word);
    AtChars(buf, p, "![");
    assert buf[p + 0] == '!' && buf[p + 1] == '[';
    LastChar(buf, p + 7, '[');
    WordAt(buf, p + 2, "CDATA", word);
    assert SameLetter("CDATA"[0], buf[p + 2 + 0]) && SameLetter("CDATA"[1], buf[p + 2 + 1]);
    assert SameLetter("CDATA"[2], buf[p + 2 + 2]) && SameLetter("CDATA"[3], buf[p + 2 + 3]);
    assert SameLetter("CDATA"[4], buf[p + 2 + 4]);
  }

  lemma CDataAct(buf: string, parent: Option<string>, r: Regs, word: string)
    requires CString(buf) && r.Valid(buf) && r.state == BEGIN_NODE
    requires At(buf, r.p, "![" + word + "[") && SameUpToCase("CDATA", word)
    ensures buf[r.p] != NUL && Act(buf, parent, r) == Advance(r.(state := CDATA, start := r.p + 8, p := r.p + 8), [], [])
  {
    hide At, SameUpToCase;
    CDataWord(buf, r.p, word);
  }

  lemma CDataOpens(buf: string, parent: Option<string>, r: Regs, t: Trace, word: string) returns (n: Regs, u: Trace)
    requires CString(buf) && r.Valid(buf) && r.state == BEGIN_NODE
    requires At(buf, r.p, "![" + word + "[") && SameUpToCase("CDATA", word)
    ensures Leads(buf, parent, r, t, n, u) && u.events == t.events
    ensures n == r.(state := CDATA, start := r.p + 8, p := r.p + 8)
  {
    hide Act, At, SameUpToCase;
    CDataAct(buf, parent, r, word);
    n := r.(state := CDATA, start := r.p + 8, p := r.p + 8);
    u := AdvanceLeads(buf, parent, r, t, n, [], []);
  }

  lemma CDataCloses(buf: string, parent: Option<string>, r: Regs, t: Trace) returns (n: Regs, u: Trace)
    requires CString(buf) && r.Valid(buf) && r.state == CDATA && At(buf, r.p, "]]>")
    ensures Leads(buf, parent, r, t, n, u) && u.events == t.events + [CDataText(buf[r.start..r.p])]
    ensures n == r.(nsubs := r.nsubs + 1, state := BEGIN, p := r.p + 3)
  {
    AtChars(buf, r.p, "]]>");
    assert buf[r.p + 0] == ']' && buf[r.p + 1] == ']' && buf[r.p + 2] == '>';
    n := r.(nsubs := r.nsubs + 1, state := BEGIN, p := r.p + 3);
    u := AdvanceLeads(buf, parent, r, t, n, [CDataText(buf[r.start..r.p])], []);
  }

  lemma CommentOpens(buf: string, parent: Option<string>, r: Regs, t: Trace) returns (n: Regs, u: Trace)
    requires CString(buf) && r.Valid(buf) && r.state == BEGIN_NODE && At(buf, r.p, "!--")
    ensures Leads(buf, parent, r, t, n, u) && u.events == t.events
    ensures n == r.(state := COMMENT, start := r.p + 3, p := r.p + 3)
  {
    AtChars(buf, r.p, "!--");
    assert buf[r.p + 0] == '!' && buf[r.p + 1] == '-' && buf[r.p + 2] == '-';
    n := r.(state := COMMENT, start := r.p + 3, p := r.p + 3);
    u := AdvanceLeads(buf, parent, r, t, n, [], []);
  }

  lemma CommentCloses(buf: string, parent: Option<string>, r: Regs, t: Trace) returns (n: Regs, u: Trace)
    requires CString(buf) && r.Valid(buf) && r.state == COMMENT && At(buf, r.p, "-->")
    ensures Leads(buf, parent, r, t, n, u) && u.events == t.events + [Comment(buf[r.start..r.p])]
    ensures n == r.(state := BEGIN, p := r.p + 3)
  {
    AtChars(buf, r.p, "-->");
    assert buf[r.p + 0] == '-' && buf[r.p + 1] == '-' && buf[r.p + 2] == '>';
    n := r.(state := BEGIN, p := r.p + 3);
    u := AdvanceLeads(buf, parent, r, t, n, [Comment(buf[r.start..r.p])], []);
  }

  lemma HeaderOpens(buf: string, parent: Option<string>, r: Regs, t: Trace) returns (n: Regs, u: Trace)
    requires CString(buf) && r.Valid(buf) && r.state == BEGIN_NODE && buf[r.p] == '?'
    ensures Leads(buf, parent, r, t, n, u) && u.events == t.events
    ensures n == r.(state := HEADER, start := r.p, p := r.p + 1)
  {
    n := r.(state := HEADER, start := r.p, p := r.p + 1);
    u := AdvanceLeads(buf, parent, r, t, n, [], []);
  }

  lemma HeaderCloses(buf: string, parent: Option<string>, r: Regs, t: Trace) returns (n: Regs, u: Trace)
    requires CString(buf) && r.Valid(buf) && r.state == HEADER && At(buf, r.p, "?>")
    ensures Leads(buf, parent, r, t, n, u) && u.events == t.events + [Comment(buf[r.start..r.p + 1])]
    ensures n == r.(state := BEGIN, p := r.p + 2)
  {
    AtChars(buf, r.p, "?>");
    assert buf[r.p + 0] == '?' && buf[r.p + 1] == '>';
    n := r.(state := BEGIN, p := r.p + 2);
    u := AdvanceLeads(buf, parent, r, t, n, [Comment(buf[r.start..r.p + 1])], []);
  }

  lemma DocTypeWord(buf: string, p: nat, word: string)
    requires CString(buf) && At(buf, p, "!" + word) && SameUpToCase("DOCTYPE", word)
    ensures p + 8 < |buf| && buf[p] == '!' && Either(buf[p + 1], 'D', 'd') && Either(buf[p + 2], 'O', 'o')
    ensures Either(buf[p + 3], 'C', 'c') && Either(buf[p + 4], 'T', 't') && Either(buf[p + 5], 'Y', 'y')
    ensures Either(buf[p + 6], 'P', 'p') && Either(buf[p + 7], 'E', 'e')
  {
    AtSplit(buf, p, "!", word);
    LastChar(buf, p, '!');
    WordAt(buf, p + 1, "DOCTYPE", word);
    assert SameLetter("DOCTYPE"[0], buf[p + 1 + 0]) && SameLetter("DOCTYPE"[1], buf[p + 1 + 1]);
    assert SameLetter("DOCTYPE"[2], buf[p + 1 + 2]) && SameLetter("DOCTYPE"[3], buf[p + 1 + 3]);
    assert SameLetter("DOCTYPE"[4], buf[p + 1 + 4]) && SameLetter("DOCTYPE"[5], buf[p + 1 + 5]);
    assert SameLetter("DOCTYPE"[6], buf[p + 1 + 6]);
  }

  lemma DocTypeAct(buf: string, parent: Option<string>, r: Regs, word: string)
    requires CString(buf) && r.Valid(buf) && r.state == BEGIN_NODE
    requires At(buf, r.p, "!" + word) && SameUpToCase("DOCTYPE", word)
    ensures buf[r.p] != NUL
    ensures Act(buf, parent, r) == Advance(r.(state := DOCTYPE, start := r.p + 8, p := r.p + 8), [], [])
  {
    hide At, SameUpToCase;
    DocTypeWord(buf, r.p, word);
  }

  lemma DocTypeOpens(buf: string, parent: Option<string>, r: Regs, t: Trace, word: string) returns (n: Regs, u: Trace)
    requires CString(buf) && r.Valid(buf) && r.state == BEGIN_NODE
    requires At(buf, r.p, "!" + word) && SameUpToCase("DOCTYPE", word)
    ensures Leads(buf, parent, r, t, n, u) && u.events == t.events
    ensures n == r.(state := DOCTYPE, start := r.p + 8, p := r.p + 8)
  {
    hide Act, At, SameUpToCase;
    DocTypeAct(buf, parent, r, word);
    n := r.(state := DOCTYPE, start := r.p + 8, p := r.p + 8);
    u := AdvanceLeads(buf, parent, r, t, n, [], []);
  }

  lemma DocTypeChar(buf: string, parent: Option<string>, r: Regs, t: Trace) returns (n: Regs, u: Trace)
    requires CString(buf) && r.Valid(buf) && r.state == DOCTYPE && buf[r.p] != NUL
    requires !(buf[r.p] == '>' && r.nbrackets == 0)
    ensures Leads(buf, parent, r, t, n, u) && u.events == t.events
    ensures n == r.(nbrackets := r.nbrackets + (if buf[r.p] == '[' then 1 else if buf[r.p] == ']' then -1 else 0),
                    p := r.p + 1)
  {
    n := r.(nbrackets := r.nbrackets + (if buf[r.p] == '[' then 1 else if buf[r.p] == ']' then -1 else 0),
            p := r.p + 1);
    u := AdvanceLeads(buf, parent, r, t, n, [], []);
  }

  /** The brackets of a document type, character by character. */
  lemma {:induction false} DocTypeLeads(buf: string, parent: Option<string>, r: Regs, t: Trace, s: string)
      returns (n: Regs, u: Trace)
    requires CString(buf) && r.Valid(buf) && r.state == DOCTYPE && At(buf, r.p, s) && NoNul(s)
    requires DocTypeDepth(r.nbrackets, s).Some?
    ensures Leads(buf, parent, r, t, n, u) && u.events == t.events
    ensures n == r.(p := r.p + |s|, nbrackets := DocTypeDepth(r.nbrackets, s).value)
    decreases s
  {
    hide Act, Run, Regs.Valid;
    if s == [] {
      n, u := r, t;
    } else {
      AtChars(buf, r.p, s);
      assert buf[r.p + 0] == s[0] && s == [s[0]] + s[1..];
      AtSplit(buf, r.p, [s[0]], s[1..]);
      n, u := DocTypeChar(buf, parent, r, t);
      n, u := DocTypeLeads(buf, parent, n, u, s[1..]);
    }
  }

  lemma DocTypeCloses(buf: string, parent: Option<string>, r: Regs, t: Trace) returns (n: Regs, u: Trace)
    requires CString(buf) && r.Valid(buf) && r.state == DOCTYPE && buf[r.p] == '>' && r.nbrackets == 0
    ensures Leads(buf, parent, r, t, n, u) && u.events == t.events + [DocType(buf[r.start..r.p])]
    ensures n == r.(state := BEGIN, p := r.p + 1)
  {
    n := r.(state := BEGIN, p := r.p + 1);
    u := AdvanceLeads(buf, parent, r, t, n, [DocType(buf[r.start..r.p])], []);
  }

  // ---------- which declaration it is ----------

  lemma Slice(buf: string, p: nat, q: nat)
    requires p <= q < |buf|
    ensures At(buf, p, buf[p..q]) && p + |buf[p..q]| == q
    ensures forall i | 0 <= i < q - p :: buf[p..q][i] == buf[p + i]
  {
  }

  lemma NothingAt(buf: string, p: nat)
    requires p < |buf|
    ensures At(buf, p, "")
  {
  }

  /** No name begins with a blank. */
  lemma NotBlankFirst(name: string, s: string)
    requires IsName(name) && EqualNoCase(name, s)
    ensures s != [] && !Blank(s[0])
  {
    SameIsEqual(name, s);
    assert NameChar(name[0]) && SameLetter(name[0], s[0]);
  }

  lemma SameWord(full: string, word: string)
    requires |full| == |word| && forall i: nat | i < |full| :: SameLetter(full[i], word[i])
    ensures SameUpToCase(full, word)
  {
  }

  lemma CDataSame(buf: string, p: nat)
    requires p + 8 < |buf| && Either(buf[p + 2], 'C', 'c') && Either(buf[p + 3], 'D', 'd')
    requires Either(buf[p + 4], 'A', 'a') && Either(buf[p + 5], 'T', 't') && Either(buf[p + 6], 'A', 'a')
    ensures SameUpToCase("CDATA", buf[p + 2..p + 7])
  {
    var w := buf[p + 2..p + 7];
    Slice(buf, p + 2, p + 7);
    assert w[0] == buf[p + 2 + 0] && w[1] == buf[p + 2 + 1] && w[2] == buf[p + 2 + 2] && w[3] == buf[p + 2 + 3];
    assert w[4] == buf[p + 2 + 4];
    SameWord("CDATA", w);
  }

  lemma DocTypeSame(buf: string, p: nat)
    requires p + 8 < |buf| && Either(buf[p + 1], 'D', 'd') && Either(buf[p + 2], 'O', 'o')
    requires Either(buf[p + 3], 'C', 'c') && Either(buf[p + 4], 'T', 't') && Either(buf[p + 5], 'Y', 'y')
    requires Either(buf[p + 6], 'P', 'p') && Either(buf[p + 7], 'E', 'e')
    ensures SameUpToCase("DOCTYPE", buf[p + 1..p + 8])
  {
    var w := buf[p + 1..p + 8];
    Slice(buf, p + 1, p + 8);
    assert w[0] == buf[p + 1 + 0] && w[1] == buf[p + 1 + 1] && w[2] == buf[p + 1 + 2] && w[3] == buf[p + 1 + 3];
    assert w[4] == buf[p + 1 + 4] && w[5] == buf[p + 1 + 5] && w[6] == buf[p + 1 + 6];
    SameWord("DOCTYPE", w);
  }

  lemma CDataMark(buf: string, parent: Option<string>, r: Regs)
    requires CString(buf) && r.Valid(buf) && r.state == BEGIN_NODE && r.p < |buf| && buf[r.p] == '!'
    requires !Act(buf, parent, r).Fail? && buf[r.p + 1] == '['
    ensures r.p + 8 < |buf| && SameUpToCase("CDATA", buf[r.p + 2..r.p + 7]) && buf[r.p + 7] == '['
    ensures Act(buf, parent, r) == Advance(r.(state := CDATA, start := r.p + 8, p := r.p + 8), [], [])
  {
    CDataSame(buf, r.p);
  }

  lemma DocTypeMark(buf: string, parent: Option<string>, r: Regs)
    requires CString(buf) && r.Valid(buf) && r.state == BEGIN_NODE && r.p < |buf| && buf[r.p] == '!'
    requires !Act(buf, parent, r).Fail? && buf[r.p + 1] != '[' && Either(buf[r.p + 1], 'D', 'd')
    ensures r.p + 8 < |buf| && SameUpToCase("DOCTYPE", buf[r.p + 1..r.p + 8])
    ensures Act(buf, parent, r) == Advance(r.(state := DOCTYPE, start := r.p + 8, p := r.p + 8), [], [])
  {
    DocTypeSame(buf, r.p);
  }

  lemma CommentMark(buf: string, parent: Option<string>, r: Regs)
    requires CString(buf) && r.Valid(buf) && r.state == BEGIN_NODE && r.p < |buf| && buf[r.p] == '!'
    requires !Act(buf, parent, r).Fail? && buf[r.p + 1] != '[' && !Either(buf[r.p + 1], 'D', 'd')
    ensures r.p + 3 < |buf| && At(buf, r.p, "!--")
    ensures Act(buf, parent, r) == Advance(r.(state := COMMENT, start := r.p + 3, p := r.p + 3), [], [])
  {
    assert buf[r.p..r.p + 3] == "!--";
  }

  // ---------- text ----------

  lemma TextBegins(buf: string, parent: Option<string>, r: Regs, t: Trace) returns (n: Regs, u: Trace)
    requires CString(buf) && r.Valid(buf) && r.state == BEGIN && buf[r.p] != NUL && buf[r.p] != '<'
    ensures Leads(buf, parent, r, t, n, u) && u.events == t.events
    ensures n == r.(start := r.p, state := PCDATA)
  {
    n := r.(start := r.p, state := PCDATA);
    u := StayLeads(buf, parent, r, t, n, []);
  }

  lemma TextIdle(buf: string, r: Regs, s: string, i: nat)
    requires CString(buf) && r.start < |buf| && r.state == PCDATA && At(buf, r.p, s) && r.p <= i < r.p + |s|
    requires NoNul(s) && '<' !in s
    ensures Idle(buf, r.(p := i))
  {
    AtChars(buf, r.p, s);
    assert buf[r.p + (i - r.p)] == s[i - r.p] && s[i - r.p] in s;
  }

  lemma TextIdles(buf: string, parent: Option<string>, r: Regs, t: Trace, s: string) returns (u: Trace)
    requires CString(buf) && r.Valid(buf) && r.state == PCDATA && r.start == r.p
    requires At(buf, r.p, s) && NoNul(s) && '<' !in s
    ensures Leads(buf, parent, r, t, r.(p := r.p + |s|), u) && u.events == t.events
  {
    hide Act, Run, Regs.Valid, Idle, NoNul;
    TextAt(buf, r.p, s);
    forall i: nat | r.p <= i < r.p + |s|
      ensures Idle(buf, r.(p := i))
    {
      TextIdle(buf, r, s, i);
    }
    u := IdleLeads(buf, parent, r, t, r.p + |s|);
  }

  lemma TextEndsAtTag(buf: string, parent: Option<string>, m: Regs, v: Trace)
    requires CString(buf) && m.Valid(buf) && m.state == PCDATA && buf[m.p] == '<'
    ensures var s := buf[m.start..m.p];
            Leads(buf, parent, m, v, m.(state := BEGIN, nsubs := m.nsubs + 1), v.(events := v.events + [PcData(s)]))
  {
    var s := buf[m.start..m.p];
    var n, u := m.(state := BEGIN, nsubs := m.nsubs + 1), v.(events := v.events + [PcData(s)]);
    var k := n.(state := IGNORE_SPACES, next := BEGIN_NODE, p := m.p + 1);
    assert Act(buf, parent, m) == Advance(k, [PcData(s)], []) && Act(buf, parent, n) == Advance(k, [], []);
    RunRound(buf, parent, m, v);
    RunRound(buf, parent, n, u);
    assert Later(v, Tick(buf, k.p), [PcData(s)], []) == Later(u, Tick(buf, k.p), [], []);
  }

  lemma TextEndsAtNul(buf: string, m: Regs, v: Trace)
    requires CString(buf) && m.Valid(buf) && m.state == PCDATA && buf[m.p] == NUL && m.start < m.p
    ensures var s := buf[m.start..m.p];
            Leads(buf, None, m, v, m.(state := BEGIN, nsubs := m.nsubs + 1), v.(events := v.events + [PcData(s)]))
  {
    var s := buf[m.start..m.p];
    var n, u := m.(state := BEGIN, nsubs := m.nsubs + 1), v.(events := v.events + [PcData(s)]);
    RunEnd(buf, None, m, v);
    RunEnd(buf, None, n, u);
    assert Later(v, 0, [PcData(s)], []) == Later(u, 0, [], []);
  }
}
