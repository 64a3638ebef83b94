/** Which exception is thrown, and where, for a text that goes wrong at a given place. */
module XmlErrors {
  import opened Optional
  import opened XmlMachine
  import opened XmlParser
  import opened XmlDocument
  import opened XmlLeads
  import opened XmlPrints
  import opened XmlMistakes

  ghost predicate FailsWith(o: Outcome, p: nat, e: Error) {
    o.Failed? && o.p == p && o.error == e
  }

  // ---------- single mistakes ----------

  lemma FailsNow(buf: string, parent: Option<string>, r: Regs, t: Trace, e: Error, at: nat)
    requires CString(buf) && r.Valid(buf) && buf[r.p] != NUL && Act(buf, parent, r) == Fail(e, at)
    ensures FailsWith(Run(buf, parent, r, t), at, e)
  {
    RunRound(buf, parent, r, t);
  }

  /** The rest of the text stands in the buffer at p. */
  ghost predicate Rest(buf: string, p: nat, after: string) {
    At(buf, p, after) && p + |after| == |buf| - 1
  }

  lemma RestChars(buf: string, p: nat, after: string)
    requires CString(buf) && Rest(buf, p, after)
    ensures buf[p] == First(after) && forall i | 0 <= i < |after| :: buf[p + i] == after[i]
  {
    AtChars(buf, p, after);
    if after != "" { FirstChar(buf, p, after); }
  }

  lemma RestBegins(buf: string, p: nat, after: string, k: nat)
    requires Rest(buf, p, after)
    ensures k <= |after| <==> p + k < |buf|
    ensures k <= |after| ==> after[..k] == buf[p..p + k]
    ensures k < |after| ==> after[k] == buf[p + k]
  {
    AtChars(buf, p, after);
    if k <= |after| {
      assert forall i | 0 <= i < k :: after[..k][i] == buf[p + i];
    }
  }

  lemma OpenAtEndFails(buf: string, parent: Option<string>, r: Regs, t: Trace, words: string)
    requires CString(buf) && r.Valid(buf) && Between(r) && Rest(buf, r.p, words)
    requires IsMistake(OpenAtEnd(words), parent, "")
    ensures FailsWith(Run(buf, parent, r, t), r.p + |words|, UnexpectedEnd)
  {
    hide Act, Run;
    if words == "" {
      RunEnd(buf, parent, r, t);
    } else {
      FirstChar(buf, r.p, words);
      assert words[0] in words;
      var n, u := TextBegins(buf, parent, r, t);
      u := TextIdles(buf, parent, n, u, words);
      RunEnd(buf, parent, n.(p := n.p + |words|), u);
    }
  }

  lemma MarkLeads(buf: string, parent: Option<string>, r: Regs, t: Trace, lead: string, c: char)
      returns (n: Regs, u: Trace)
    requires CString(buf) && r.Valid(buf) && Between(r) && At(buf, r.p, "<" + lead) && Blanks(lead)
    requires buf[r.p + 1 + |lead|] == c && c != NUL && !Blank(c)
    ensures Leads(buf, parent, r, t, n, u) && n.state == BEGIN_NODE && n.p == r.p + 1 + |lead| && n.nbrackets == 0
  {
    hide Act, Run, Regs.Valid, Blank, Blanks, At;
    n, u := AngleLeads(buf, parent, r, t, lead);
  }

  lemma NotCDataAct(buf: string, parent: Option<string>, r: Regs, after: string)
    requires CString(buf) && r.Valid(buf) && r.state == BEGIN_NODE && At(buf, r.p, "![") && Rest(buf, r.p + 2, after)
    requires IsMistake(NotCData(""), parent, after)
    ensures Act(buf, parent, r) == Fail(ExpectedCData, r.p + 2)
  {
    RestChars(buf, r.p + 2, after);
    AtChars(buf, r.p, "![");
    assert buf[r.p + 0] == '!' && buf[r.p + 1] == '[';
    RestBegins(buf, r.p + 2, after, 5);
    if !Act(buf, parent, r).Fail? { CDataMark(buf, parent, r); }
  }

  lemma NotDocTypeAct(buf: string, parent: Option<string>, r: Regs, after: string)
    requires CString(buf) && r.Valid(buf) && r.state == BEGIN_NODE && At(buf, r.p, "!") && Rest(buf, r.p + 1, after)
    requires IsMistake(NotDocType(""), parent, after)
    ensures Act(buf, parent, r) == Fail(ExpectedDocType, r.p)
  {
    RestChars(buf, r.p + 1, after);
    LastChar(buf, r.p, '!');
    RestBegins(buf, r.p + 1, after, 7);
    if !Act(buf, parent, r).Fail? { DocTypeMark(buf, parent, r); }
  }

  lemma NotCommentAct(buf: string, parent: Option<string>, r: Regs, after: string)
    requires CString(buf) && r.Valid(buf) && r.state == BEGIN_NODE && At(buf, r.p, "!") && Rest(buf, r.p + 1, after)
    requires IsMistake(NotComment(""), parent, after)
    ensures Act(buf, parent, r) == Fail(ExpectedComment, r.p)
  {
    RestChars(buf, r.p + 1, after);
    LastChar(buf, r.p, '!');
    RestBegins(buf, r.p + 1, after, 2);
    if !Act(buf, parent, r).Fail? { CommentMark(buf, parent, r); }
  }

  lemma NotCDataFails(buf: string, parent: Option<string>, r: Regs, t: Trace, lead: string, after: string)
    requires CString(buf) && r.Valid(buf) && Between(r) && At(buf, r.p, "<" + lead + "![")
    requires Rest(buf, r.p + 3 + |lead|, after) && IsMistake(NotCData(lead), parent, after)
    ensures FailsWith(Run(buf, parent, r, t), r.p + 3 + |lead|, ExpectedCData)
  {
    hide Act, Run, Regs.Valid, Blank, Blanks, At, Rest, SameUpToCase;
    AtSplit(buf, r.p, "<" + lead, "![");
    FirstChar(buf, r.p + 1 + |lead|, "![");
    NothingBlank();
    BlankMarks();
    var n, u := MarkLeads(buf, parent, r, t, lead, '!');
    NotCDataAct(buf, parent, n, after);
    FailsNow(buf, parent, n, u, ExpectedCData, n.p + 2);
  }

  lemma NotDocTypeFails(buf: string, parent: Option<string>, r: Regs, t: Trace, lead: string, after: string)
    requires CString(buf) && r.Valid(buf) && Between(r) && At(buf, r.p, "<" + lead + "!")
    requires Rest(buf, r.p + 2 + |lead|, after) && IsMistake(NotDocType(lead), parent, after)
    ensures FailsWith(Run(buf, parent, r, t), r.p + 1 + |lead|, ExpectedDocType)
  {
    hide Act, Run, Regs.Valid, Blank, Blanks, At, Rest, SameUpToCase;
    AtSplit(buf, r.p, "<" + lead, "!");
    LastChar(buf, r.p + 1 + |lead|, '!');
    NothingBlank();
    BlankMarks();
    var n, u := MarkLeads(buf, parent, r, t, lead, '!');
    NotDocTypeAct(buf, parent, n, after);
    FailsNow(buf, parent, n, u, ExpectedDocType, n.p);
  }

  lemma NotCommentFails(buf: string, parent: Option<string>, r: Regs, t: Trace, lead: string, after: string)
    requires CString(buf) && r.Valid(buf) && Between(r) && At(buf, r.p, "<" + lead + "!")
    requires Rest(buf, r.p + 2 + |lead|, after) && IsMistake(NotComment(lead), parent, after)
    ensures FailsWith(Run(buf, parent, r, t), r.p + 1 + |lead|, ExpectedComment)
  {
    hide Act, Run, Regs.Valid, Blank, Blanks, At, Rest;
    AtSplit(buf, r.p, "<" + lead, "!");
    LastChar(buf, r.p + 1 + |lead|, '!');
    NothingBlank();
    BlankMarks();
    var n, u := MarkLeads(buf, parent, r, t, lead, '!');
    NotCommentAct(buf, parent, n, after);
    FailsNow(buf, parent, n, u, ExpectedComment, n.p);
  }

  lemma DeclarationFails(buf: string, parent: Option<string>, r: Regs, t: Trace, m: Mistake, after: string)
    requires CString(buf) && r.Valid(buf) && Between(r) && At(buf, r.p, ShowMistake(m))
    requires Rest(buf, r.p + |ShowMistake(m)|, after) && IsMistake(m, parent, after)
    requires m.NotCData? || m.NotDocType? || m.NotComment?
    ensures FailsWith(Run(buf, parent, r, t), r.p + ErrorAt(m), ErrorOf(m, parent))
  {
    hide Act, Run, Regs.Valid, At, Rest, IsMistake, Between, FailsWith, CString;
    match m
    case NotCData(lead) => NotCDataFails(buf, parent, r, t, lead, after);
    case NotDocType(lead) => NotDocTypeFails(buf, parent, r, t, lead, after);
    case NotComment(lead) => NotCommentFails(buf, parent, r, t, lead, after);
  }

  lemma NothingBlank()
    ensures Blanks("")
  {
  }

  lemma StrayAct(buf: string, parent: Option<string>, r: Regs)
    requires CString(buf) && r.Valid(buf) && r.state == BEGIN_NODE && buf[r.p] == '/' && parent.None?
    ensures Act(buf, parent, r) == Fail(ExpectedNodeName, r.p)
  {
  }

  lemma NoNameAct(buf: string, parent: Option<string>, r: Regs)
    requires CString(buf) && r.Valid(buf) && (r.state == TAG_NAME || r.state == CLOSE) && r.start == r.p && Odd(buf[r.p])
    ensures Act(buf, parent, r) == Fail(ExpectedNodeName, r.p)
  {
  }

  lemma NodeFails(buf: string, parent: Option<string>, r: Regs, t: Trace, m: Mistake, after: string)
    requires CString(buf) && r.Valid(buf) && Between(r) && At(buf, r.p, ShowMistake(m))
    requires Rest(buf, r.p + |ShowMistake(m)|, after) && IsMistake(m, parent, after)
    requires m.NotNode? || m.StrayEnd?
    ensures FailsWith(Run(buf, parent, r, t), r.p + ErrorAt(m), ErrorOf(m, parent))
  {
    hide Act, Run, Regs.Valid, Blank, Blanks, At, Rest, NameChar;
    BlankMarks();
    RestChars(buf, r.p + 1 + |m.lead|, after);
    var n, u := MarkLeads(buf, parent, r, t, m.lead, First(after));
    if m.NotNode? {
      PassedBy(buf, parent, n);
      var k := n.(state := TAG_NAME, start := n.p);
      u := StayLeads(buf, parent, n, u, k, []);
      NoNameAct(buf, parent, k);
      FailsNow(buf, parent, k, u, ExpectedNodeName, k.p);
    } else {
      StrayAct(buf, parent, n);
      FailsNow(buf, parent, n, u, ExpectedNodeName, n.p);
    }
  }

  lemma PassedBy(buf: string, parent: Option<string>, r: Regs)
    requires CString(buf) && r.Valid(buf) && r.state == BEGIN_NODE && buf[r.p] !in {NUL, '!', '?', '/'}
    ensures Act(buf, parent, r) == Stay(r.(state := TAG_NAME, start := r.p), [])
  {
  }

  // ---------- end tags ----------

  /** From an end tag's slash to its name, over blanks that the name then begins with */
  lemma CloseNameLeads(buf: string, parent: Option<string>, r: Regs, t: Trace, lead: string, gap: string, c: char)
      returns (n: Regs, u: Trace)
    requires CString(buf) && r.Valid(buf) && Between(r) && parent.Some? && parent.value != []
    requires At(buf, r.p, "<" + lead) && Blanks(lead) && At(buf, r.p + 1 + |lead|, "/")
    requires At(buf, r.p + 2 + |lead|, gap) && Blanks(gap)
    requires buf[r.p + 2 + |lead| + |gap|] == c && c != NUL && !Blank(c)
    ensures Leads(buf, parent, r, t, n, u) && n.state == CLOSE && n.start == r.p + 2 + |lead| && n.p == n.start + |gap|
  {
    hide Act, Run, Regs.Valid, Blank, Blanks, At;
    n, u := EndOpens(buf, parent, r, t, lead);
    n, u := SkipLeads(buf, parent, n, u, gap);
  }

  lemma NoEndNameFails(buf: string, parent: Option<string>, r: Regs, t: Trace, lead: string, after: string)
    requires CString(buf) && r.Valid(buf) && Between(r) && At(buf, r.p, ShowMistake(NoEndName(lead)))
    requires Rest(buf, r.p + 2 + |lead|, after) && IsMistake(NoEndName(lead), parent, after) && parent.value != []
    ensures FailsWith(Run(buf, parent, r, t), r.p + 2 + |lead|, ExpectedNodeName)
  {
    hide Act, Run, Regs.Valid, Blank, Blanks, At, Rest, NameChar;
    AtSplit(buf, r.p, "<" + lead, "/");
    RestChars(buf, r.p + 2 + |lead|, after);
    NothingBlank();
    NothingAt(buf, r.p + 2 + |lead|);
    var n, u := CloseNameLeads(buf, parent, r, t, lead, "", First(after));
    NoNameAct(buf, parent, n);
    FailsNow(buf, parent, n, u, ExpectedNodeName, n.p);
  }

  lemma OtherEndAct(buf: string, parent: Option<string>, r: Regs)
    requires CString(buf) && r.Valid(buf) && r.state == CLOSE && r.start < r.p && EndsName(buf[r.p])
    requires parent.Some? && !EqualNoCase(parent.value, buf[r.start..r.p])
    ensures Act(buf, parent, r) == Fail(ExpectedClose(parent.value), r.p)
  {
    hide EqualNoCase;
  }

  lemma OtherEndFails(buf: string, parent: Option<string>, r: Regs, t: Trace, lead: string, name: string, after: string)
    requires CString(buf) && r.Valid(buf) && Between(r) && At(buf, r.p, ShowMistake(OtherEnd(lead, name)))
    requires Rest(buf, r.p + 2 + |lead| + |name|, after) && IsMistake(OtherEnd(lead, name), parent, after)
    requires parent.value != []
    ensures FailsWith(Run(buf, parent, r, t), r.p + 2 + |lead| + |name|, ExpectedClose(parent.value))
  {
    hide Act, Run, Regs.Valid, Blank, Blanks, At, Rest, NameChar, IsName, SameUpToCase, EqualNoCase;
    var q := r.p + 2 + |lead|;
    AtSplit(buf, r.p, "<" + lead + "/", name);
    AtSplit(buf, r.p, "<" + lead, "/");
    RestChars(buf, q + |name|, after);
    NothingBlank();
    NothingAt(buf, q);
    NameIsSome(name);
    FirstChar(buf, q, name);
    SameIsEqual(parent.value, name);
    var n, u := CloseNameLeads(buf, parent, r, t, lead, "", name[0]);
    u := NameLeads(buf, parent, n, u, name);
    n := n.(p := n.p + |name|);
    OtherEndAct(buf, parent, n);
    FailsNow(buf, parent, n, u, ExpectedClose(parent.value), n.p);
  }

  /** The name of an end tag after blanks that it is taken to begin with */
  lemma LateNameLeads(buf: string, parent: Option<string>, r: Regs, t: Trace, name: string) returns (u: Trace)
    requires CString(buf) && r.Valid(buf) && r.state == CLOSE && r.start <= r.p && At(buf, r.p, name)
    requires name == "" || IsName(name)
    ensures Leads(buf, parent, r, t, r.(p := r.p + |name|), u)
  {
    hide Act, Run, Regs.Valid, Idle, IsName;
    TextAt(buf, r.p, name);
    forall i: nat | r.p <= i < r.p + |name|
      ensures Idle(buf, r.(p := i))
    {
      NameIdles(buf, r, name, i);
    }
    u := IdleLeads(buf, parent, r, t, r.p + |name|);
  }

  lemma LateIsOther(buf: string, p: nat, q: nat, gap: string, name: string)
    requires At(buf, p, gap) && Blanks(gap) && gap != "" && p + |gap| <= q < |buf| && IsName(name)
    ensures !EqualNoCase(name, buf[p..q])
  {
    FirstChar(buf, p, gap);
    if EqualNoCase(name, buf[p..q]) {
      NotBlankFirst(name, buf[p..q]);
    }
  }

  lemma LateEndFails(buf: string, parent: Option<string>, r: Regs, t: Trace, lead: string, gap: string, name: string,
                     after: string)
    requires CString(buf) && r.Valid(buf) && Between(r) && At(buf, r.p, ShowMistake(LateEnd(lead, gap, name)))
    requires Rest(buf, r.p + 2 + |lead| + |gap| + |name|, after) && IsMistake(LateEnd(lead, gap, name), parent, after)
    requires IsName(parent.value)
    ensures FailsWith(Run(buf, parent, r, t), r.p + 2 + |lead| + |gap| + |name|, ExpectedClose(parent.value))
  {
    hide Act, Run, Regs.Valid, Blank, Blanks, At, Rest, NameChar, IsName, SameUpToCase, EqualNoCase;
    var q := r.p + 2 + |lead|;
    FourParts(buf, r.p, "<" + lead, "/", gap, name);
    TextAt(buf, q + |gap|, name);
    RestChars(buf, q + |gap| + |name|, after);
    NameIsSome(parent.value);
    if name != "" {
      NameIsSome(name);
      FirstChar(buf, q + |gap|, name);
    }
    var n, u := CloseNameLeads(buf, parent, r, t, lead, gap, buf[q + |gap|]);
    u := LateNameLeads(buf, parent, n, u, name);
    n := n.(p := n.p + |name|);
    LateIsOther(buf, q, n.p, gap, parent.value);
    OtherEndAct(buf, parent, n);
    FailsNow(buf, parent, n, u, ExpectedClose(parent.value), n.p);
  }

  lemma NotGreaterAct(buf: string, parent: Option<string>, r: Regs)
    requires CString(buf) && r.Valid(buf) && (r.state == WAIT_END_RET || r.state == WAIT_END)
    requires buf[r.p] != NUL && buf[r.p] != '>'
    ensures Act(buf, parent, r) == Fail(ExpectedGreater, r.p)
  {
  }

  lemma EndNotClosedFails(buf: string, parent: Option<string>, r: Regs, t: Trace, lead: string, name: string,
                          trail: string, after: string)
    requires CString(buf) && r.Valid(buf) && Between(r) && At(buf, r.p, ShowMistake(EndNotClosed(lead, name, trail)))
    requires Rest(buf, r.p + 2 + |lead| + |name| + |trail|, after)
    requires IsMistake(EndNotClosed(lead, name, trail), parent, after) && IsName(parent.value)
    ensures FailsWith(Run(buf, parent, r, t), r.p + 2 + |lead| + |name| + |trail|, ExpectedGreater)
  {
    hide Act, Run, Regs.Valid, Blank, Blanks, At, Rest, NameChar, IsName, SameUpToCase, EqualNoCase;
    var q := r.p + 2 + |lead|;
    FourParts(buf, r.p, "<" + lead, "/", name, trail);
    RestChars(buf, q + |name| + |trail|, after);
    NameIsSome(parent.value);
    SameIsName(parent.value, name);
    SameIsEqual(parent.value, name);
    BlankEndsName(buf, q + |name|, trail);
    var n, u := EndOpens(buf, parent, r, t, lead);
    n, u := EndNameLeads(buf, parent, n, u, name);
    n, u := SkipLeads(buf, parent, n, u, trail);
    NotGreaterAct(buf, parent, n);
    FailsNow(buf, parent, n, u, ExpectedGreater, n.p);
  }

  /** Blanks, or else what follows them, end a name. */
  lemma BlankEndsName(buf: string, p: nat, gap: string)
    requires At(buf, p, gap) && Blanks(gap) && buf[p + |gap|] != NUL && (gap == "" ==> !NameChar(buf[p + |gap|]))
    ensures buf[p] != NUL && !NameChar(buf[p])
  {
    if gap != "" { FirstChar(buf, p, gap); }
  }

  // ---------- start tags ----------

  /** Up to where an attribute or the end of the tag is expected */
  lemma HeadLeads(buf: string, parent: Option<string>, r: Regs, t: Trace, head: Head) returns (n: Regs, u: Trace)
    requires CString(buf) && r.Valid(buf) && Between(r) && head.Valid() && At(buf, r.p, head.Text())
    requires var c := buf[r.p + |head.Text()|]; c != NUL && !Blank(c) && (head.TakesName() || !NameChar(c))
    ensures Leads(buf, parent, r, t, n, u) && n.state == BODY && n.p == r.p + |head.Text()|
    ensures n.attribs == AttrMap(Pairs(head.attrs))
  {
    hide Act, Run, Regs.Valid, Blank, At, NameChar, Blanks, ShowTag, AttrMap, IsName, WellAttributes;
    n, u := OpenLeads(buf, parent, r, t, head.lead, head.name, head.attrs, head.trail);
    n, u := SkipLeads(buf, parent, n, u, head.trail);
  }

  lemma NotAttributeAct(buf: string, parent: Option<string>, r: Regs)
    requires CString(buf) && r.Valid(buf) && r.state == ATTRIB_NAME && r.start == r.p && Odd(buf[r.p])
    ensures Act(buf, parent, r) == Fail(ExpectedAttributeName, r.p)
  {
  }

  lemma NotAttributeFails(buf: string, parent: Option<string>, r: Regs, t: Trace, head: Head, after: string)
    requires CString(buf) && r.Valid(buf) && Between(r) && At(buf, r.p, head.Text())
    requires Rest(buf, r.p + |head.Text()|, after) && IsMistake(InTag(head, NoAttribute), parent, after)
    ensures FailsWith(Run(buf, parent, r, t), r.p + |head.Text()|, ExpectedAttributeName)
  {
    hide Act, Run, Regs.Valid, Blank, At, Rest, NameChar, Head.Text, Head.Valid, AttrMap;
    RestChars(buf, r.p + |head.Text()|, after);
    var n, u := HeadLeads(buf, parent, r, t, head);
    n, u := AttrNameBegins(buf, parent, n, u);
    NotAttributeAct(buf, parent, n);
    FailsNow(buf, parent, n, u, ExpectedAttributeName, n.p);
  }

  /** Up to the end of the name of one more attribute */
  lemma NextNameLeads(buf: string, parent: Option<string>, r: Regs, t: Trace, head: Head, attr: string)
      returns (n: Regs, u: Trace)
    requires CString(buf) && r.Valid(buf) && Between(r) && head.Valid() && head.TakesName() && IsName(attr)
    requires At(buf, r.p, head.Text() + attr)
    ensures Leads(buf, parent, r, t, n, u) && n.state == ATTRIB_NAME && n.p == r.p + |head.Text()| + |attr|
    ensures n.start < n.p && buf[n.start..n.p] == attr && n.attribs == AttrMap(Pairs(head.attrs))
  {
    hide Act, Run, Regs.Valid, Blank, At, NameChar, IsName, Head.Text, Head.Valid, AttrMap;
    AtSplit(buf, r.p, head.Text(), attr);
    NameIsSome(attr);
    FirstChar(buf, r.p + |head.Text()|, attr);
    NameIsNoMark(attr[0]);
    n, u := HeadLeads(buf, parent, r, t, head);
    n, u := AttrNameBegins(buf, parent, n, u);
    u := NameLeads(buf, parent, n, u, attr);
    n := n.(p := n.p + |attr|);
  }

  lemma NameIsNoMark(c: char)
    requires NameChar(c)
    ensures c != NUL && c != '/' && c != '>' && !Blank(c)
  {
  }

  lemma RepeatedAct(buf: string, parent: Option<string>, r: Regs)
    requires CString(buf) && r.Valid(buf) && r.state == ATTRIB_NAME && r.start < r.p && EndsName(buf[r.p])
    requires buf[r.start..r.p] in r.attribs
    ensures Act(buf, parent, r) == Fail(DuplicateAttribute, r.p)
  {
  }

  lemma HasIsKey(attrs: seq<Attribute>, name: string)
    ensures HasName(attrs, name) <==> name in AttrMap(Pairs(attrs))
  {
    var pairs := Pairs(attrs);
    AttrMapKeys(pairs);
    assert forall i | 0 <= i < |pairs| :: pairs[i].0 == attrs[i].name;
  }

  lemma HasTakesName(head: Head, attr: string)
    requires HasName(head.attrs, attr)
    ensures head.TakesName()
  {
  }

  /** A start tag whose attributes are well formed and all different, and then the name of one of them again */
  lemma RepeatedFails(buf: string, parent: Option<string>, r: Regs, t: Trace, head: Head, attr: string, after: string)
    requires CString(buf) && r.Valid(buf) && Between(r) && At(buf, r.p, head.Text() + attr)
    requires Rest(buf, r.p + |head.Text() + attr|, after) && IsMistake(InTag(head, Repeated(attr)), parent, after)
    ensures FailsWith(Run(buf, parent, r, t), r.p + |head.Text() + attr|, DuplicateAttribute)
  {
    hide Act, Run, Regs.Valid, Blank, At, Rest, NameChar, IsName, Head.Text, Head.Valid, HasName, Head.TakesName;
    hide AttrMap;
    RestChars(buf, r.p + |head.Text() + attr|, after);
    HasIsKey(head.attrs, attr);
    HasTakesName(head, attr);
    var n, u := NextNameLeads(buf, parent, r, t, head, attr);
    RepeatedAct(buf, parent, n);
    FailsNow(buf, parent, n, u, DuplicateAttribute, n.p);
  }

  lemma NotEqualsAct(buf: string, parent: Option<string>, r: Regs)
    requires CString(buf) && r.Valid(buf) && buf[r.p] != NUL
    ensures r.state == EQUALS && buf[r.p] != '=' ==> Act(buf, parent, r) == Fail(ExpectedEquals, r.p)
    ensures r.state == ATTVAL_BEGIN && buf[r.p] != '"' && buf[r.p] != '\'' ==>
              Act(buf, parent, r) == Fail(ExpectedQuote, r.p)
  {
  }

  /** Up to where the equals sign is expected */
  lemma EqualsExpected(buf: string, parent: Option<string>, r: Regs, t: Trace, head: Head, attr: string, before: string)
      returns (n: Regs, u: Trace)
    requires CString(buf) && r.Valid(buf) && Between(r) && head.Valid() && head.TakesName() && IsName(attr)
    requires At(buf, r.p, head.Text() + attr + before) && !HasName(head.attrs, attr) && Blanks(before)
    requires var c := buf[r.p + |head.Text() + attr + before|]; c != NUL && !Blank(c) && (before == "" ==> !NameChar(c))
    ensures Leads(buf, parent, r, t, n, u) && n.state == EQUALS && n.p == r.p + |head.Text() + attr + before|
  {
    hide Act, Run, Regs.Valid, Blank, At, NameChar, IsName, Head.Text, Head.Valid, HasName, Head.TakesName, Blanks;
    hide AttrMap;
    AtSplit(buf, r.p, head.Text() + attr, before);
    BlankEndsName(buf, r.p + |head.Text() + attr|, before);
    HasIsKey(head.attrs, attr);
    n, u := NextNameLeads(buf, parent, r, t, head, attr);
    n, u := AttrNameEnds(buf, parent, n, u);
    n, u := SkipLeads(buf, parent, n, u, before);
  }

  lemma NotEqualsFails(buf: string, parent: Option<string>, r: Regs, t: Trace, head: Head, attr: string, before: string,
                       after: string)
    requires CString(buf) && r.Valid(buf) && Between(r) && At(buf, r.p, head.Text() + attr + before)
    requires Rest(buf, r.p + |head.Text() + attr + before|, after)
    requires IsMistake(InTag(head, NoEquals(attr, before)), parent, after)
    ensures FailsWith(Run(buf, parent, r, t), r.p + |head.Text() + attr + before|, ExpectedEquals)
  {
    hide Act, Run, Regs.Valid, Blank, At, Rest, NameChar, IsName, Head.Text, Head.Valid, HasName, Head.TakesName;
    hide Blanks;
    RestChars(buf, r.p + |head.Text() + attr + before|, after);
    var n, u := EqualsExpected(buf, parent, r, t, head, attr, before);
    NotEqualsAct(buf, parent, n);
    FailsNow(buf, parent, n, u, ExpectedEquals, n.p);
  }

  lemma EqualsIsNoName()
    ensures !Blank('=') && !NameChar('=')
  {
  }

  lemma NotQuoteFails(buf: string, parent: Option<string>, r: Regs, t: Trace, head: Head, attr: string, before: string,
                      behind: string, after: string)
    requires CString(buf) && r.Valid(buf) && Between(r) && At(buf, r.p, head.Text() + attr + before + "=" + behind)
    requires Rest(buf, r.p + |head.Text() + attr + before| + 1 + |behind|, after)
    requires IsMistake(InTag(head, NoQuote(attr, before, behind)), parent, after)
    ensures FailsWith(Run(buf, parent, r, t), r.p + |head.Text() + attr + before| + 1 + |behind|, ExpectedQuote)
  {
    hide Act, Run, Regs.Valid, Blank, At, Rest, NameChar, IsName, Head.Text, Head.Valid, HasName, Head.TakesName;
    hide Blanks;
    var q := r.p + |head.Text() + attr + before|;
    AtSplit(buf, r.p, head.Text() + attr + before + "=", behind);
    AtSplit(buf, r.p, head.Text() + attr + before, "=");
    LastChar(buf, q, '=');
    EqualsIsNoName();
    RestChars(buf, q + 1 + |behind|, after);
    var n, u := EqualsExpected(buf, parent, r, t, head, attr, before);
    n, u := EqualsLeads(buf, parent, n, u);
    n, u := SkipLeads(buf, parent, n, u, behind);
    NotEqualsAct(buf, parent, n);
    FailsNow(buf, parent, n, u, ExpectedQuote, n.p);
  }

  lemma NotSelfClosedFails(buf: string, parent: Option<string>, r: Regs, t: Trace, head: Head, after: string)
    requires CString(buf) && r.Valid(buf) && Between(r) && At(buf, r.p, head.Text() + "/")
    requires Rest(buf, r.p + |head.Text()| + 1, after) && IsMistake(NotSelfClosed(head), parent, after)
    ensures FailsWith(Run(buf, parent, r, t), r.p + |head.Text()| + 1, ExpectedGreater)
  {
    hide Act, Run, Regs.Valid, Blank, At, Rest, NameChar, Head.Text, Head.Valid, AttrMap;
    AtSplit(buf, r.p, head.Text(), "/");
    LastChar(buf, r.p + |head.Text()|, '/');
    BlankMarks();
    RestChars(buf, r.p + |head.Text()| + 1, after);
    var n, u := HeadLeads(buf, parent, r, t, head);
    n, u := SlashLeads(buf, parent, n, u);
    NotGreaterAct(buf, parent, n);
    FailsNow(buf, parent, n, u, ExpectedGreater, n.p);
  }

  // ---------- anywhere in a document ----------

  lemma EndMistakeFails(buf: string, parent: Option<string>, r: Regs, t: Trace, m: Mistake, after: string)
    requires CString(buf) && r.Valid(buf) && Between(r) && At(buf, r.p, ShowMistake(m))
    requires Rest(buf, r.p + |ShowMistake(m)|, after) && IsMistake(m, parent, after)
    requires parent.Some? && IsName(parent.value)
    requires m.NoEndName? || m.OtherEnd? || m.LateEnd? || m.EndNotClosed?
    ensures FailsWith(Run(buf, parent, r, t), r.p + ErrorAt(m), ErrorOf(m, parent))
  {
    hide Act, Run, Regs.Valid, At, Rest, IsMistake, Between, FailsWith, IsName, CString;
    NameIsSome(parent.value);
    match m
    case NoEndName(lead) => NoEndNameFails(buf, parent, r, t, lead, after);
    case OtherEnd(lead, name) => OtherEndFails(buf, parent, r, t, lead, name, after);
    case LateEnd(lead, gap, name) => LateEndFails(buf, parent, r, t, lead, gap, name, after);
    case EndNotClosed(lead, name, trail) => EndNotClosedFails(buf, parent, r, t, lead, name, trail, after);
  }

  lemma SlipText(head: Head, slip: Slip)
    ensures slip.NoAttribute? ==> head.Text() + slip.Text() == head.Text()
    ensures slip.NoEquals? ==> head.Text() + slip.Text() == head.Text() + slip.name + slip.before
    ensures slip.NoQuote? ==>
              head.Text() + slip.Text() == head.Text() + slip.name + slip.before + "=" + slip.behind
  {
  }

  lemma SlipFails(buf: string, parent: Option<string>, r: Regs, t: Trace, head: Head, slip: Slip, after: string)
    requires CString(buf) && r.Valid(buf) && Between(r) && At(buf, r.p, ShowMistake(InTag(head, slip)))
    requires Rest(buf, r.p + |ShowMistake(InTag(head, slip))|, after) && IsMistake(InTag(head, slip), parent, after)
    ensures FailsWith(Run(buf, parent, r, t), r.p + ErrorAt(InTag(head, slip)), ErrorOf(InTag(head, slip), parent))
  {
    hide Act, Run, Regs.Valid, At, Rest, IsMistake, Between, FailsWith, CString, Head.Text, Slip.Text;
    SlipText(head, slip);
    match slip
    case NoAttribute => NotAttributeFails(buf, parent, r, t, head, after);
    case Repeated(attr) =>
      RepeatedText(head, attr);
      RepeatedFails(buf, parent, r, t, head, attr, after);
    case NoEquals(attr, before) => NotEqualsFails(buf, parent, r, t, head, attr, before, after);
    case NoQuote(attr, before, behind) => NotQuoteFails(buf, parent, r, t, head, attr, before, behind, after);
  }

  lemma RepeatedText(head: Head, attr: string)
    ensures ShowMistake(InTag(head, Repeated(attr))) == head.Text() + attr
  {
  }

  lemma TagMistakeFails(buf: string, parent: Option<string>, r: Regs, t: Trace, m: Mistake, after: string)
    requires CString(buf) && r.Valid(buf) && Between(r) && At(buf, r.p, ShowMistake(m))
    requires Rest(buf, r.p + |ShowMistake(m)|, after) && IsMistake(m, parent, after)
    requires m.InTag? || m.NotSelfClosed?
    ensures FailsWith(Run(buf, parent, r, t), r.p + ErrorAt(m), ErrorOf(m, parent))
  {
    hide Act, Run, Regs.Valid, At, Rest, IsMistake, Between, FailsWith, CString, Head.Text, Slip.Text;
    match m
    case InTag(head, slip) => SlipFails(buf, parent, r, t, head, slip, after);
    case NotSelfClosed(head) => NotSelfClosedFails(buf, parent, r, t, head, after);
  }

  lemma MistakeInside(m: Mistake, inner: Option<string>, after: string)
    requires IsMistake(m, inner, after)
    ensures m.OpenAtEnd? || m.NoEndName? || m.OtherEnd? || m.LateEnd? || m.EndNotClosed? ==> inner.Some?
    ensures m.OpenAtEnd? ==> after == ""
  {
  }

  /** A mistake right where the next node is expected */
  lemma MistakeFails(buf: string, parent: Option<string>, r: Regs, t: Trace, m: Mistake, after: string)
    requires CString(buf) && r.Valid(buf) && Between(r) && At(buf, r.p, ShowMistake(m))
    requires Rest(buf, r.p + |ShowMistake(m)|, after) && IsMistake(m, parent, after)
    requires parent.Some? ==> IsName(parent.value)
    ensures FailsWith(Run(buf, parent, r, t), r.p + ErrorAt(m), ErrorOf(m, parent))
  {
    hide Act, Run, Regs.Valid, At, IsMistake, Between, FailsWith, IsName, CString;
    MistakeInside(m, parent, after);
    match m
    case OpenAtEnd(words) => OpenAtEndFails(buf, parent, r, t, words);
    case NotCData(_) => DeclarationFails(buf, parent, r, t, m, after);
    case NotDocType(_) => DeclarationFails(buf, parent, r, t, m, after);
    case NotComment(_) => DeclarationFails(buf, parent, r, t, m, after);
    case NotNode(_) => NodeFails(buf, parent, r, t, m, after);
    case StrayEnd(_) => NodeFails(buf, parent, r, t, m, after);
    case NoEndName(_) => EndMistakeFails(buf, parent, r, t, m, after);
    case OtherEnd(_, _) => EndMistakeFails(buf, parent, r, t, m, after);
    case LateEnd(_, _, _) => EndMistakeFails(buf, parent, r, t, m, after);
    case EndNotClosed(_, _, _) => EndMistakeFails(buf, parent, r, t, m, after);
    case _ => TagMistakeFails(buf, parent, r, t, m, after);
  }

  lemma MistakeBegins(m: Mistake)
    ensures !m.OpenAtEnd? ==> ShowMistake(m) != "" && ShowMistake(m)[0] == '<'
  {
  }

  /** A mistake after the items of an activation */
  lemma MistakeAfterItems(buf: string, parent: Option<string>, r: Regs, t: Trace, before: seq<Item>, m: Mistake,
                          after: string)
    requires CString(buf) && r.Valid(buf) && Between(r) && WellAll(before) && At(buf, r.p, ShowAll(before))
    requires At(buf, r.p + |ShowAll(before)|, ShowMistake(m))
    requires Rest(buf, r.p + |ShowAll(before)| + |ShowMistake(m)|, after) && IsMistake(m, parent, after)
    requires m.OpenAtEnd? ==> !EndsInWords(before)
    requires parent.Some? ==> IsName(parent.value)
    ensures FailsWith(Run(buf, parent, r, t), r.p + |ShowAll(before)| + ErrorAt(m), ErrorOf(m, parent))
  {
    hide Act, Run, Regs.Valid, At, IsMistake, ShowAll, WellAll, ShowMistake, IsName, Rest;
    MistakeBegins(m);
    if !m.OpenAtEnd? {
      FirstChar(buf, r.p + |ShowAll(before)|, ShowMistake(m));
    }
    TextAt(buf, r.p, ShowAll(before));
    var n, u := ItemsLead(buf, parent, r, t, before);
    MistakeFails(buf, parent, n, u, m, after);
  }

  /** The parts of a path that is not empty */
  lemma PathParts(buf: string, p: nat, path: seq<Opened>)
    requires path != [] && At(buf, p, ShowPath(path))
    ensures var q := p + |ShowAll(path[0].before)|; var e := q + |path[0].head.Text()|;
            && At(buf, p, ShowAll(path[0].before)) && At(buf, q, path[0].head.Text()) && buf[e] == '>'
            && buf[q] == '<' && At(buf, e + 1, ShowPath(path[1..])) && e + 1 + |ShowPath(path[1..])| == p + |ShowPath(path)|
  {
    hide At, ShowAll;
    var head := path[0].head;
    FourParts(buf, p, ShowAll(path[0].before), head.Text(), ">", ShowPath(path[1..]));
    LastChar(buf, p + |ShowAll(path[0].before)| + |head.Text()|, '>');
    FirstChar(buf, p + |ShowAll(path[0].before)|, head.Text());
  }

  /** The first element of a path is opened. */
  lemma OpenedLeads(buf: string, parent: Option<string>, r: Regs, t: Trace, path: seq<Opened>) returns (n: Regs, u: Trace)
    requires CString(buf) && r.Valid(buf) && Between(r) && WellPath(path) && path != [] && At(buf, r.p, ShowPath(path))
    ensures Leads(buf, parent, r, t, n, u) && n.state == CHILDS && n.nodename == path[0].head.name
    ensures n.p + |ShowPath(path[1..])| == r.p + |ShowPath(path)| && At(buf, n.p, ShowPath(path[1..])) && IsName(n.nodename)
  {
    hide Act, Run, Regs.Valid, At, ShowAll, WellAll, ShowPath, WellTag, ShowTag, IsName, AttrMap;
    var Head(lead, name, attrs, trail) := path[0].head;
    PathParts(buf, r.p, path);
    TagNamed(lead, name, attrs, trail);
    n, u := ItemsLead(buf, parent, r, t, path[0].before);
    n, u := TagLeads(buf, parent, n, u, lead, name, attrs, trail);
    n, u := ChildsLeads(buf, parent, n, u);
  }

  lemma ChildFails(buf: string, parent: Option<string>, r: Regs, t: Trace, p: nat, e: Error)
    requires CString(buf) && r.Valid(buf) && r.state == CHILDS && buf[r.p] != NUL
    requires Start(r.p).Valid(buf) && FailsWith(Run(buf, Some(r.nodename), Start(r.p), t), p, e)
    ensures FailsWith(Run(buf, parent, r, t), p, e)
  {
    hide Act, Regs.Valid, Run;
    ChildDescends(buf, parent, r);
    RunChild(buf, parent, r, t);
  }

  /** Where the mistake stands: behind a path of open elements and the items in the innermost of them */
  ghost predicate Stands(buf: string, p: nat, path: seq<Opened>, before: seq<Item>, m: Mistake, after: string) {
    var q := p + |ShowPath(path)|;
    && At(buf, p, ShowPath(path)) && At(buf, q, ShowAll(before)) && At(buf, q + |ShowAll(before)|, ShowMistake(m))
    && Rest(buf, q + |ShowAll(before)| + |ShowMistake(m)|, after)
  }

  lemma InnermostOfRest(path: seq<Opened>, parent: Option<string>)
    requires path != []
    ensures Innermost(path[1..], Some(path[0].head.name)) == Innermost(path, parent)
    ensures WellPath(path) ==> WellPath(path[1..])
  {
  }

  /** At the end of the text an element without any content is still open. */
  lemma NothingMore(buf: string, p: nat, path: seq<Opened>, before: seq<Item>, m: Mistake, after: string)
    requires CString(buf) && Stands(buf, p, path, before, m, after) && buf[p] == NUL
    ensures |ShowPath(path)| + |ShowAll(before)| == 0 && ErrorAt(m) == 0 && m.OpenAtEnd?
    ensures forall inner :: ErrorOf(m, inner) == UnexpectedEnd
  {
    MistakeBegins(m);
  }

  lemma StandsInside(buf: string, p: nat, path: seq<Opened>, before: seq<Item>, m: Mistake, after: string, q: nat)
    requires Stands(buf, p, path, before, m, after) && path != [] && At(buf, q, ShowPath(path[1..]))
    requires q + |ShowPath(path[1..])| == p + |ShowPath(path)|
    ensures Stands(buf, q, path[1..], before, m, after) && At(buf, p, ShowPath(path))
  {
    hide At, ShowAll, ShowMistake, ShowPath, Rest;
  }

  lemma StandsHere(buf: string, p: nat, before: seq<Item>, m: Mistake, after: string)
    requires Stands(buf, p, [], before, m, after)
    ensures At(buf, p, ShowAll(before)) && At(buf, p + |ShowAll(before)|, ShowMistake(m)) && |ShowPath([])| == 0
    ensures Rest(buf, p + |ShowAll(before)| + |ShowMistake(m)|, after)
  {
    hide At, ShowAll, ShowMistake, Rest;
  }

  /** The exception of an inner activation is that of the outermost. */
  lemma {:induction false} MistakeInPath(buf: string, parent: Option<string>, r: Regs, t: Trace, path: seq<Opened>,
                                         before: seq<Item>, m: Mistake, after: string)
    requires CString(buf) && r.Valid(buf) && Between(r) && WellPath(path) && WellAll(before)
    requires Stands(buf, r.p, path, before, m, after) && IsMistake(m, Innermost(path, parent), after)
    requires m.OpenAtEnd? ==> !EndsInWords(before)
    requires parent.Some? ==> IsName(parent.value)
    ensures FailsWith(Run(buf, parent, r, t), r.p + |ShowPath(path)| + |ShowAll(before)| + ErrorAt(m),
                      ErrorOf(m, Innermost(path, parent)))
    decreases |path|
  {
    hide Act, Run, Regs.Valid, At, IsMistake, ShowAll, WellAll, ShowMistake, IsName, Rest, WellPath, FailsWith;
    hide Stands, ShowPath, ErrorAt, ErrorOf, CString, Between, EndsInWords;
    if path == [] {
      StandsHere(buf, r.p, before, m, after);
      MistakeAfterItems(buf, parent, r, t, before, m, after);
    } else {
      InnermostOfRest(path, parent);
      PathStands(buf, r.p, path, before, m, after);
      var n, u := OpenedLeads(buf, parent, r, t, path);
      StandsInside(buf, r.p, path, before, m, after, n.p);
      if buf[n.p] == NUL {
        NothingMore(buf, n.p, path[1..], before, m, after);
        EndsOpen(buf, parent, n, u);
      } else {
        StartBetween(buf, n.p);
        MistakeInPath(buf, Some(n.nodename), Start(n.p), u, path[1..], before, m, after);
        ChildFails(buf, parent, n, u, r.p + |ShowPath(path)| + |ShowAll(before)| + ErrorAt(m),
                   ErrorOf(m, Innermost(path, parent)));
      }
    }
  }

  lemma PathStands(buf: string, p: nat, path: seq<Opened>, before: seq<Item>, m: Mistake, after: string)
    requires Stands(buf, p, path, before, m, after)
    ensures At(buf, p, ShowPath(path))
  {
  }

  lemma EndsOpen(buf: string, parent: Option<string>, r: Regs, t: Trace)
    requires CString(buf) && r.Valid(buf) && r.state == CHILDS && buf[r.p] == NUL
    ensures FailsWith(Run(buf, parent, r, t), r.p, UnexpectedEnd)
  {
    RunEnd(buf, parent, r, t);
  }

  // ---------- the end of the text ----------

  lemma ActFailsBeforeEnd(buf: string, parent: Option<string>, r: Regs)
    requires CString(buf) && r.Valid(buf) && buf[r.p] != NUL && Act(buf, parent, r).Fail?
    ensures var a := Act(buf, parent, r); !a.error.UnexpectedEnd? && (a.at == r.p || a.error.ExpectedCData?)
  {
    hide Regs.Valid;
    Bounds(buf, r);
  }

  /** Only at the terminator is the end unexpected, and all but one of the other exceptions come before it. */
  ghost predicate EndIsUnexpected(buf: string, o: Outcome) {
    o.Failed? ==>
      && o.p < |buf|
      && (o.error.UnexpectedEnd? ==> buf[o.p] == NUL)
      && (buf[o.p] == NUL ==> o.error.UnexpectedEnd? || o.error.ExpectedCData?)
  }

  lemma {:induction false} RunEndsUnexpectedly(buf: string, parent: Option<string>, r: Regs, t: Trace)
    requires CString(buf) && r.Valid(buf)
    ensures EndIsUnexpected(buf, Run(buf, parent, r, t))
    decreases |buf| - r.p, r.Rank()
  {
    hide Run, Act, Regs.Valid, TagsOf, Regs.Rank, CString;
    Bounds(buf, r);
    StartIsValid(buf, r.p);
    if buf[r.p] == NUL {
      RunEnd(buf, parent, r, t);
    } else {
      RunRound(buf, parent, r, t);
      match Act(buf, parent, r)
      case Stay(n, ts) => RunEndsUnexpectedly(buf, parent, n, Later(t, 0, [], ts));
      case Advance(n, es, ts) => RunEndsUnexpectedly(buf, parent, n, Later(t, Tick(buf, n.p), es, ts));
      case Descend(n) =>
        var child := Run(buf, Some(r.nodename), Start(r.p), t);
        RunChild(buf, parent, r, t);
        RunEndsUnexpectedly(buf, Some(r.nodename), Start(r.p), t);
        if child.Returned? {
          RunEndsUnexpectedly(buf, parent, Resume(r, child.p), Ticked(child.trace, Tick(buf, child.p + 1)));
        }
      case Return(es) =>
      case Fail(e, at) => ActFailsBeforeEnd(buf, parent, r);
    }
  }
}
