/** The state machine of std/cpp/NativeXmlImport.cpp: one round of its loop, and its runs. */
module XmlMachine {
  import opened Optional

  const NUL: char := '\0'

  datatype State =
    | IGNORE_SPACES | BEGIN | BEGIN_NODE | TAG_NAME | BODY | ATTRIB_NAME | EQUALS | ATTVAL_BEGIN
    | ATTRIB_VAL | CHILDS | CLOSE | WAIT_END | WAIT_END_RET | PCDATA | HEADER | COMMENT | DOCTYPE | CDATA

  /** The calls made on the callback object. */
  datatype Event =
    | PcData(text: string)
    | CDataText(text: string)
    | Xml(name: string, attribs: map<string, string>)
    | Done
    | Comment(text: string)
    | DocType(text: string)

  /** The start and end tags of the text, each with the position of its name. */
  datatype Tag = Open(name: string, at: nat) | Close(name: string, at: nat)
  {
    ghost predicate In(buf: string) {
      && at + |name| <= |buf| && buf[at..at + |name|] == name
      && (Close? ==> at > 0 && buf[at - 1] == '/')
    }
  }

  datatype Error =
    | ExpectedCData | ExpectedDocType | ExpectedComment | ExpectedNodeName | ExpectedAttributeName
    | DuplicateAttribute | ExpectedEquals | ExpectedQuote | ExpectedGreater | ExpectedClose(name: string)
    | UnexpectedEnd

  /** The local variables of one activation of do_parse_xml; nameAt says where nodename was read. */
  datatype Regs = Regs(state: State, next: State, p: nat, start: nat, nsubs: nat, nbrackets: int,
                       aname: string, nodename: string, nameAt: nat, attribs: map<string, string>)
  {
    predicate UsesStart() {
      || (state.PCDATA? || state.CDATA? || state.TAG_NAME? || state.ATTRIB_NAME? || state.ATTRIB_VAL?
          || state.CLOSE? || state.COMMENT? || state.DOCTYPE? || state.HEADER?)
      || (state == IGNORE_SPACES && next == CLOSE)
    }

    /** p is on the text or its terminator, and a state that will cut text out has a start to cut from. */
    ghost predicate Valid(buf: string) {
      && p < |buf|
      && (UsesStart() ==> start <= p)
      && (state == ATTRIB_VAL ==> start < p)
      && ((state == CLOSE || (state == IGNORE_SPACES && next == CLOSE)) ==> start > 0 && buf[start - 1] == '/')
      && (state == IGNORE_SPACES ==>
            (next.BEGIN_NODE? || next.BODY? || next.EQUALS? || next.ATTVAL_BEGIN? || next.CLOSE? || next.WAIT_END_RET?))
      && ((state.BODY? || state.ATTRIB_NAME? || state.EQUALS? || state.ATTVAL_BEGIN? || state.ATTRIB_VAL?)
          || (state == IGNORE_SPACES && (next.BODY? || next.EQUALS? || next.ATTVAL_BEGIN?)) ==>
          nodename != [] && Open(nodename, nameAt).In(buf) && nameAt < p)
      && (state == CHILDS ==> nodename != [])
    }

    /** How many rounds the activation can still make without moving p. */
    function Rank(): nat {
      if state == IGNORE_SPACES then 1 + StateRank(next) else StateRank(state)
    }
  }

  function StateRank(s: State): nat {
    match s
    case BEGIN_NODE => 6
    case TAG_NAME => 5
    case BODY => 3
    case ATTRIB_NAME => 2
    case CLOSE => 2
    case CHILDS => 2
    case BEGIN => 1
    case _ => 0
  }

  predicate CString(buf: string) {
    && buf != [] && buf[|buf| - 1] == NUL
    && forall i | 0 <= i < |buf| - 1 :: buf[i] != NUL
  }

  predicate NoNul(text: string) {
    forall i | 0 <= i < |text| :: text[i] != NUL
  }

  predicate IsValidChar(c: char) {
    || 'a' <= c <= 'z' || 'A' <= c <= 'Z' || '0' <= c <= '9'
    || c == ':' || c == '.' || c == '_' || c == '-'
  }

  predicate IsSpace(c: char) {
    c == '\n' || c == '\r' || c == '\t' || c == ' '
  }

  function Lower(c: char): char {
    if 'A' <= c <= 'Z' then c - 'A' + 'a' else c
  }

  /** strcmpi(a, b) == 0 */
  predicate EqualNoCase(a: string, b: string) {
    |a| == |b| && forall i | 0 <= i < |a| :: Lower(a[i]) == Lower(b[i])
  }

  predicate Either(c: char, upper: char, lower: char) {
    c == upper || c == lower
  }

  /** What one round of the loop does: it continues at the same character or at a later one, parses
      children, returns, or throws. */
  datatype Action =
    | Stay(regs: Regs, tags: seq<Tag>)
    | Advance(regs: Regs, events: seq<Event>, tags: seq<Tag>)
    | Descend(regs: Regs)
    | Return(events: seq<Event>)
    | Fail(error: Error, at: nat)

  function Act(buf: string, parent: Option<string>, r: Regs): (a: Action)
    requires CString(buf) && r.Valid(buf) && buf[r.p] != NUL
  {
    var p, c := r.p, buf[r.p];
    var text := if r.UsesStart() then buf[r.start..p] else [];
    match r.state
    case IGNORE_SPACES =>
      if IsSpace(c) then Advance(r.(p := p + 1), [], [])
      else Stay(r.(state := r.next), [])
    case BEGIN =>
      if c == '<' then Advance(r.(state := IGNORE_SPACES, next := BEGIN_NODE, p := p + 1), [], [])
      else Stay(r.(start := p, state := PCDATA), [])
    case PCDATA =>
      if c == '<' then
        Advance(r.(nsubs := r.nsubs + 1, state := IGNORE_SPACES, next := BEGIN_NODE, p := p + 1), [PcData(text)], [])
      else Advance(r.(p := p + 1), [], [])
    case CDATA =>
      if c == ']' && buf[p + 1] == ']' && buf[p + 2] == '>' then
        Advance(r.(nsubs := r.nsubs + 1, state := BEGIN, p := p + 3), [CDataText(text)], [])
      else Advance(r.(p := p + 1), [], [])
    case BEGIN_NODE =>
      if c == '!' then Declaration(buf, r)
      else if c == '?' then Advance(r.(state := HEADER, start := p, p := p + 1), [], [])
      else if c == '/' then
        if parent.None? || parent.value == [] then Fail(ExpectedNodeName, p)
        else Advance(r.(start := p + 1, state := IGNORE_SPACES, next := CLOSE, p := p + 1), [], [])
      else Stay(r.(state := TAG_NAME, start := p), [])
    case TAG_NAME =>
      if IsValidChar(c) then Advance(r.(p := p + 1), [], [])
      else if p == r.start then Fail(ExpectedNodeName, p)
      else Stay(r.(nodename := text, nameAt := r.start, attribs := map[], state := IGNORE_SPACES, next := BODY), [])
    case BODY =>
      if c == '/' then
        Advance(r.(state := WAIT_END, nsubs := r.nsubs + 1, p := p + 1), [Xml(r.nodename, r.attribs)], [])
      else if c == '>' then
        Advance(r.(state := CHILDS, nsubs := r.nsubs + 1, p := p + 1), [Xml(r.nodename, r.attribs)],
                [Open(r.nodename, r.nameAt)])
      else Stay(r.(state := ATTRIB_NAME, start := p), [])
    case ATTRIB_NAME =>
      if IsValidChar(c) then Advance(r.(p := p + 1), [], [])
      else if r.start == p then Fail(ExpectedAttributeName, p)
      else if text in r.attribs then Fail(DuplicateAttribute, p)
      else Stay(r.(aname := text, state := IGNORE_SPACES, next := EQUALS), [])
    case EQUALS =>
      if c == '=' then Advance(r.(state := IGNORE_SPACES, next := ATTVAL_BEGIN, p := p + 1), [], [])
      else Fail(ExpectedEquals, p)
    case ATTVAL_BEGIN =>
      if c == '"' || c == '\'' then Advance(r.(state := ATTRIB_VAL, start := p, p := p + 1), [], [])
      else Fail(ExpectedQuote, p)
    case ATTRIB_VAL =>
      if c == buf[r.start] then
        Advance(r.(attribs := r.attribs[r.aname := buf[r.start + 1..p]], state := IGNORE_SPACES, next := BODY,
                   p := p + 1), [], [])
      else Advance(r.(p := p + 1), [], [])
    case CHILDS => Descend(r)
    case WAIT_END =>
      if c == '>' then Advance(r.(state := BEGIN, p := p + 1), [Done], [])
      else Fail(ExpectedGreater, p)
    case WAIT_END_RET =>
      if c == '>' then Return(if r.nsubs == 0 then [PcData("")] else [])
      else Fail(ExpectedGreater, p)
    case CLOSE =>
      if IsValidChar(c) then Advance(r.(p := p + 1), [], [])
      else if r.start == p then Fail(ExpectedNodeName, p)
      else if parent.None? || !EqualNoCase(parent.value, text) then
        Fail(ExpectedClose(if parent.Some? then parent.value else ""), p)
      else Stay(r.(state := IGNORE_SPACES, next := WAIT_END_RET), [Close(text, r.start)])
    case COMMENT =>
      if c == '-' && buf[p + 1] == '-' && buf[p + 2] == '>' then
        Advance(r.(state := BEGIN, p := p + 3), [Comment(text)], [])
      else Advance(r.(p := p + 1), [], [])
    case DOCTYPE =>
      if c == '[' then Advance(r.(nbrackets := r.nbrackets + 1, p := p + 1), [], [])
      else if c == ']' then Advance(r.(nbrackets := r.nbrackets - 1, p := p + 1), [], [])
      else if c == '>' && r.nbrackets == 0 then Advance(r.(state := BEGIN, p := p + 1), [DocType(text)], [])
      else Advance(r.(p := p + 1), [], [])
    case HEADER =>
      if c == '?' && buf[p + 1] == '>' then
        Advance(r.(state := BEGIN, p := p + 2), [Comment(buf[r.start..p + 1])], [])
      else Advance(r.(p := p + 1), [], [])
  }

  /** BEGIN_NODE on an exclamation mark: the look-ahead stops at the terminator because every test does. */
  function Declaration(buf: string, r: Regs): (a: Action)
    requires CString(buf) && r.Valid(buf) && buf[r.p] != NUL
  {
    var p := r.p;
    if buf[p + 1] == '[' then
      if !Either(buf[p + 2], 'C', 'c') || !Either(buf[p + 3], 'D', 'd') || !Either(buf[p + 4], 'A', 'a')
         || !Either(buf[p + 5], 'T', 't') || !Either(buf[p + 6], 'A', 'a') || buf[p + 7] != '['
      then Fail(ExpectedCData, p + 2)
      else Advance(r.(state := CDATA, start := p + 8, p := p + 8), [], [])
    else if Either(buf[p + 1], 'D', 'd') then
      if !Either(buf[p + 2], 'O', 'o') || !Either(buf[p + 3], 'C', 'c') || !Either(buf[p + 4], 'T', 't')
         || !Either(buf[p + 5], 'Y', 'y') || !Either(buf[p + 6], 'P', 'p') || !Either(buf[p + 7], 'E', 'e')
      then Fail(ExpectedDocType, p)
      else Advance(r.(state := DOCTYPE, start := p + 8, p := p + 8), [], [])
    else if buf[p + 1] != '-' || buf[p + 2] != '-' then Fail(ExpectedComment, p)
    else Advance(r.(state := COMMENT, start := p + 3, p := p + 3), [], [])
  }

  /** What one round promises about the registers, the positions, the tags and its progress. */
  ghost predicate Progress(buf: string, parent: Option<string>, r: Regs, a: Action)
    requires r.p < |buf|
  {
    match a
    case Stay(n, ts) =>
      n.Valid(buf) && n.p == r.p && n.Rank() < r.Rank() && TagsOf(buf, r, parent, ts)
    case Advance(n, es, ts) =>
      n.Valid(buf) && r.p < n.p && TagsOf(buf, r, parent, ts)
    case Descend(n) => n == r && r.state == CHILDS && r.nodename != []
    case Return(es) => buf[r.p] == '>' && r.state == WAIT_END_RET
    case Fail(e, at) => r.p <= at < |buf|
  }

  /** A round logs at most one tag, a real one that begins before the current character. */
  ghost predicate TagsOf(buf: string, r: Regs, parent: Option<string>, ts: seq<Tag>) {
    || ts == []
    || (|ts| == 1 && ts[0].In(buf) && ts[0].at < r.p
        && (ts[0].Close? ==> parent.Some? && EqualNoCase(parent.value, ts[0].name)))
  }

  lemma DeclarationProgress(buf: string, parent: Option<string>, r: Regs)
    requires CString(buf) && r.Valid(buf) && buf[r.p] != NUL
    ensures Progress(buf, parent, r, Declaration(buf, r))
  {
  }

  lemma ActInText(buf: string, parent: Option<string>, r: Regs)
    requires CString(buf) && r.Valid(buf) && buf[r.p] != NUL
    requires r.state.BEGIN? || r.state.PCDATA? || r.state.DOCTYPE?
    ensures Progress(buf, parent, r, Act(buf, parent, r))
  {
  }

  lemma ActInSection(buf: string, parent: Option<string>, r: Regs)
    requires CString(buf) && r.Valid(buf) && buf[r.p] != NUL
    requires r.state.CDATA? || r.state.COMMENT? || r.state.HEADER?
    ensures Progress(buf, parent, r, Act(buf, parent, r))
  {
  }

  lemma ActInSpace(buf: string, parent: Option<string>, r: Regs)
    requires CString(buf) && r.Valid(buf) && buf[r.p] != NUL
    requires r.state.IGNORE_SPACES? || r.state.CHILDS? || r.state.WAIT_END? || r.state.WAIT_END_RET?
    ensures Progress(buf, parent, r, Act(buf, parent, r))
  {
  }

  lemma ActInNode(buf: string, parent: Option<string>, r: Regs)
    requires CString(buf) && r.Valid(buf) && buf[r.p] != NUL
    requires r.state.BEGIN_NODE? || r.state.TAG_NAME?
    ensures Progress(buf, parent, r, Act(buf, parent, r))
  {
    hide Declaration;
    DeclarationProgress(buf, parent, r);
  }

  lemma ActInTag(buf: string, parent: Option<string>, r: Regs)
    requires CString(buf) && r.Valid(buf) && buf[r.p] != NUL
    requires r.state.BODY? || r.state.ATTRIB_NAME?
    ensures Progress(buf, parent, r, Act(buf, parent, r))
  {
  }

  lemma ActInAttribute(buf: string, parent: Option<string>, r: Regs)
    requires CString(buf) && r.Valid(buf) && buf[r.p] != NUL
    requires r.state.EQUALS? || r.state.ATTVAL_BEGIN? || r.state.ATTRIB_VAL?
    ensures Progress(buf, parent, r, Act(buf, parent, r))
  {
  }

  lemma ActInClose(buf: string, parent: Option<string>, r: Regs)
    requires CString(buf) && r.Valid(buf) && buf[r.p] != NUL
    requires r.state.CLOSE?
    ensures Progress(buf, parent, r, Act(buf, parent, r))
  {
  }

  lemma ActProgress(buf: string, parent: Option<string>, r: Regs)
    requires CString(buf) && r.Valid(buf) && buf[r.p] != NUL
    ensures Progress(buf, parent, r, Act(buf, parent, r))
  {
    hide Act, Progress;
    match r.state
    case BEGIN | PCDATA | DOCTYPE => ActInText(buf, parent, r);
    case CDATA | COMMENT | HEADER => ActInSection(buf, parent, r);
    case IGNORE_SPACES | CHILDS | WAIT_END | WAIT_END_RET => ActInSpace(buf, parent, r);
    case BEGIN_NODE | TAG_NAME => ActInNode(buf, parent, r);
    case BODY | ATTRIB_NAME => ActInTag(buf, parent, r);
    case EQUALS | ATTVAL_BEGIN | ATTRIB_VAL => ActInAttribute(buf, parent, r);
    case CLOSE => ActInClose(buf, parent, r);
  }
}
