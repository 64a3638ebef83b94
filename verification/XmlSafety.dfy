/** What every run of the parser keeps: the line counter, and the nesting of the tags it passed. */
module XmlSafety {
  import opened Optional
  import opened XmlBalance
  import opened XmlMachine
  import opened XmlParser

  // ---------- the line counter ----------

  /** The newlines among the characters from a up to and excluding b. */
  function Newlines(buf: string, a: nat, b: nat): nat
    requires b <= |buf|
  {
    if a >= b then 0 else Newlines(buf, a, b - 1) + if buf[b - 1] == '\n' then 1 else 0
  }

  lemma {:induction false} NoNewlines(buf: string, a: nat, m: nat, b: nat)
    requires a <= m <= b <= |buf| && forall i | m <= i < b :: buf[i] != '\n'
    ensures Newlines(buf, a, b) == Newlines(buf, a, m)
  {
    if m < b { NoNewlines(buf, a, m, b - 1); }
  }

  lemma CountOne(buf: string, a: nat, q: nat)
    requires a <= q < |buf|
    ensures Newlines(buf, a, q + 1) == Newlines(buf, a, q) + Tick(buf, q)
  {
  }

  /** No round jumps over a newline, and only the CDATA test gives up ahead of p. */
  ghost predicate Skips(buf: string, r: Regs, a: Action)
    requires r.p < |buf|
  {
    match a
    case Advance(n, es, ts) => n.p <= |buf| && forall i | r.p < i < n.p :: buf[i] != '\n'
    case Fail(e, at) =>
      if e == ExpectedCData then at == r.p + 2 && at < |buf| && buf[r.p + 1] == '[' else at == r.p
    case _ => true
  }

  lemma DeclarationSkips(buf: string, r: Regs)
    requires CString(buf) && r.Valid(buf) && buf[r.p] != NUL
    ensures Skips(buf, r, Declaration(buf, r))
  {
  }

  lemma ActSkips(buf: string, parent: Option<string>, r: Regs)
    requires CString(buf) && r.Valid(buf) && buf[r.p] != NUL
    ensures Skips(buf, r, Act(buf, parent, r))
  {
    hide Regs.Valid;
    Bounds(buf, r);
    DeclarationSkips(buf, r);
    hide Declaration;
  }

  /** The line counter is the number of newlines after the first character, up to and including p;
      only a failed CDATA test reports a position whose newline it has not counted. */
  ghost predicate LineIsRight(buf: string, p0: nat, o: Outcome) {
    && o.p < |buf|
    && o.trace.line + (if o.Failed? && o.error == ExpectedCData && buf[o.p] == '\n' then 1 else 0)
       == Newlines(buf, p0 + 1, o.p + 1)
  }

  lemma {:induction false} RunCountsLines(buf: string, parent: Option<string>, r: Regs, t: Trace, p0: nat)
    requires CString(buf) && r.Valid(buf) && p0 <= r.p
    requires t.line == Newlines(buf, p0 + 1, r.p + 1)
    ensures LineIsRight(buf, p0, Run(buf, parent, r, t))
    decreases |buf| - r.p, r.Rank()
  {
    hide Run, Act, Regs.Valid, TagsOf, CString, Regs.Rank, Newlines, Skips;
    Bounds(buf, r);
    StartIsValid(buf, r.p);
    if buf[r.p] == NUL {
      RunEnd(buf, parent, r, t);
    } else {
      RunRound(buf, parent, r, t);
      ActSkips(buf, parent, r);
      CountRound(buf, parent, r, t, p0, Act(buf, parent, r));
      match Act(buf, parent, r)
      case Stay(n, ts) => RunCountsLines(buf, parent, n, Later(t, 0, [], ts), p0);
      case Advance(n, es, ts) => RunCountsLines(buf, parent, n, Later(t, Tick(buf, n.p), es, ts), p0);
      case Descend(n) =>
        var child := Run(buf, Some(r.nodename), Start(r.p), t);
        RunChild(buf, parent, r, t);
        RunCountsLines(buf, Some(r.nodename), Start(r.p), t, p0);
        if child.Returned? {
          CountOne(buf, p0 + 1, child.p + 1);
          RunCountsLines(buf, parent, Resume(r, child.p), Ticked(child.trace, Tick(buf, child.p + 1)), p0);
        }
      case Return(es) =>
      case Fail(e, at) =>
    }
  }

  /** The counter after one round. */
  lemma CountRound(buf: string, parent: Option<string>, r: Regs, t: Trace, p0: nat, a: Action)
    requires r.p < |buf| && p0 <= r.p && Skips(buf, r, a) && Progress(buf, parent, r, a)
    requires t.line == Newlines(buf, p0 + 1, r.p + 1)
    ensures a.Advance? && a.regs.p < |buf| ==>
              t.line + Tick(buf, a.regs.p) == Newlines(buf, p0 + 1, a.regs.p + 1)
    ensures a.Fail? ==> LineIsRight(buf, p0, Failed(a.at, t, a.error))
  {
    if a.Advance? && a.regs.p < |buf| {
      NoNewlines(buf, p0 + 1, r.p + 1, a.regs.p);
    } else if a.Fail? && a.error == ExpectedCData {
      NoNewlines(buf, p0 + 1, r.p + 1, a.at);
    }
  }

  /** The line counter of a whole parse. */
  lemma ParseCountsLines(text: string)
    requires NoNul(text)
    ensures LineIsRight(text + [NUL], BomLength(text), ParseXml(text))
  {
    var buf := text + [NUL];
    StartIsValid(buf, BomLength(text));
    RunCountsLines(buf, None, Start(BomLength(text)), Trace(0, [], []), BomLength(text));
  }

  // ---------- nesting ----------

  /** Reads the tags against a stack of open elements, innermost first; an end tag must match the top. */
  function Nest(stack: seq<string>, tags: seq<Tag>): Option<seq<string>>
    decreases tags
  {
    if tags == [] then Some(stack)
    else match tags[0]
      case Open(n, _) => Nest([n] + stack, tags[1..])
      case Close(n, _) =>
        if stack != [] && EqualNoCase(stack[0], n) then Nest(stack[1..], tags[1..]) else None
  }

  lemma {:induction false} NestAppend(stack: seq<string>, a: seq<Tag>, b: seq<Tag>)
    ensures Nest(stack, a + b) == if Nest(stack, a).Some? then Nest(Nest(stack, a).value, b) else None
    decreases a
  {
    if a == [] {
      assert a + b == b;
    } else {
      assert (a + b)[1..] == a[1..] + b;
      match a[0]
      case Open(n, _) => NestAppend([n] + stack, a[1..], b);
      case Close(n, _) =>
        if stack != [] && EqualNoCase(stack[0], n) { NestAppend(stack[1..], a[1..], b); }
    }
  }

  /** The end tag of this activation has been read. */
  predicate Closed(r: Regs) {
    r.state.WAIT_END_RET? || (r.state.IGNORE_SPACES? && r.next.WAIT_END_RET?)
  }

  predicate InStartTag(r: Regs) {
    || r.state.BODY? || r.state.ATTRIB_NAME? || r.state.EQUALS? || r.state.ATTVAL_BEGIN? || r.state.ATTRIB_VAL?
    || (r.state.IGNORE_SPACES? && (r.next.BODY? || r.next.EQUALS? || r.next.ATTVAL_BEGIN?))
  }

  /** Tags logged from now on have names at or after this position. */
  function Limit(r: Regs): nat {
    if InStartTag(r) then r.nameAt
    else if r.state.TAG_NAME? || r.state.CLOSE? || (r.state.IGNORE_SPACES? && r.next.CLOSE?) then r.start
    else r.p
  }

  /** The elements open at a point of an activation entered with the given elements open. */
  ghost function OpenAt(r: Regs, stack: seq<string>): seq<string> {
    if Closed(r) then if stack == [] then [] else stack[1..]
    else if r.state.CHILDS? then [r.nodename] + stack
    else stack
  }

  ghost predicate NestsStep(parent: Option<string>, stack: seq<string>, r: Regs, n: Regs, ts: seq<Tag>) {
    && (Closed(n) ==> stack != [])
    && Nest(OpenAt(r, stack), ts) == Some(OpenAt(n, stack))
    && Limit(r) <= Limit(n)
    && (ts != [] ==> |ts| == 1 && Limit(r) <= ts[0].at < Limit(n))
  }

  ghost predicate ActNests(parent: Option<string>, stack: seq<string>, r: Regs, a: Action) {
    match a
    case Stay(n, ts) => NestsStep(parent, stack, r, n, ts)
    case Advance(n, es, ts) => NestsStep(parent, stack, r, n, ts)
    case Descend(n) => r.state.CHILDS?
    case Return(es) => Closed(r)
    case Fail(e, at) => true
  }

  ghost predicate Fits(parent: Option<string>, stack: seq<string>) {
    (parent.None? <==> stack == []) && (parent.Some? ==> stack[0] == parent.value)
  }

  lemma NestsText(buf: string, parent: Option<string>, r: Regs, stack: seq<string>)
    requires CString(buf) && r.Valid(buf) && buf[r.p] != NUL && Fits(parent, stack)
    requires r.state.BEGIN? || r.state.PCDATA? || r.state.DOCTYPE?
    requires Closed(r) ==> stack != []
    ensures ActNests(parent, stack, r, Act(buf, parent, r))
  {
  }

  lemma NestsSection(buf: string, parent: Option<string>, r: Regs, stack: seq<string>)
    requires CString(buf) && r.Valid(buf) && buf[r.p] != NUL && Fits(parent, stack)
    requires r.state.CDATA? || r.state.COMMENT? || r.state.HEADER?
    requires Closed(r) ==> stack != []
    ensures ActNests(parent, stack, r, Act(buf, parent, r))
  {
  }

  lemma NestsSpace(buf: string, parent: Option<string>, r: Regs, stack: seq<string>)
    requires CString(buf) && r.Valid(buf) && buf[r.p] != NUL && Fits(parent, stack)
    requires r.state.IGNORE_SPACES? || r.state.CHILDS? || r.state.WAIT_END? || r.state.WAIT_END_RET?
    requires Closed(r) ==> stack != []
    ensures ActNests(parent, stack, r, Act(buf, parent, r))
  {
  }

  lemma NestsNode(buf: string, parent: Option<string>, r: Regs, stack: seq<string>)
    requires CString(buf) && r.Valid(buf) && buf[r.p] != NUL && Fits(parent, stack)
    requires r.state.BEGIN_NODE? || r.state.TAG_NAME?
    requires Closed(r) ==> stack != []
    ensures ActNests(parent, stack, r, Act(buf, parent, r))
  {
  }

  lemma NestsBody(buf: string, parent: Option<string>, r: Regs, stack: seq<string>)
    requires CString(buf) && r.Valid(buf) && buf[r.p] != NUL && Fits(parent, stack)
    requires r.state.BODY? || r.state.ATTRIB_NAME?
    requires Closed(r) ==> stack != []
    ensures ActNests(parent, stack, r, Act(buf, parent, r))
  {
    if r.state.BODY? {
      assert [Open(r.nodename, r.nameAt)][1..] == [];
    }
  }

  lemma NestsAttribute(buf: string, parent: Option<string>, r: Regs, stack: seq<string>)
    requires CString(buf) && r.Valid(buf) && buf[r.p] != NUL && Fits(parent, stack)
    requires r.state.EQUALS? || r.state.ATTVAL_BEGIN? || r.state.ATTRIB_VAL?
    requires Closed(r) ==> stack != []
    ensures ActNests(parent, stack, r, Act(buf, parent, r))
  {
  }

  lemma NestsClose(buf: string, parent: Option<string>, r: Regs, stack: seq<string>)
    requires CString(buf) && r.Valid(buf) && buf[r.p] != NUL && Fits(parent, stack)
    requires r.state.CLOSE?
    requires Closed(r) ==> stack != []
    ensures ActNests(parent, stack, r, Act(buf, parent, r))
  {
    if parent.Some? {
      assert [Close(buf[r.start..r.p], r.start)][1..] == [];
    }
  }

  lemma EveryActNests(buf: string, parent: Option<string>, r: Regs, stack: seq<string>)
    requires CString(buf) && r.Valid(buf) && buf[r.p] != NUL
    requires Fits(parent, stack) && (Closed(r) ==> stack != [])
    ensures ActNests(parent, stack, r, Act(buf, parent, r))
  {
    hide Act, ActNests, CString, Fits;
    match r.state
    case BEGIN | PCDATA | DOCTYPE => NestsText(buf, parent, r, stack);
    case CDATA | COMMENT | HEADER => NestsSection(buf, parent, r, stack);
    case IGNORE_SPACES | CHILDS | WAIT_END | WAIT_END_RET => NestsSpace(buf, parent, r, stack);
    case BEGIN_NODE | TAG_NAME => NestsNode(buf, parent, r, stack);
    case BODY | ATTRIB_NAME => NestsBody(buf, parent, r, stack);
    case EQUALS | ATTVAL_BEGIN | ATTRIB_VAL => NestsAttribute(buf, parent, r, stack);
    case CLOSE => NestsClose(buf, parent, r, stack);
  }

  /** The tags are where they say in the text, one after the other, all before the limit. */
  ghost predicate Real(buf: string, tags: seq<Tag>, limit: nat) {
    && (forall i | 0 <= i < |tags| :: tags[i].In(buf) && tags[i].at < limit)
    && forall i, j | 0 <= i < j < |tags| :: tags[i].at < tags[j].at
  }

  lemma RealAppend(buf: string, parent: Option<string>, tags: seq<Tag>, r: Regs, n: Regs, ts: seq<Tag>)
    requires Real(buf, tags, Limit(r)) && TagsOf(buf, r, parent, ts)
    requires Limit(r) <= Limit(n) && (ts != [] ==> |ts| == 1 && Limit(r) <= ts[0].at < Limit(n))
    ensures Real(buf, tags + ts, Limit(n))
  {
  }

  /** How a run that ends normally leaves the tags. */
  ghost predicate EndsNested(buf: string, stack: seq<string>, o: Outcome) {
    match o
    case Returned(p, t) => stack != [] && Nest([], t.tags) == Some(stack[1..]) && Real(buf, t.tags, p + 1)
    case Finished(p, t) => stack == [] && Nest([], t.tags) == Some([]) && Real(buf, t.tags, p + 1)
    case Failed(_, _, _) => true
  }

  lemma {:induction false} RunNests(buf: string, parent: Option<string>, r: Regs, t: Trace, stack: seq<string>)
    requires CString(buf) && r.Valid(buf) && Fits(parent, stack) && (Closed(r) ==> stack != [])
    requires Nest([], t.tags) == Some(OpenAt(r, stack)) && Real(buf, t.tags, Limit(r))
    ensures EndsNested(buf, stack, Run(buf, parent, r, t))
    decreases |buf| - r.p, r.Rank()
  {
    hide Run, Act, Regs.Valid, TagsOf, CString, Regs.Rank, Nest, Real;
    Bounds(buf, r);
    StartIsValid(buf, r.p);
    if buf[r.p] == NUL {
      RunEnd(buf, parent, r, t);
      RealLater(buf, t.tags, r);
      assert t.tags + [] == t.tags;
    } else {
      RunRound(buf, parent, r, t);
      EveryActNests(buf, parent, r, stack);
      match Act(buf, parent, r)
      case Stay(n, ts) =>
        NestAppend([], t.tags, ts);
        RealAppend(buf, parent, t.tags, r, n, ts);
        RunNests(buf, parent, n, Later(t, 0, [], ts), stack);
      case Advance(n, es, ts) =>
        NestAppend([], t.tags, ts);
        RealAppend(buf, parent, t.tags, r, n, ts);
        RunNests(buf, parent, n, Later(t, Tick(buf, n.p), es, ts), stack);
      case Descend(n) =>
        var child := Run(buf, Some(r.nodename), Start(r.p), t);
        var inner := [r.nodename] + stack;
        RunChild(buf, parent, r, t);
        RunNests(buf, Some(r.nodename), Start(r.p), t, inner);
        if child.Returned? {
          assert inner[1..] == stack;
          RunNests(buf, parent, Resume(r, child.p), Ticked(child.trace, Tick(buf, child.p + 1)), stack);
        }
      case Return(es) =>
        RealLater(buf, t.tags, r);
        assert t.tags + [] == t.tags;
      case Fail(e, at) =>
    }
  }

  lemma RealLater(buf: string, tags: seq<Tag>, r: Regs)
    requires r.Valid(buf) && Real(buf, tags, Limit(r))
    ensures Real(buf, tags, r.p + 1)
  {
  }

  /** A parse that ends without an exception ends at the terminator, and the tags it passed, which stand
      in the text in that order, are properly nested with nothing left open; the start tags among them
      are those of the elements reported and not done at once. */
  lemma ParsedTextIsNested(text: string)
    requires NoNul(text) && !ParseXml(text).Failed?
    ensures ParseXml(text).Finished?
    ensures Nest([], ParseXml(text).trace.tags) == Some([])
    ensures OpenNames(ParseXml(text).trace.tags) == Undone(ParseXml(text).trace.events)
    ensures Real(text + [NUL], ParseXml(text).trace.tags, |text| + 1)
  {
    var buf := text + [NUL];
    StartIsValid(buf, BomLength(text));
    RunNests(buf, None, Start(BomLength(text)), Trace(0, [], []), []);
    FinishesAtEnd(buf, None, Start(BomLength(text)), Trace(0, [], []));
    UndoneAreOpened(text);
  }

  lemma {:induction false} FinishesAtEnd(buf: string, parent: Option<string>, r: Regs, t: Trace)
    requires CString(buf) && r.Valid(buf)
    ensures Run(buf, parent, r, t).Finished? ==> Run(buf, parent, r, t).p == |buf| - 1
    decreases |buf| - r.p, r.Rank()
  {
    hide Run, Act, Regs.Valid, TagsOf, Regs.Rank;
    Bounds(buf, r);
    StartIsValid(buf, r.p);
    if buf[r.p] == NUL {
      RunEnd(buf, parent, r, t);
    } else {
      RunRound(buf, parent, r, t);
      match Act(buf, parent, r)
      case Stay(n, ts) => FinishesAtEnd(buf, parent, n, Later(t, 0, [], ts));
      case Advance(n, es, ts) => FinishesAtEnd(buf, parent, n, Later(t, Tick(buf, n.p), es, ts));
      case Descend(n) =>
        var child := Run(buf, Some(r.nodename), Start(r.p), t);
        RunChild(buf, parent, r, t);
        FinishesAtEnd(buf, Some(r.nodename), Start(r.p), t);
        if child.Returned? {
          FinishesAtEnd(buf, parent, Resume(r, child.p), Ticked(child.trace, Tick(buf, child.p + 1)));
        }
      case Return(es) =>
      case Fail(e, at) =>
    }
  }
}
