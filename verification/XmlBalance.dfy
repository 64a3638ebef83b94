/** Which elements a parse reports as done: exactly those without an end tag. */
module XmlBalance {
  import opened Optional
  import opened XmlMachine
  import opened XmlParser

  /** The names of the start tags that open an element with an end tag to come */
  function OpenNames(tags: seq<Tag>): seq<string> {
    if tags == [] then []
    else
      var tag := tags[|tags| - 1];
      OpenNames(tags[..|tags| - 1]) + if tag.Open? then [tag.name] else []
  }

  /** The names of the element callbacks that no done callback follows at once */
  function Undone(es: seq<Event>): seq<string> {
    if es == [] then []
    else
      var e, before := es[|es| - 1], es[..|es| - 1];
      if e.Done? && before != [] && before[|before| - 1].Xml? then Undone(before[..|before| - 1])
      else Undone(before) + if e.Xml? then [e.name] else []
  }

  /** Every done callback comes right after an element callback. */
  predicate DoneFollowsXml(es: seq<Event>) {
    forall i | 0 <= i < |es| && es[i].Done? :: i > 0 && es[i - 1].Xml?
  }

  function Elements(es: seq<Event>): nat {
    if es == [] then 0 else Elements(es[..|es| - 1]) + if es[|es| - 1].Xml? then 1 else 0
  }

  function Dones(es: seq<Event>): nat {
    if es == [] then 0 else Dones(es[..|es| - 1]) + if es[|es| - 1].Done? then 1 else 0
  }

  lemma {:induction false} CountUndone(es: seq<Event>)
    requires DoneFollowsXml(es)
    ensures Elements(es) == Dones(es) + |Undone(es)|
  {
    if es != [] {
      var before := es[..|es| - 1];
      if es[|es| - 1].Done? {
        CountUndone(before[..|before| - 1]);
      } else {
        CountUndone(before);
      }
    }
  }

  lemma OpenOne(tags: seq<Tag>, tag: Tag)
    ensures OpenNames(tags + [tag]) == OpenNames(tags) + if tag.Open? then [tag.name] else []
  {
    assert (tags + [tag])[..|tags|] == tags;
  }

  lemma UndoneOne(es: seq<Event>, e: Event)
    requires DoneFollowsXml(es) && !e.Done?
    ensures Undone(es + [e]) == (Undone(es) + if e.Xml? then [e.name] else []) && DoneFollowsXml(es + [e])
  {
    assert (es + [e])[..|es|] == es;
  }

  lemma UndoneDone(es: seq<Event>)
    requires DoneFollowsXml(es) && es != [] && es[|es| - 1].Xml?
    ensures Undone(es + [Done]) == Undone(es[..|es| - 1]) && DoneFollowsXml(es + [Done])
  {
    assert (es + [Done])[..|es|] == es;
  }

  ghost predicate Matched(t: Trace) {
    DoneFollowsXml(t.events) && Undone(t.events) == OpenNames(t.tags)
  }

  /** Only between the two characters of a self-closed end is an element reported and undecided. */
  ghost predicate MatchedAt(r: Regs, t: Trace) {
    if r.state.WAIT_END? then
      && DoneFollowsXml(t.events) && t.events != [] && t.events[|t.events| - 1].Xml?
      && Undone(t.events[..|t.events| - 1]) == OpenNames(t.tags)
    else Matched(t)
  }

  ghost predicate Neutral(es: seq<Event>) {
    es == [] || (|es| == 1 && !es[0].Xml? && !es[0].Done?)
  }

  ghost predicate ActMatches(r: Regs, a: Action) {
    match a
    case Stay(n, ts) => !r.state.WAIT_END? && !n.state.WAIT_END? && (ts == [] || (|ts| == 1 && ts[0].Close?))
    case Advance(n, es, ts) => Steps(r.state.WAIT_END?, n.state.WAIT_END?, es, ts)
    case Descend(n) => !r.state.WAIT_END?
    case Return(es) => !r.state.WAIT_END? && Neutral(es)
    case Fail(e, at) => true
  }

  ghost predicate Steps(undecided: bool, next: bool, es: seq<Event>, ts: seq<Tag>) {
    if undecided then es == [Done] && ts == [] && !next
    else if next then |es| == 1 && es[0].Xml? && ts == []
    else
      || (Neutral(es) && ts == [])
      || (|es| == 1 && es[0].Xml? && |ts| == 1 && ts[0].Open? && ts[0].name == es[0].name)
  }

  lemma DeclarationMatches(buf: string, r: Regs)
    requires CString(buf) && r.Valid(buf) && buf[r.p] != NUL && r.state.BEGIN_NODE?
    ensures ActMatches(r, Declaration(buf, r))
  {
  }

  lemma EveryActMatches(buf: string, parent: Option<string>, r: Regs)
    requires CString(buf) && r.Valid(buf) && buf[r.p] != NUL
    ensures ActMatches(r, Act(buf, parent, r))
  {
    if r.state.BEGIN_NODE? {
      hide Declaration;
      DeclarationMatches(buf, r);
    }
  }

  /** One round keeps the callbacks and the tags in step. */
  lemma StepMatches(r: Regs, n: Regs, t: Trace, ticks: nat, es: seq<Event>, ts: seq<Tag>)
    requires MatchedAt(r, t) && Steps(r.state.WAIT_END?, n.state.WAIT_END?, es, ts)
    ensures MatchedAt(n, Later(t, ticks, es, ts))
  {
    hide Undone, OpenNames, DoneFollowsXml;
    assert t.events + [] == t.events && t.tags + [] == t.tags;
    if r.state.WAIT_END? {
      UndoneDone(t.events);
    } else if es != [] {
      assert es == [es[0]];
      UndoneOne(t.events, es[0]);
      assert (t.events + es)[..|t.events|] == t.events;
      if ts != [] {
        assert ts == [ts[0]];
        OpenOne(t.tags, ts[0]);
      }
    }
  }

  lemma CloseMatches(t: Trace, ts: seq<Tag>)
    requires Matched(t) && (ts == [] || (|ts| == 1 && ts[0].Close?))
    ensures Matched(Later(t, 0, [], ts))
  {
    assert t.events + [] == t.events && t.tags + [] == t.tags;
    if ts != [] {
      assert ts == [ts[0]];
      OpenOne(t.tags, ts[0]);
    }
  }

  lemma NeutralMatches(t: Trace, es: seq<Event>)
    requires Matched(t) && Neutral(es)
    ensures Matched(Later(t, 0, es, []))
  {
    assert t.events + [] == t.events && t.tags + [] == t.tags;
    if es != [] {
      assert es == [es[0]];
      UndoneOne(t.events, es[0]);
    }
  }

  ghost predicate EndsMatched(o: Outcome) {
    o.Failed? || Matched(o.trace)
  }

  lemma EndMatches(buf: string, parent: Option<string>, r: Regs, t: Trace)
    requires CString(buf) && r.Valid(buf) && buf[r.p] == NUL && MatchedAt(r, t)
    ensures EndsMatched(AtEnd(buf, parent, r, t))
  {
    hide Matched;
    if parent.None? && r.state.BEGIN? {
      NeutralMatches(t, if r.nsubs == 0 then [PcData("")] else []);
    } else if parent.None? && r.state.PCDATA? {
      NeutralMatches(t, if r.p != r.start || r.nsubs == 0 then [PcData(buf[r.start..r.p])] else []);
    }
  }

  lemma {:induction false} RunMatches(buf: string, parent: Option<string>, r: Regs, t: Trace)
    requires CString(buf) && r.Valid(buf) && MatchedAt(r, t)
    ensures EndsMatched(Run(buf, parent, r, t))
    decreases |buf| - r.p, r.Rank()
  {
    hide Run, Act, Regs.Valid, TagsOf, CString, Regs.Rank, Matched, Steps, Neutral;
    Bounds(buf, r);
    StartIsValid(buf, r.p);
    if buf[r.p] == NUL {
      RunEnd(buf, parent, r, t);
      EndMatches(buf, parent, r, t);
    } else {
      RunRound(buf, parent, r, t);
      EveryActMatches(buf, parent, r);
      match Act(buf, parent, r)
      case Stay(n, ts) =>
        CloseMatches(t, ts);
        RunMatches(buf, parent, n, Later(t, 0, [], ts));
      case Advance(n, es, ts) =>
        StepMatches(r, n, t, Tick(buf, n.p), es, ts);
        RunMatches(buf, parent, n, Later(t, Tick(buf, n.p), es, ts));
      case Descend(n) =>
        var child := Run(buf, Some(r.nodename), Start(r.p), t);
        RunChild(buf, parent, r, t);
        RunMatches(buf, Some(r.nodename), Start(r.p), t);
        if child.Returned? {
          TicksMatch(child.trace, Tick(buf, child.p + 1));
          RunMatches(buf, parent, Resume(r, child.p), Ticked(child.trace, Tick(buf, child.p + 1)));
        }
      case Return(es) =>
        NeutralMatches(t, es);
      case Fail(e, at) =>
    }
  }

  lemma TicksMatch(t: Trace, ticks: nat)
    requires Matched(t)
    ensures Matched(Ticked(t, ticks))
  {
  }

  /** In every parse that ends normally the elements reported and not done at once are, in order, those
      whose start tag opened content, so that an end tag closed them. */
  lemma UndoneAreOpened(text: string)
    requires NoNul(text) && !ParseXml(text).Failed?
    ensures var t := ParseXml(text).trace;
            && DoneFollowsXml(t.events) && Undone(t.events) == OpenNames(t.tags)
            && Elements(t.events) == Dones(t.events) + |OpenNames(t.tags)|
            && (Elements(t.events) == Dones(t.events) <==> OpenNames(t.tags) == [])
  {
    var buf := text + [NUL];
    StartIsValid(buf, BomLength(text));
    RunMatches(buf, None, Start(BomLength(text)), Trace(0, [], []));
    CountUndone(ParseXml(text).trace.events);
  }
}
