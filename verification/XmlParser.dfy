/** Whole runs of do_parse_xml, and the method itself. */
module XmlParser {
  import opened Optional
  import opened XmlMachine

  /** What an activation shares with its callers: the line counter, the calls made, the tags passed. */
  datatype Trace = Trace(line: nat, events: seq<Event>, tags: seq<Tag>)

  /** How an activation ends: at its closing tag, at the end of the text, or by an exception. */
  datatype Outcome =
    | Returned(p: nat, trace: Trace)
    | Finished(p: nat, trace: Trace)
    | Failed(p: nat, trace: Trace, error: Error)

  function Start(p: nat): Regs {
    Regs(BEGIN, BEGIN, p, 0, 0, 0, "", "", 0, map[])
  }

  /** The newline counted on arriving at position q. */
  function Tick(buf: string, q: nat): nat
    requires q < |buf|
  {
    if buf[q] == '\n' then 1 else 0
  }

  function Later(t: Trace, ticks: nat, es: seq<Event>, ts: seq<Tag>): Trace {
    Trace(t.line + ticks, t.events + es, t.tags + ts)
  }

  function Ticked(t: Trace, ticks: nat): Trace {
    t.(line := t.line + ticks)
  }

  function AtEnd(buf: string, parent: Option<string>, r: Regs, t: Trace): Outcome
    requires CString(buf) && r.Valid(buf) && buf[r.p] == NUL
  {
    if parent.None? && r.state == BEGIN then
      Finished(r.p, Later(t, 0, if r.nsubs == 0 then [PcData("")] else [], []))
    else if parent.None? && r.state == PCDATA then
      Finished(r.p, Later(t, 0, if r.p != r.start || r.nsubs == 0 then [PcData(buf[r.start..r.p])] else [], []))
    else Failed(r.p, t, UnexpectedEnd)
  }

  /** The run of one activation from given registers, down to its end. */
  function Run(buf: string, parent: Option<string>, r: Regs, t: Trace): (o: Outcome)
    requires CString(buf) && r.Valid(buf)
    ensures o.Returned? ==> r.p <= o.p < |buf| && buf[o.p] == '>'
    decreases |buf| - r.p, r.Rank()
  {
    if buf[r.p] == NUL then AtEnd(buf, parent, r, t)
    else
      ActProgress(buf, parent, r);
      match Act(buf, parent, r)
      case Stay(n, ts) => Run(buf, parent, n, Later(t, 0, [], ts))
      case Advance(n, es, ts) => Run(buf, parent, n, Later(t, Tick(buf, n.p), es, ts))
      case Descend(n) =>
        var child := Run(buf, Some(n.nodename), Start(n.p), t);
        if child.Returned? then
          Run(buf, parent, Resume(n, child.p), Ticked(child.trace, Tick(buf, child.p + 1)))
        else child
      case Return(es) => Returned(r.p, Later(t, 0, es, []))
      case Fail(e, at) => Failed(at, t, e)
  }

  /** The registers of an activation whose child returned at q. */
  function Resume(r: Regs, q: nat): Regs {
    r.(start := q, state := BEGIN, p := q + 1)
  }

  function BomLength(text: string): nat {
    if |text| >= 3 && text[0] == '\U{EF}' && text[1] == '\U{BB}' && text[2] == '\U{BF}' then 3 else 0
  }

  /** parse_xml on a C string */
  function ParseXml(text: string): Outcome
    requires NoNul(text)
  {
    Run(text + [NUL], None, Start(BomLength(text)), Trace(0, [], []))
  }

  // ---------- the method ----------

  lemma Bounds(buf: string, r: Regs)
    requires r.Valid(buf)
    ensures r.p < |buf| && (r.state == CHILDS ==> r.Rank() == 2)
  {
  }

  lemma StartIsValid(buf: string, p: nat)
    requires p < |buf|
    ensures Start(p).Valid(buf) && Start(p).Rank() == 1
  {
  }

  /** The run from r continues as the action of its first round says. */
  ghost predicate Continues(buf: string, parent: Option<string>, r: Regs, t: Trace, a: Action)
    requires CString(buf) && r.Valid(buf)
  {
    match a
    case Stay(n, ts) =>
      n.Valid(buf) && n.p < |buf| && n.state != CHILDS
      && Run(buf, parent, r, t) == Run(buf, parent, n, Later(t, 0, [], ts))
    case Advance(n, es, ts) =>
      n.Valid(buf) && n.p < |buf|
      && Run(buf, parent, r, t) == Run(buf, parent, n, Later(t, Tick(buf, n.p), es, ts))
    case Return(es) => Run(buf, parent, r, t) == Returned(r.p, Later(t, 0, es, []))
    case Fail(e, at) => Run(buf, parent, r, t) == Failed(at, t, e)
    case Descend(n) => n == r && r.state == CHILDS
  }

  lemma RunRound(buf: string, parent: Option<string>, r: Regs, t: Trace)
    requires CString(buf) && r.Valid(buf) && buf[r.p] != NUL
    ensures Progress(buf, parent, r, Act(buf, parent, r))
    ensures Continues(buf, parent, r, t, Act(buf, parent, r))
  {
    ActProgress(buf, parent, r);
  }

  lemma RunChild(buf: string, parent: Option<string>, r: Regs, t: Trace)
    requires CString(buf) && r.Valid(buf) && buf[r.p] != NUL && Act(buf, parent, r).Descend?
    ensures var child := Run(buf, Some(r.nodename), Start(r.p), t);
            Run(buf, parent, r, t) ==
            if child.Returned? then
              Run(buf, parent, Resume(r, child.p), Ticked(child.trace, Tick(buf, child.p + 1)))
            else child
    ensures forall q: nat | q < |buf| && buf[q] == '>' :: q + 1 < |buf| && Resume(r, q).Valid(buf)
  {
    ActProgress(buf, parent, r);
  }

  lemma RunEnd(buf: string, parent: Option<string>, r: Regs, t: Trace)
    requires CString(buf) && r.Valid(buf) && buf[r.p] == NUL
    ensures Run(buf, parent, r, t) == AtEnd(buf, parent, r, t)
  {
  }

  datatype Exit = AtCloseTag | AtText(p: nat) | Threw(p: nat, error: Error)

  /** What the activations share through pointers: the position handed back, the line, the callbacks. */
  class Session {
    const buf: string
    var lp: nat
    var line: nat
    var events: seq<Event>
    var tags: seq<Tag>

    constructor (buf: string, lp: nat)
      ensures this.buf == buf && this.lp == lp && Shared() == Trace(0, [], [])
    {
      this.buf, this.lp := buf, lp;
      line, events, tags := 0, [], [];
    }

    ghost function Shared(): Trace
      reads `line, `events, `tags
    {
      Trace(line, events, tags)
    }

    ghost function Ended(exit: Exit): Outcome
      reads this
    {
      match exit
      case AtCloseTag => Returned(lp, Shared())
      case AtText(p) => Finished(p, Shared())
      case Threw(p, e) => Failed(p, Shared(), e)
    }

    method Log(es: seq<Event>, ts: seq<Tag>)
      modifies `events, `tags
      ensures Shared() == Later(old(Shared()), 0, es, ts)
    {
      events := events + es;
      tags := tags + ts;
    }

    method CountLine(p: nat)
      requires p < |buf|
      modifies `line
      ensures Shared() == Ticked(old(Shared()), Tick(buf, p))
    {
      if buf[p] == '\n' { line := line + 1; }
    }

    /** do_parse_xml: the loop over the registers, with a recursive call for the children of an element. */
    method DoParseXml(parent: Option<string>) returns (exit: Exit)
      requires CString(buf) && lp < |buf|
      modifies this
      ensures Ended(exit) == Run(buf, parent, Start(old(lp)), old(Shared()))
      decreases |buf| - lp
    {
      hide Act, Regs.Rank, TagsOf, Run, Progress;
      var r := Start(lp);
      while buf[r.p] != NUL
        invariant r.Valid(buf) && r.p < |buf| && old(lp) <= r.p && (r.state == CHILDS ==> old(lp) < r.p)
        invariant Run(buf, parent, r, Shared()) == Run(buf, parent, Start(old(lp)), old(Shared()))
        decreases |buf| - r.p, r.Rank()
      {
        RunRound(buf, parent, r, Shared());
        ghost var was := Shared();
        match Act(buf, parent, r)
        case Stay(n, ts) =>
          Log([], ts);
          r := n;
        case Advance(n, es, ts) =>
          Log(es, ts);
          r := n;
          CountLine(r.p);
          assert Shared() == Later(was, Tick(buf, r.p), es, ts);
        case Descend(n) =>
          RunChild(buf, parent, r, Shared());
          lp := r.p;
          exit := DoParseXml(Some(r.nodename));
          if exit != AtCloseTag { return; }
          r := Resume(r, lp);
          CountLine(r.p);
        case Return(es) =>
          Log(es, []);
          lp := r.p;
          return AtCloseTag;
        case Fail(e, at) =>
          return Threw(at, e);
      }
      RunEnd(buf, parent, r, Shared());
      exit := Finish(parent, r);
    }

    /** What follows the loop: the text that runs up to the terminator, or an unexpected end. */
    method Finish(parent: Option<string>, regs: Regs) returns (exit: Exit)
      requires CString(buf) && regs.Valid(buf) && buf[regs.p] == NUL
      modifies this
      ensures lp == old(lp) && Ended(exit) == AtEnd(buf, parent, regs, old(Shared()))
    {
      var r := regs;
      if r.state == BEGIN {
        r := r.(start := r.p, state := PCDATA);
      }
      if parent.None? && r.state == PCDATA {
        assert buf[r.p..r.p] == "";
        if r.p != r.start || r.nsubs == 0 {
          Log([PcData(buf[r.start..r.p])], []);
        } else {
          Log([], []);
        }
        return AtText(r.p);
      }
      return Threw(r.p, UnexpectedEnd);
    }
  }

  /** parse_xml */
  method ParseXmlText(text: string) returns (session: Session, exit: Exit)
    requires NoNul(text)
    ensures session.Ended(exit) == ParseXml(text)
  {
    session := new Session(text + [NUL], BomLength(text));
    exit := session.DoParseXml(None);
  }
}
