/** The ways in which a text can go wrong, and the exception for each. */
module XmlMistakes {
  import opened Optional
  import opened XmlMachine
  import opened XmlDocument

  function First(s: string): char {
    if s == "" then NUL else s[0]
  }

  /** Neither a blank, nor a character of a name, nor the end */
  predicate Odd(c: char) {
    c != NUL && !Blank(c) && !NameChar(c)
  }

  /** The character ends a name that stands before it. */
  predicate EndsName(c: char) {
    c != NUL && !NameChar(c)
  }

  /** A start tag without what ends it */
  datatype Head = Head(lead: string, name: string, attrs: seq<Attribute>, trail: string)
  {
    predicate Valid() {
      WellTag(lead, name, attrs, trail)
    }

    function Text(): string {
      ShowTag(lead, name, attrs, trail)
    }

    /** Another attribute may follow without a blank of its own. */
    predicate TakesName() {
      trail != "" || attrs != []
    }
  }

  predicate HasName(attrs: seq<Attribute>, name: string) {
    exists i :: 0 <= i < |attrs| && attrs[i].name == name
  }

  /** What has been read of one more attribute when the mistake shows */
  datatype Slip =
    | NoAttribute
    | Repeated(name: string)
    | NoEquals(name: string, before: string)
    | NoQuote(name: string, before: string, behind: string)
  {
    function Text(): string {
      match this
      case NoAttribute => ""
      case Repeated(name) => name
      case NoEquals(name, before) => name + before
      case NoQuote(name, before, behind) => name + before + "=" + behind
    }

    /** It is a mistake after those attributes, with that character next. */
    predicate Follows(attrs: seq<Attribute>, takesName: bool, c: char) {
      match this
      case NoAttribute => Odd(c) && c != '/' && c != '>'
      case Repeated(name) => IsName(name) && HasName(attrs, name) && EndsName(c)
      case NoEquals(name, before) =>
        && takesName && IsName(name) && !HasName(attrs, name) && Blanks(before)
        && c != NUL && c != '=' && !Blank(c) && (before == "" ==> !NameChar(c))
      case NoQuote(name, before, behind) =>
        && takesName && IsName(name) && !HasName(attrs, name) && Blanks(before) && Blanks(behind)
        && c != NUL && c != '"' && c != '\'' && !Blank(c)
    }
  }

  /** An element that is open, with what stands before it in the element around it */
  datatype Opened = Opened(before: seq<Item>, head: Head)

  predicate WellPath(path: seq<Opened>) {
    forall i | 0 <= i < |path| :: WellAll(path[i].before) && path[i].head.Valid()
  }

  function ShowPath(path: seq<Opened>): string {
    if path == [] then ""
    else ShowAll(path[0].before) + path[0].head.Text() + ">" + ShowPath(path[1..])
  }

  /** The name of the element that is to be closed next */
  function Innermost(path: seq<Opened>, parent: Option<string>): Option<string> {
    if path == [] then parent else Some(path[|path| - 1].head.name)
  }

  /** What has been read when the mistake shows */
  datatype Mistake =
    | OpenAtEnd(words: string)
    | NotCData(lead: string)
    | NotDocType(lead: string)
    | NotComment(lead: string)
    | NotNode(lead: string)
    | StrayEnd(lead: string)
    | NoEndName(lead: string)
    | OtherEnd(lead: string, name: string)
    | LateEnd(lead: string, gap: string, name: string)
    | EndNotClosed(lead: string, name: string, trail: string)
    | InTag(head: Head, slip: Slip)
    | NotSelfClosed(head: Head)

  function ShowMistake(m: Mistake): string {
    match m
    case OpenAtEnd(words) => words
    case NotCData(lead) => "<" + lead + "!["
    case NotDocType(lead) => "<" + lead + "!"
    case NotComment(lead) => "<" + lead + "!"
    case NotNode(lead) => "<" + lead
    case StrayEnd(lead) => "<" + lead
    case NoEndName(lead) => "<" + lead + "/"
    case OtherEnd(lead, name) => "<" + lead + "/" + name
    case LateEnd(lead, gap, name) => "<" + lead + "/" + gap + name
    case EndNotClosed(lead, name, trail) => "<" + lead + "/" + name + trail
    case InTag(head, slip) => head.Text() + slip.Text()
    case NotSelfClosed(head) => head.Text() + "/"
  }

  /** What follows makes it a mistake, in an element of the given name or outside all. */
  predicate IsMistake(m: Mistake, inner: Option<string>, after: string) {
    var c := First(after);
    match m
    case OpenAtEnd(words) => inner.Some? && after == "" && NoNul(words) && '<' !in words
    case NotCData(lead) =>
      Blanks(lead) && !(|after| >= 6 && SameUpToCase("CDATA", after[..5]) && after[5] == '[')
    case NotDocType(lead) =>
      Blanks(lead) && (c == 'D' || c == 'd') && !(|after| >= 7 && SameUpToCase("DOCTYPE", after[..7]))
    case NotComment(lead) => Blanks(lead) && c != '[' && c != 'D' && c != 'd' && !("--" <= after)
    case NotNode(lead) => Blanks(lead) && Odd(c) && c != '!' && c != '?' && c != '/'
    case StrayEnd(lead) => Blanks(lead) && c == '/' && inner.None?
    case NoEndName(lead) => Blanks(lead) && inner.Some? && Odd(c)
    case OtherEnd(lead, name) =>
      Blanks(lead) && inner.Some? && IsName(name) && !SameUpToCase(inner.value, name) && EndsName(c)
    case LateEnd(lead, gap, name) =>
      && Blanks(lead) && inner.Some? && gap != "" && Blanks(gap)
      && if name == "" then Odd(c) else IsName(name) && EndsName(c)
    case EndNotClosed(lead, name, trail) =>
      && Blanks(lead) && inner.Some? && SameUpToCase(inner.value, name) && Blanks(trail)
      && c != NUL && c != '>' && !Blank(c) && (trail == "" ==> !NameChar(c))
    case InTag(head, slip) => head.Valid() && slip.Follows(head.attrs, head.TakesName(), c)
    case NotSelfClosed(head) => head.Valid() && c != NUL && c != '>'
  }

  function ErrorOf(m: Mistake, inner: Option<string>): Error {
    match m
    case OpenAtEnd(_) => UnexpectedEnd
    case NotCData(_) => ExpectedCData
    case NotDocType(_) => ExpectedDocType
    case NotComment(_) => ExpectedComment
    case NotNode(_) => ExpectedNodeName
    case StrayEnd(_) => ExpectedNodeName
    case NoEndName(_) => ExpectedNodeName
    case OtherEnd(_, _) => ExpectedClose(if inner.Some? then inner.value else "")
    case LateEnd(_, _, _) => ExpectedClose(if inner.Some? then inner.value else "")
    case EndNotClosed(_, _, _) => ExpectedGreater
    case InTag(_, slip) =>
      if slip.NoAttribute? then ExpectedAttributeName
      else if slip.Repeated? then DuplicateAttribute
      else if slip.NoEquals? then ExpectedEquals
      else ExpectedQuote
    case NotSelfClosed(_) => ExpectedGreater
  }

  /** The exception points behind what was read, for two of the declarations at their exclamation mark. */
  function ErrorAt(m: Mistake): nat {
    if m.NotDocType? || m.NotComment? then |ShowMistake(m)| - 1 else |ShowMistake(m)|
  }

  /** Where a mistake stands: behind a path of open elements, and the items in the innermost of them */
  datatype Wrong = Wrong(path: seq<Opened>, items: seq<Item>, mistake: Mistake)

  /** The text is laid out well up to that mistake, and goes on with `after`. */
  ghost predicate GoesWrong(w: Wrong, after: string, text: string) {
    && WellPath(w.path) && WellAll(w.items) && IsMistake(w.mistake, Innermost(w.path, None), after)
    && (w.mistake.OpenAtEnd? ==> !EndsInWords(w.items))
    && text == ShowPath(w.path) + ShowAll(w.items) + ShowMistake(w.mistake) + after
  }
}
