/** Documents, how they can be laid out as text, and the callbacks a reader of them makes. */
module XmlDocument {
  import opened Optional
  import opened XmlMachine

  datatype Node =
    | Element(name: string, attrs: seq<(string, string)>, children: seq<Node>)
    | EmptyElement(name: string, attrs: seq<(string, string)>)
    | Text(text: string)
    | CDataSection(text: string)
    | CommentNode(text: string)
    | Header(text: string)
    | DocTypeNode(text: string)

  // ---------- characters and names ----------

  predicate Blank(c: char) {
    c == ' ' || c == '\t' || c == '\r' || c == '\n'
  }

  predicate Blanks(s: string) {
    forall i | 0 <= i < |s| :: Blank(s[i])
  }

  predicate Letter(c: char) {
    'a' <= c <= 'z' || 'A' <= c <= 'Z'
  }

  predicate NameChar(c: char) {
    Letter(c) || '0' <= c <= '9' || c == ':' || c == '.' || c == '_' || c == '-'
  }

  predicate IsName(s: string) {
    s != [] && forall i | 0 <= i < |s| :: NameChar(s[i])
  }

  /** Equal, or an upper case and a lower case letter that are 32 apart */
  predicate SameLetter(a: char, b: char) {
    a == b || (Letter(a) && Letter(b) && (a as int == b as int + 32 || b as int == a as int + 32))
  }

  predicate SameUpToCase(a: string, b: string) {
    |a| == |b| && forall i | 0 <= i < |a| :: SameLetter(a[i], b[i])
  }

  // ---------- which documents can be printed ----------

  /** No character of s, taken together with what follows, begins the terminator too early. */
  predicate FreeOf(s: string, terminator: string) {
    && NoNul(s)
    && forall i | 0 <= i < |s| :: !(terminator <= (s + terminator)[i..])
  }

  /** The bracket depth after a document type, unless a `>` ends it on the way. */
  function DocTypeDepth(depth: int, s: string): Option<int>
    decreases s
  {
    if s == [] then Some(depth)
    else if s[0] == '[' then DocTypeDepth(depth + 1, s[1..])
    else if s[0] == ']' then DocTypeDepth(depth - 1, s[1..])
    else if s[0] == '>' && depth == 0 then None
    else DocTypeDepth(depth, s[1..])
  }

  function AttrMap(attrs: seq<(string, string)>): map<string, string> {
    if attrs == [] then map[]
    else AttrMap(attrs[..|attrs| - 1])[attrs[|attrs| - 1].0 := attrs[|attrs| - 1].1]
  }

  predicate GoodAttrs(attrs: seq<(string, string)>) {
    && (forall i | 0 <= i < |attrs| :: IsName(attrs[i].0) && NoNul(attrs[i].1) && '"' !in attrs[i].1)
    && forall i, j | 0 <= i < j < |attrs| :: attrs[i].0 != attrs[j].0
  }

  predicate Good(n: Node)
    decreases n, 1
  {
    match n
    case Element(name, attrs, children) => IsName(name) && GoodAttrs(attrs) && GoodAll(children)
    case EmptyElement(name, attrs) => IsName(name) && GoodAttrs(attrs)
    case Text(s) => s != [] && NoNul(s) && '<' !in s
    case CDataSection(s) => FreeOf(s, "]]>")
    case CommentNode(s) => FreeOf(s, "-->")
    case Header(s) => FreeOf(s, "?>")
    case DocTypeNode(s) => NoNul(s) && DocTypeDepth(0, s) == Some(0)
  }

  /** All nodes are good, and no two texts stand side by side. */
  predicate GoodAll(ns: seq<Node>)
    decreases ns, 0
  {
    ns != [] ==>
      && Good(ns[0]) && GoodAll(ns[1..])
      && (ns[0].Text? && |ns| > 1 ==> !ns[1].Text?)
  }

  // ---------- printing ----------

  function PrintAttr(a: (string, string)): string {
    " " + a.0 + "=\"" + a.1 + "\""
  }

  function PrintAttrs(attrs: seq<(string, string)>): string {
    if attrs == [] then "" else PrintAttr(attrs[0]) + PrintAttrs(attrs[1..])
  }

  function Print(n: Node): string
    decreases n, 1
  {
    match n
    case Element(name, attrs, children) =>
      "<" + name + PrintAttrs(attrs) + ">" + PrintAll(children) + "</" + name + ">"
    case EmptyElement(name, attrs) => "<" + name + PrintAttrs(attrs) + "/>"
    case Text(s) => s
    case CDataSection(s) => "<![CDATA[" + s + "]]>"
    case CommentNode(s) => "<!--" + s + "-->"
    case Header(s) => "<?" + s + "?>"
    case DocTypeNode(s) => "<!DOCTYPE" + s + ">"
  }

  function PrintAll(ns: seq<Node>): string
    decreases ns, 0
  {
    if ns == [] then "" else Print(ns[0]) + PrintAll(ns[1..])
  }

  // ---------- laying out ----------

  /** An attribute with the blanks around its parts and the quotes it is written in */
  datatype Attribute = Attribute(gap: string, name: string, before: string, after: string, quote: char, value: string)

  /** A node as it stands in a text: blanks may follow every `<`, and in tags the names and values; an end
      tag and the words of a section or document type may be written in either case. */
  datatype Item =
    | Paired(lead: string, name: string, attrs: seq<Attribute>, trail: string, content: seq<Item>,
             endLead: string, endName: string, endTrail: string)
    | SelfClosed(lead: string, name: string, attrs: seq<Attribute>, trail: string)
    | Words(text: string)
    | Section(lead: string, word: string, text: string)
    | Remark(lead: string, text: string)
    | Instruction(lead: string, text: string)
    | TypeSection(lead: string, word: string, text: string)

  predicate WellAttribute(a: Attribute) {
    && Blanks(a.gap) && IsName(a.name) && Blanks(a.before) && Blanks(a.after)
    && (a.quote == '"' || a.quote == '\'') && a.quote !in a.value && NoNul(a.value)
  }

  /** A blank stands before the first attribute, and no name comes twice. */
  predicate WellAttributes(attrs: seq<Attribute>) {
    && (forall i | 0 <= i < |attrs| :: WellAttribute(attrs[i]))
    && (attrs != [] ==> attrs[0].gap != "")
    && forall i, j | 0 <= i < j < |attrs| :: attrs[i].name != attrs[j].name
  }

  predicate WellTag(lead: string, name: string, attrs: seq<Attribute>, trail: string) {
    Blanks(lead) && IsName(name) && WellAttributes(attrs) && Blanks(trail)
  }

  predicate WellEnd(name: string, lead: string, endName: string, trail: string) {
    Blanks(lead) && SameUpToCase(name, endName) && Blanks(trail)
  }

  predicate Well(item: Item)
    decreases item, 1
  {
    match item
    case Paired(lead, name, attrs, trail, content, endLead, endName, endTrail) =>
      WellTag(lead, name, attrs, trail) && WellAll(content) && WellEnd(name, endLead, endName, endTrail)
    case SelfClosed(lead, name, attrs, trail) => WellTag(lead, name, attrs, trail)
    case Words(s) => s != [] && NoNul(s) && '<' !in s
    case Section(lead, word, s) => Blanks(lead) && SameUpToCase("CDATA", word) && FreeOf(s, "]]>")
    case Remark(lead, s) => Blanks(lead) && FreeOf(s, "-->")
    case Instruction(lead, s) => Blanks(lead) && FreeOf(s, "?>")
    case TypeSection(lead, word, s) =>
      Blanks(lead) && SameUpToCase("DOCTYPE", word) && NoNul(s) && DocTypeDepth(0, s) == Some(0)
  }

  predicate WellAll(items: seq<Item>)
    decreases items, 0
  {
    items != [] ==>
      && Well(items[0]) && WellAll(items[1..])
      && (items[0].Words? && |items| > 1 ==> !items[1].Words?)
  }

  predicate EndsInWords(items: seq<Item>) {
    items != [] && items[|items| - 1].Words?
  }

  function ShowAttribute(a: Attribute): string {
    a.gap + a.name + a.before + "=" + a.after + [a.quote] + a.value + [a.quote]
  }

  function ShowAttributes(attrs: seq<Attribute>): string {
    if attrs == [] then "" else ShowAttribute(attrs[0]) + ShowAttributes(attrs[1..])
  }

  /** A start tag without what ends it */
  function ShowTag(lead: string, name: string, attrs: seq<Attribute>, trail: string): string {
    "<" + lead + name + ShowAttributes(attrs) + trail
  }

  function ShowEnd(lead: string, name: string, trail: string): string {
    "<" + lead + "/" + name + trail + ">"
  }

  function Show(item: Item): string
    decreases item, 1
  {
    match item
    case Paired(lead, name, attrs, trail, content, endLead, endName, endTrail) =>
      ShowTag(lead, name, attrs, trail) + ">" + ShowAll(content) + ShowEnd(endLead, endName, endTrail)
    case SelfClosed(lead, name, attrs, trail) => ShowTag(lead, name, attrs, trail) + "/>"
    case Words(s) => s
    case Section(lead, word, s) => "<" + lead + "![" + word + "[" + s + "]]>"
    case Remark(lead, s) => "<" + lead + "!--" + s + "-->"
    case Instruction(lead, s) => "<" + lead + "?" + s + "?>"
    case TypeSection(lead, word, s) => "<" + lead + "!" + word + s + ">"
  }

  function ShowAll(items: seq<Item>): string
    decreases items, 0
  {
    if items == [] then "" else Show(items[0]) + ShowAll(items[1..])
  }

  function Pairs(attrs: seq<Attribute>): seq<(string, string)> {
    seq(|attrs|, i requires 0 <= i < |attrs| => (attrs[i].name, attrs[i].value))
  }

  /** The node that an item lays out */
  function NodeOf(item: Item): Node
    decreases item, 1
  {
    match item
    case Paired(_, name, attrs, _, content, _, _, _) => Element(name, Pairs(attrs), NodesOf(content))
    case SelfClosed(_, name, attrs, _) => EmptyElement(name, Pairs(attrs))
    case Words(s) => Text(s)
    case Section(_, _, s) => CDataSection(s)
    case Remark(_, s) => CommentNode(s)
    case Instruction(_, s) => Header(s)
    case TypeSection(_, _, s) => DocTypeNode(s)
  }

  function NodesOf(items: seq<Item>): seq<Node>
    decreases items, 0
  {
    if items == [] then [] else [NodeOf(items[0])] + NodesOf(items[1..])
  }

  /** Some layout of the document is the text. */
  ghost predicate Prints(doc: seq<Node>, text: string) {
    exists items :: WellAll(items) && NodesOf(items) == doc && ShowAll(items) == text
  }

  const MARK: string := "\U{EF}\U{BB}\U{BF}"

  /** The text behind a byte order mark, if there is one */
  function Body(text: string): string {
    if MARK <= text then text[|MARK|..] else text
  }

  // ---------- the callbacks ----------

  /** The nodes that count as content: comments, headers and document types do not. */
  function Subs(ns: seq<Node>): nat {
    if ns == [] then 0
    else (if ns[0].CommentNode? || ns[0].Header? || ns[0].DocTypeNode? then 0 else 1) + Subs(ns[1..])
  }

  /** What a reader reports of a node. An element without content reports an empty text; only an
      element printed as empty reports done. */
  function Events(n: Node): seq<Event>
    decreases n, 1
  {
    match n
    case Element(name, attrs, children) => [Xml(name, AttrMap(attrs))] + ContentEvents(children)
    case EmptyElement(name, attrs) => [Xml(name, AttrMap(attrs)), Done]
    case Text(s) => [PcData(s)]
    case CDataSection(s) => [CDataText(s)]
    case CommentNode(s) => [Comment(s)]
    case Header(s) => [Comment("?" + s + "?")]
    case DocTypeNode(s) => [DocType(s)]
  }

  function AllEvents(ns: seq<Node>): seq<Event>
    decreases ns, 0
  {
    if ns == [] then [] else Events(ns[0]) + AllEvents(ns[1..])
  }

  function ContentEvents(ns: seq<Node>): seq<Event>
    decreases ns, 1
  {
    AllEvents(ns) + if Subs(ns) == 0 then [PcData("")] else []
  }

  // ---------- what the callbacks say ----------

  /** Elements, text and CDATA sections are content. */
  lemma {:induction false} SubsAreContent(ns: seq<Node>)
    ensures Subs(ns) > 0 <==>
            exists i :: 0 <= i < |ns| && (ns[i].Element? || ns[i].EmptyElement? || ns[i].Text? || ns[i].CDataSection?)
  {
    if ns != [] {
      SubsAreContent(ns[1..]);
      assert forall i | 0 <= i < |ns| :: ns[i] == if i == 0 then ns[0] else ns[1..][i - 1];
    }
  }

  /** The attributes reported are those written. */
  lemma {:induction false} AttrMapKeys(attrs: seq<(string, string)>)
    ensures forall k | k in AttrMap(attrs) :: exists i :: 0 <= i < |attrs| && attrs[i].0 == k
    ensures forall i | 0 <= i < |attrs| :: attrs[i].0 in AttrMap(attrs)
  {
    if attrs != [] {
      var init := attrs[..|attrs| - 1];
      AttrMapKeys(init);
      assert forall i | 0 <= i < |init| :: attrs[i] == init[i];
      forall k | k in AttrMap(attrs)
        ensures exists i :: 0 <= i < |attrs| && attrs[i].0 == k
      {
        if k in AttrMap(init) {
          var i :| 0 <= i < |init| && init[i].0 == k;
          assert attrs[i].0 == k;
        } else {
          assert attrs[|attrs| - 1].0 == k;
        }
      }
    }
  }

  /** Attributes of different names have the values written. */
  lemma {:induction false} AttrMapValues(attrs: seq<(string, string)>)
    requires forall i, j | 0 <= i < j < |attrs| :: attrs[i].0 != attrs[j].0
    ensures forall i | 0 <= i < |attrs| :: attrs[i].0 in AttrMap(attrs) && AttrMap(attrs)[attrs[i].0] == attrs[i].1
  {
    if attrs != [] {
      var init := attrs[..|attrs| - 1];
      AttrMapValues(init);
      assert forall i | 0 <= i < |init| :: attrs[i] == init[i];
    }
  }
}
