/** Quoting arguments for Windows as libs/extc/process_stubs.c does it, against the rules by which the
    Microsoft C run time takes a command line apart. */
module WindowsCommandLine {
  import opened ChunkBuffer

  function Slashes(n: nat): (s: string)
    ensures |s| == n
  {
    seq(n, _ => '\\')
  }

  // ---------- writing ----------

  /** What is written for the rest of an argument when `pending` backslashes are held back. */
  function Quoted(s: string, pending: nat): string
    decreases s
  {
    if s == [] then Slashes(2 * pending) + "\""
    else if s[0] == '"' then Slashes(2 * pending) + "\\\"" + Quoted(s[1..], 0)
    else if s[0] == '\\' then Quoted(s[1..], pending + 1)
    else Slashes(pending) + [s[0]] + Quoted(s[1..], 0)
  }

  /** Backslashes at the start of s */
  function Run(s: string): (n: nat)
    ensures n <= |s| && forall i | 0 <= i < n :: s[i] == '\\'
    ensures n < |s| ==> s[n] != '\\'
  {
    if s == [] || s[0] != '\\' then 0 else 1 + Run(s[1..])
  }

  /** The characters that quoting doubles: a quote, and a backslash whose run ends at a quote or at the end */
  function Escapes(s: string): nat {
    if s == [] then 0
    else
      (if s[0] == '"' || (s[0] == '\\' && (Run(s) == |s| || s[Run(s)] == '"')) then 1 else 0) + Escapes(s[1..])
  }

  /** Nothing but those characters and the closing quote is added. */
  lemma {:induction false} QuotedLength(s: string, pending: nat)
    ensures |Quoted(s, pending)|
         == |s| + Escapes(s) + 1 + if Run(s) == |s| || s[Run(s)] == '"' then 2 * pending else pending
    decreases s
  {
    if s != [] {
      QuotedLength(s[1..], if s[0] == '\\' then pending + 1 else 0);
    }
  }

  function QuotedArgs(args: seq<string>): string {
    if args == [] then [] else " \"" + Quoted(args[0], 0) + QuotedArgs(args[1..])
  }

  function CommandLine(cmd: string, args: seq<string>): string {
    "\"" + CStr(cmd) + "\"" + QuotedArgs(args)
  }

  function QuotedLengths(args: seq<string>): nat {
    if args == [] then 0 else 3 + |args[0]| + Escapes(args[0]) + QuotedLengths(args[1..])
  }

  /** The command takes two quotes, every argument a blank, two quotes and its escapes. */
  lemma {:induction false} CommandLineLength(cmd: string, args: seq<string>)
    ensures |CommandLine(cmd, args)| == |CStr(cmd)| + 2 + QuotedLengths(args)
  {
    hide Quoted, Escapes;
    if args != [] {
      QuotedLength(args[0], 0);
      CommandLineLength(cmd, args[1..]);
    }
  }

  method AppendSlashes(b: Buffer, n: nat)
    requires b.Valid()
    modifies b.Repr()
    ensures b.Valid() && b.Contents() == old(b.Contents()) + Slashes(n) && fresh(b.Repr() - old(b.Repr()))
  {
    var k := 0;
    while k < n
      invariant k <= n && b.Valid() && fresh(b.Repr() - old(b.Repr()))
      invariant b.Contents() == old(b.Contents()) + Slashes(k)
    {
      b.AppendChar('\\');
      k := k + 1;
      MoreSlashes(old(b.Contents()), k);
    }
  }

  lemma MoreSlashes(s: string, k: nat)
    requires k > 0
    ensures s + Slashes(k - 1) + ['\\'] == s + Slashes(k)
  {
  }

  /** The loop over the characters of one argument, with the opening quote already written. */
  method AppendQuoted(b: Buffer, arg: string)
    requires b.Valid()
    modifies b.Repr()
    ensures b.Valid() && b.Contents() == old(b.Contents()) + Quoted(arg, 0) && fresh(b.Repr() - old(b.Repr()))
  {
    hide StringItem.Valid, StringItem.Text, StringItem.Full, Buffer.Contents, Buffer.Valid, CStr;
    CStrCuts("\\\"");
    var bsCount: nat, j := 0, 0;
    ghost var whole := b.Contents() + Quoted(arg, 0);
    while j < |arg|
      invariant j <= |arg| && b.Valid() && fresh(b.Repr() - old(b.Repr()))
      invariant b.Contents() + Quoted(arg[j..], bsCount) == whole
    {
      ghost var was := b.Contents();
      assert arg[j..][0] == arg[j] && arg[j..][1..] == arg[j + 1..];
      if arg[j] == '"' {
        AppendSlashes(b, bsCount * 2);
        b.AppendStr("\\\"");
        Regroup(was, Slashes(2 * bsCount), "\\\"", Quoted(arg[j + 1..], 0));
        bsCount := 0;
      } else if arg[j] == '\\' {
        bsCount := bsCount + 1;
      } else {
        AppendSlashes(b, bsCount);
        b.AppendChar(arg[j]);
        Regroup(was, Slashes(bsCount), [arg[j]], Quoted(arg[j + 1..], 0));
        bsCount := 0;
      }
      j := j + 1;
    }
    AppendSlashes(b, bsCount * 2);
    b.AppendChar('"');
  }

  lemma Regroup(a: string, b: string, c: string, d: string)
    ensures a + b + c + d == a + (b + c + d)
  {
  }

  /** What a C function sees of a string: all of it exactly if it holds no terminator. */
  lemma {:induction false} CStrCuts(s: string)
    ensures CStr(s) <= s && NUL !in CStr(s)
    ensures |CStr(s)| < |s| ==> s[|CStr(s)|] == NUL
    ensures CStr(s) == s <==> NUL !in s
  {
    if s != [] && s[0] != NUL {
      CStrCuts(s[1..]);
    }
  }

  method AppendArgument(b: Buffer, arg: string)
    requires b.Valid()
    modifies b.Repr()
    ensures b.Valid() && fresh(b.Repr() - old(b.Repr()))
    ensures b.Contents() == old(b.Contents()) + (" \"" + Quoted(arg, 0))
  {
    hide Buffer.Contents, Buffer.Valid, CStr, Quoted;
    ghost var was := b.Contents();
    CStrCuts(" \"");
    b.AppendStr(" \"");
    AppendQuoted(b, arg);
    assert was + " \"" + Quoted(arg, 0) == was + (" \"" + Quoted(arg, 0));
  }

  lemma NoArgs()
    ensures QuotedArgs([]) == []
  {
  }

  lemma QuotedArgsFrom(args: seq<string>, i: nat)
    requires i < |args|
    ensures QuotedArgs(args[i..]) == " \"" + Quoted(args[i], 0) + QuotedArgs(args[i + 1..])
  {
    hide Quoted;
    assert args[i..][0] == args[i] && args[i..][1..] == args[i + 1..];
  }

  /** The command line of process_run when arguments are given. */
  method BuildCommandLine(cmd: string, args: seq<string>) returns (sargs: array<char>)
    ensures fresh(sargs) && sargs[..] == CommandLine(cmd, args) + [NUL]
  {
    hide Buffer.Contents, Buffer.Valid, CStr, Quoted, QuotedArgs;
    var b := new Buffer();
    b.AppendChar('"');
    b.AppendStr(cmd);
    b.AppendChar('"');
    var i := 0;
    ghost var whole := CommandLine(cmd, args);
    assert args[0..] == args && args[|args|..] == [];
    assert QuotedArgs([]) == [] by { NoArgs(); }
    while i < |args|
      invariant i <= |args| && b.Valid() && fresh(b.Repr())
      invariant b.Contents() + QuotedArgs(args[i..]) == whole
    {
      ghost var was := b.Contents();
      QuotedArgsFrom(args, i);
      AppendArgument(b, args[i]);
      assert was + (" \"" + Quoted(args[i], 0) + QuotedArgs(args[i + 1..]))
          == was + (" \"" + Quoted(args[i], 0)) + QuotedArgs(args[i + 1..]);
      i := i + 1;
    }
    sargs := b.ToString();
  }

  // ---------- reading: the rules of the Microsoft C run time ----------

  /** The versions of the run time differ in what a doubled quote inside quotes means. */
  datatype Doubling = Ignored | QuoteAndClose | QuoteAndStay

  datatype Parsed = Parsed(value: string, rest: string)

  predicate IsBlank(c: char) {
    c == ' ' || c == '\t'
  }

  function Prefix(s: string, p: Parsed): Parsed {
    Parsed(s + p.value, p.rest)
  }

  /** The program name: quotes switch blanks off and are dropped, backslashes mean nothing. */
  function Program(s: string, inQuotes: bool): (p: Parsed)
    ensures '"' !in p.value
    decreases s
  {
    if s == [] then Parsed("", "")
    else if s[0] == '"' then Program(s[1..], !inQuotes)
    else if IsBlank(s[0]) && !inQuotes then Parsed("", s)
    else Prefix([s[0]], Program(s[1..], inQuotes))
  }

  /** One argument: 2n backslashes before a quote give n, 2n+1 give n and a literal quote, and
      backslashes not before a quote stand for themselves. */
  function Arg(s: string, inQuotes: bool, slashes: nat, d: Doubling): (p: Parsed)
    ensures |p.rest| <= |s|
    ensures s != [] && !IsBlank(s[0]) ==> |p.rest| < |s|
    decreases s
  {
    if s == [] then Parsed(Slashes(slashes), "")
    else if s[0] == '\\' then Arg(s[1..], inQuotes, slashes + 1, d)
    else if s[0] == '"' && slashes % 2 == 1 then
      Prefix(Slashes(slashes / 2) + "\"", Arg(s[1..], inQuotes, 0, d))
    else if s[0] == '"' && inQuotes && d != Ignored && |s| > 1 && s[1] == '"' then
      Prefix(Slashes(slashes / 2) + "\"", Arg(s[2..], d == QuoteAndStay, 0, d))
    else if s[0] == '"' then
      Prefix(Slashes(slashes / 2), Arg(s[1..], !inQuotes, 0, d))
    else if IsBlank(s[0]) && !inQuotes then Parsed(Slashes(slashes), s)
    else Prefix(Slashes(slashes) + [s[0]], Arg(s[1..], inQuotes, 0, d))
  }

  function Args(s: string, d: Doubling): seq<string>
    decreases |s|
  {
    if s == [] then []
    else if IsBlank(s[0]) then Args(s[1..], d)
    else var a := Arg(s, false, 0, d); [a.value] + Args(a.rest, d)
  }

  function ParseCommandLine(s: string, d: Doubling): seq<string> {
    var p := Program(s, false);
    [p.value] + Args(p.rest, d)
  }

  // ---------- the two agree ----------

  lemma {:induction false} SlashesCounted(n: nat, s: string, inQuotes: bool, slashes: nat, d: Doubling)
    ensures Arg(Slashes(n) + s, inQuotes, slashes, d) == Arg(s, inQuotes, slashes + n, d)
    decreases n
  {
    if n == 0 {
      assert Slashes(0) + s == s;
    } else {
      assert (Slashes(n) + s)[1..] == Slashes(n - 1) + s;
      SlashesCounted(n - 1, s, inQuotes, slashes + 1, d);
    }
  }

  /** What is written next, by what comes first */
  lemma QuotedText(s: string, pending: nat, rest: string)
    ensures s == [] ==> Quoted(s, pending) + rest == Slashes(2 * pending) + ("\"" + rest)
    ensures s != [] && s[0] == '"' ==>
              Quoted(s, pending) + rest == Slashes(2 * pending + 1) + ("\"" + (Quoted(s[1..], 0) + rest))
    ensures s != [] && s[0] == '\\' ==> Quoted(s, pending) == Quoted(s[1..], pending + 1)
    ensures s != [] && s[0] != '"' && s[0] != '\\' ==>
              Quoted(s, pending) + rest == Slashes(pending) + ([s[0]] + (Quoted(s[1..], 0) + rest))
  {
  }

  /** A quoted argument is read back whole, together with the backslashes held back before it. */
  lemma {:induction false} QuotedIsRead(s: string, pending: nat, rest: string, d: Doubling)
    requires rest == [] || rest[0] == ' '
    ensures Arg(Quoted(s, pending) + rest, true, 0, d) == Parsed(Slashes(pending) + s, rest)
    decreases s
  {
    hide Arg, Quoted, Slashes;
    QuotedText(s, pending, rest);
    if s == [] {
      SlashesCounted(2 * pending, "\"" + rest, true, 0, d);
      EndQuote(pending, rest, d);
    } else if s[0] == '"' {
      var more := Quoted(s[1..], 0) + rest;
      SlashesCounted(2 * pending + 1, "\"" + more, true, 0, d);
      QuotedIsRead(s[1..], 0, rest, d);
      QuoteInside(pending, more, s, rest, d);
    } else if s[0] == '\\' {
      QuotedIsRead(s[1..], pending + 1, rest, d);
      OneMore(pending, s);
    } else {
      var more := Quoted(s[1..], 0) + rest;
      SlashesCounted(pending, [s[0]] + more, true, 0, d);
      QuotedIsRead(s[1..], 0, rest, d);
      CharInside(pending, more, s, rest, d);
    }
  }

  lemma OneMore(n: nat, s: string)
    requires s != [] && s[0] == '\\'
    ensures Slashes(n + 1) + s[1..] == Slashes(n) + s
  {
  }

  lemma QuoteInside(pending: nat, more: string, s: string, rest: string, d: Doubling)
    requires s != [] && s[0] == '"' && Arg(more, true, 0, d) == Parsed(Slashes(0) + s[1..], rest)
    ensures Arg("\"" + more, true, 2 * pending + 1, d) == Parsed(Slashes(pending) + s, rest)
  {
    assert ("\"" + more)[1..] == more;
    assert Slashes(pending) + "\"" + (Slashes(0) + s[1..]) == Slashes(pending) + s;
  }

  lemma CharInside(pending: nat, more: string, s: string, rest: string, d: Doubling)
    requires s != [] && s[0] != '"' && s[0] != '\\' && Arg(more, true, 0, d) == Parsed(Slashes(0) + s[1..], rest)
    ensures Arg([s[0]] + more, true, pending, d) == Parsed(Slashes(pending) + s, rest)
  {
    assert ([s[0]] + more)[1..] == more;
    assert Slashes(pending) + [s[0]] + (Slashes(0) + s[1..]) == Slashes(pending) + s;
  }

  lemma EndQuote(pending: nat, rest: string, d: Doubling)
    requires rest == [] || rest[0] == ' '
    ensures Arg("\"" + rest, true, 2 * pending, d) == Parsed(Slashes(pending), rest)
  {
    var s := "\"" + rest;
    assert s[1..] == rest && Slashes(0) == [];
    assert Slashes(pending) + [] == Slashes(pending);
  }

  lemma OpenQuote(body: string, d: Doubling)
    ensures Arg("\"" + body, false, 0, d) == Prefix(Slashes(0), Arg(body, true, 0, d))
  {
    assert ("\"" + body)[1..] == body;
  }

  lemma SkipBlank(s: string, d: Doubling)
    ensures Args([' '] + s, d) == Args(s, d)
  {
    hide Arg;
    assert ([' '] + s)[1..] == s;
  }

  lemma FirstArg(s: string, a: Parsed, d: Doubling)
    requires s != [] && !IsBlank(s[0]) && Arg(s, false, 0, d) == a
    ensures Args(s, d) == [a.value] + Args(a.rest, d)
  {
    hide Arg;
  }

  /** One argument as the loop writes it, with a blank in front, is read as one argument. */
  lemma OneArgIsRead(arg: string, rest: string, d: Doubling)
    requires rest == [] || rest[0] == ' '
    ensures Args(" \"" + Quoted(arg, 0) + rest, d) == [arg] + Args(rest, d)
  {
    hide Quoted, Arg, Args;
    var body := Quoted(arg, 0) + rest;
    QuotedIsRead(arg, 0, rest, d);
    OpenQuote(body, d);
    assert Slashes(0) + (Slashes(0) + arg) == arg;
    FirstArg("\"" + body, Parsed(arg, rest), d);
    SkipBlank("\"" + body, d);
    assert " \"" + Quoted(arg, 0) + rest == [' '] + ("\"" + body);
  }

  lemma {:induction false} ArgsAreRead(args: seq<string>, d: Doubling)
    ensures Args(QuotedArgs(args), d) == args
    ensures QuotedArgs(args) == [] || QuotedArgs(args)[0] == ' '
  {
    if args != [] {
      hide Quoted, Args;
      ArgsAreRead(args[1..], d);
      OneArgIsRead(args[0], QuotedArgs(args[1..]), d);
    }
  }

  lemma {:induction false} ProgramIsRead(cmd: string, rest: string)
    requires '"' !in cmd && (rest == [] || rest[0] == ' ')
    ensures Program(cmd + "\"" + rest, true) == Parsed(cmd, rest)
  {
    if cmd == [] {
      assert (cmd + "\"" + rest)[1..] == rest;
    } else {
      assert (cmd + "\"" + rest)[1..] == cmd[1..] + "\"" + rest;
      ProgramIsRead(cmd[1..], rest);
    }
  }

  // ---------- the line as a C string ----------

  predicate NoNuls(args: seq<string>) {
    forall a | a in args :: NUL !in a
  }

  lemma {:induction false} QuotedHasNoNul(s: string, pending: nat)
    requires NUL !in s
    ensures NUL !in Quoted(s, pending)
    decreases s
  {
    if s != [] {
      QuotedHasNoNul(s[1..], if s[0] == '\\' then pending + 1 else 0);
    }
  }

  lemma {:induction false} QuotedArgsHaveNoNul(args: seq<string>)
    requires NoNuls(args)
    ensures NUL !in QuotedArgs(args)
  {
    hide Quoted;
    if args != [] {
      QuotedHasNoNul(args[0], 0);
      QuotedArgsHaveNoNul(args[1..]);
    }
  }

  /** Reading makes up no NUL. */
  lemma {:induction false} ProgramHasNoNul(s: string, inQuotes: bool)
    requires NUL !in s
    ensures NUL !in Program(s, inQuotes).value && NUL !in Program(s, inQuotes).rest
    decreases s
  {
    if s == [] {
    } else if s[0] == '"' {
      ProgramHasNoNul(s[1..], !inQuotes);
    } else {
      ProgramHasNoNul(s[1..], inQuotes);
    }
  }

  lemma {:induction false} ArgHasNoNul(s: string, inQuotes: bool, slashes: nat, d: Doubling)
    requires NUL !in s
    ensures NUL !in Arg(s, inQuotes, slashes, d).value && NUL !in Arg(s, inQuotes, slashes, d).rest
    decreases |s|
  {
    if s != [] {
      if s[0] == '\\' {
        ArgHasNoNul(s[1..], inQuotes, slashes + 1, d);
      } else {
        ArgHasNoNul(s[1..], inQuotes, 0, d);
        ArgHasNoNul(s[1..], !inQuotes, 0, d);
        if |s| > 1 {
          ArgHasNoNul(s[2..], d == QuoteAndStay, 0, d);
        }
      }
    }
  }

  lemma {:induction false} ArgsHaveNoNul(s: string, d: Doubling)
    requires NUL !in s
    ensures NoNuls(Args(s, d))
    decreases |s|
  {
    hide Arg;
    if s != [] {
      if IsBlank(s[0]) {
        ArgsHaveNoNul(s[1..], d);
      } else {
        ArgHasNoNul(s, false, 0, d);
        ArgsHaveNoNul(Arg(s, false, 0, d).rest, d);
      }
    }
  }

  lemma ParsedHasNoNul(s: string, d: Doubling)
    requires NUL !in s
    ensures NoNuls(ParseCommandLine(s, d))
  {
    hide Program, Args;
    ProgramHasNoNul(s, false);
    ArgsHaveNoNul(Program(s, false).rest, d);
  }

  lemma NoNulsAfter(first: string, args: seq<string>)
    ensures NoNuls([first] + args) <==> NUL !in first && NoNuls(args)
  {
    assert first in [first] + args && forall a | a in args :: a in [first] + args;
  }

  /** Whole, with what a NUL would hide, the line gives command and arguments back exactly when the
      command holds no quote: a quote in it can never come back. */
  lemma WholeLineIsRead(cmd: string, args: seq<string>, d: Doubling)
    ensures ParseCommandLine(CommandLine(cmd, args), d) == [CStr(cmd)] + args <==> '"' !in CStr(cmd)
  {
    hide CStr;
    ArgsAreRead(args, d);
    var line, seen := CommandLine(cmd, args), CStr(cmd);
    assert ParseCommandLine(line, d)[0] == Program(line, false).value;
    if '"' !in seen {
      assert line == "\"" + (seen + "\"" + QuotedArgs(args));
      assert line[1..] == seen + "\"" + QuotedArgs(args);
      ProgramIsRead(seen, QuotedArgs(args));
    } else {
      assert ([seen] + args)[0] == seen;
    }
  }

  /** The arguments come back from the C string exactly when none of them holds a NUL. */
  lemma ArgumentsRoundTrip(args: seq<string>, d: Doubling)
    ensures Args(CStr(QuotedArgs(args)), d) == args <==> NoNuls(args)
  {
    hide Args, QuotedArgs, CStr;
    CStrCuts(QuotedArgs(args));
    if NoNuls(args) {
      QuotedArgsHaveNoNul(args);
      ArgsAreRead(args, d);
    } else {
      ArgsHaveNoNul(CStr(QuotedArgs(args)), d);
    }
  }

  lemma LineHasNoNul(cmd: string, args: seq<string>)
    requires NoNuls(args)
    ensures NUL !in CommandLine(cmd, args)
  {
    hide CStr, QuotedArgs;
    CStrCuts(cmd);
    QuotedArgsHaveNoNul(args);
  }

  /** The command as it was written, up to a NUL, comes back with the arguments exactly when it holds
      no quote and no argument holds a NUL. */
  lemma CommandIsRead(cmd: string, args: seq<string>, d: Doubling)
    ensures ParseCommandLine(CStr(CommandLine(cmd, args)), d) == [CStr(cmd)] + args
            <==> '"' !in CStr(cmd) && NoNuls(args)
    ensures NoNuls(ParseCommandLine(CStr(CommandLine(cmd, args)), d))
  {
    hide CStr, ParseCommandLine, CommandLine;
    var line := CommandLine(cmd, args);
    CStrCuts(line);
    ParsedHasNoNul(CStr(line), d);
    NoNulsAfter(CStr(cmd), args);
    if NoNuls(args) {
      LineHasNoNul(cmd, args);
      WholeLineIsRead(cmd, args, d);
    }
  }

  /** Whatever the arguments and whichever run time reads it, the C string handed to the operating
      system gives command and arguments back exactly when the command holds no quote and nothing
      holds a NUL. */
  lemma CommandLineRoundTrip(cmd: string, args: seq<string>, d: Doubling)
    ensures ParseCommandLine(CStr(CommandLine(cmd, args)), d) == [cmd] + args
            <==> '"' !in cmd && NUL !in cmd && NoNuls(args)
  {
    hide CStr, ParseCommandLine, CommandLine;
    CommandIsRead(cmd, args, d);
    CStrCuts(cmd);
    NoNulsAfter(cmd, args);
  }

  /** A NUL in an argument */
  lemma CutAtNul(d: Doubling)
    ensures ParseCommandLine(CStr(CommandLine("c", ["a\0b"])), d) != ["c", "a\0b"]
  {
    var arg := "a\0b";
    assert arg[1] == NUL && ["c"] + [arg] == ["c", arg] && arg in [arg];
    CommandLineRoundTrip("c", [arg], d);
  }
}
