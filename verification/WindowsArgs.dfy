/**
 Quoting of command line arguments for Windows (common/sc_popen.cpp), against
 the rules by which CommandLineToArgvW takes a command line apart again.
 */
module WindowsArgs {

  // ----- taking a command line apart

  predicate Blank(c: char) { c == ' ' || c == '\t' }

  function Slashes(n: nat): (r: string)
    ensures |r| == n && forall i :: 0 <= i < n ==> r[i] == '\\'
  {
    if n == 0 then "" else "\\" + Slashes(n - 1)
  }

  datatype Parsed = Parsed(arg: string, rest: string)

  function Prepend(head: string, p: Parsed): Parsed {
    Parsed(head + p.arg, p.rest)
  }

  /**
   One argument.  `slashes` backslashes have been read and not yet interpreted:
   before a quote, each pair stands for one backslash, and an odd one makes the
   quote a character of the argument; elsewhere they stand for themselves.
   */
  function ParseOne(s: string, quoted: bool, slashes: nat): (p: Parsed)
    ensures |p.rest| <= |s|
  {
    if s == "" then Parsed(Slashes(slashes), "")
    else if s[0] == '\\' then ParseOne(s[1..], quoted, slashes + 1)
    else if s[0] == '\"' then
      if slashes % 2 == 0 then Prepend(Slashes(slashes / 2), ParseOne(s[1..], !quoted, 0))
      else Prepend(Slashes(slashes / 2) + "\"", ParseOne(s[1..], quoted, 0))
    else if Blank(s[0]) && !quoted then Parsed(Slashes(slashes), s)
    else Prepend(Slashes(slashes) + [s[0]], ParseOne(s[1..], quoted, 0))
  }

  lemma ParseOneConsumes(s: string, quoted: bool, slashes: nat)
    requires s != "" && !Blank(s[0])
    ensures |ParseOne(s, quoted, slashes).rest| < |s|
  {
  }

  /** All arguments after the program name. */
  function ParseArgs(s: string): seq<string>
    decreases |s|
  {
    if s == "" then []
    else if Blank(s[0]) then ParseArgs(s[1..])
    else
      ParseOneConsumes(s, false, 0);
      var p := ParseOne(s, false, 0);
      [p.arg] + ParseArgs(p.rest)
  }

  /**
   The rules, one by one: `n` pairs of backslashes and a quote are `n` backslashes and open or
   close quotes; one backslash more makes the quote a character; backslashes before anything
   else are themselves; outside quotes a space or a tab ends the argument, inside it does not.
   */
  lemma ReaderRules(n: nat, c: char, s: string, quoted: bool)
    ensures ParseOne(Slashes(2 * n) + ("\"" + s), quoted, 0) == Prepend(Slashes(n), ParseOne(s, !quoted, 0))
    ensures ParseOne(Slashes(2 * n + 1) + ("\"" + s), quoted, 0) == Prepend(Slashes(n) + "\"", ParseOne(s, quoted, 0))
    ensures c != '\\' && c != '\"' && (quoted || (c != ' ' && c != '\t')) ==>
      ParseOne(Slashes(n) + ([c] + s), quoted, 0) == Prepend(Slashes(n) + [c], ParseOne(s, quoted, 0))
    ensures c == ' ' || c == '\t' ==> ParseOne(Slashes(n) + ([c] + s), false, 0) == Parsed(Slashes(n), [c] + s)
    ensures ParseOne(Slashes(n), quoted, 0) == Parsed(Slashes(n), "")
    ensures ParseArgs("") == [] && (c == ' ' || c == '\t' ==> ParseArgs([c] + s) == ParseArgs(s))
  {
    hide Slashes, ParseOne;
    QuoteRules(n, s, quoted);
    CharRules(n, c, s, quoted);
    BlankRules(c, s);
  }

  lemma QuoteRules(n: nat, s: string, quoted: bool)
    ensures ParseOne(Slashes(2 * n) + ("\"" + s), quoted, 0) == Prepend(Slashes(n), ParseOne(s, !quoted, 0))
    ensures ParseOne(Slashes(2 * n + 1) + ("\"" + s), quoted, 0) == Prepend(Slashes(n) + "\"", ParseOne(s, quoted, 0))
  {
    ParseSlashes(2 * n, "\"" + s, quoted, 0);
    ParseSlashes(2 * n + 1, "\"" + s, quoted, 0);
    assert ("\"" + s)[1..] == s && 2 * n / 2 == n && (2 * n + 1) / 2 == n;
    hide Slashes;
  }

  lemma CharRules(n: nat, c: char, s: string, quoted: bool)
    ensures c != '\\' && c != '\"' && (quoted || (c != ' ' && c != '\t')) ==>
      ParseOne(Slashes(n) + ([c] + s), quoted, 0) == Prepend(Slashes(n) + [c], ParseOne(s, quoted, 0))
    ensures c == ' ' || c == '\t' ==> ParseOne(Slashes(n) + ([c] + s), false, 0) == Parsed(Slashes(n), [c] + s)
    ensures ParseOne(Slashes(n), quoted, 0) == Parsed(Slashes(n), "")
  {
    ParseSlashes(n, [c] + s, quoted, 0);
    ParseSlashes(n, [c] + s, false, 0);
    ParseSlashes(n, "", quoted, 0);
    assert ([c] + s)[1..] == s && Slashes(n) + "" == Slashes(n);
    hide Slashes;
  }

  lemma BlankRules(c: char, s: string)
    ensures ParseArgs("") == [] && (c == ' ' || c == '\t' ==> ParseArgs([c] + s) == ParseArgs(s))
  {
    hide ParseOne;
    assert ([c] + s)[1..] == s;
  }

  // ----- quoting

  predicate NeedsQuotes(arg: string) {
    exists i :: 0 <= i < |arg| && (Blank(arg[i]) || arg[i] == '\"')
  }

  /** In quotes already, with no quote inside: returned as it is. */
  predicate PassesThrough(arg: string) {
    && |arg| >= 2 && arg[0] == '\"' && arg[|arg| - 1] == '\"'
    && forall i :: 1 <= i < |arg| - 1 ==> arg[i] != '\"'
  }

  /** The quoted form of the rest of an argument, `slashes` backslashes being held back. */
  function Escape(arg: string, slashes: nat): string {
    if arg == "" then Slashes(slashes * 2)
    else if arg[0] == '\\' then Escape(arg[1..], slashes + 1)
    else if arg[0] == '\"' then Slashes(slashes * 2 + 1) + "\"" + Escape(arg[1..], 0)
    else Slashes(slashes) + [arg[0]] + Escape(arg[1..], 0)
  }

  function Quoted(arg: string): (r: string)
    ensures r != ""
  {
    if arg == "" then "\"\""
    else if PassesThrough(arg) || !NeedsQuotes(arg) then arg
    else "\"" + Escape(arg, 0) + "\""
  }

  lemma {:induction false} EscapeLength(arg: string, slashes: nat)
    ensures |Escape(arg, slashes)| >= |arg| + slashes
    decreases arg
  {
    if arg != "" {
      EscapeLength(arg[1..], if arg[0] == '\\' then slashes + 1 else 0);
    }
  }

  /** The loop over the characters, which holds back backslashes until it sees what follows. */
  method PutInQuotes(arg: string) returns (result: string)
    ensures result == "\"" + Escape(arg, 0) + "\""
  {
    result := "\"";
    var backslashes := 0;
    for i := 0 to |arg|
      invariant result + Escape(arg[i..], backslashes) == "\"" + Escape(arg, 0)
    {
      var c := arg[i];
      ghost var was, pending := result, backslashes;
      assert arg[i..][0] == c && arg[i..][1..] == arg[i + 1..];
      if c == '\\' {
        backslashes := backslashes + 1;
      } else if c == '\"' {
        result := result + Slashes(backslashes * 2 + 1) + "\"";
        backslashes := 0;
        assert result + Escape(arg[i + 1..], 0) == was + (Slashes(pending * 2 + 1) + "\"" + Escape(arg[i + 1..], 0));
      } else {
        result := result + Slashes(backslashes) + [c];
        backslashes := 0;
        assert result + Escape(arg[i + 1..], 0) == was + (Slashes(pending) + [c] + Escape(arg[i + 1..], 0));
      }
    }
    result := result + Slashes(backslashes * 2) + "\"";
  }

  /** Which arguments stay as they are. */
  lemma KeptAsItIs(arg: string)
    ensures arg != "" ==>
      (Quoted(arg) == arg <==>
        || (forall i :: 0 <= i < |arg| ==> arg[i] != ' ' && arg[i] != '\t' && arg[i] != '\"')
        || (|arg| >= 2 && arg[0] == '\"' && arg[|arg| - 1] == '\"'
            && forall i :: 1 <= i < |arg| - 1 ==> arg[i] != '\"'))
    ensures var r := Quoted(arg); r != arg ==> |r| >= 2 && r[0] == '\"' && r[|r| - 1] == '\"'
    ensures arg == "" ==> Quoted(arg) == "\"\""
    ensures arg != "" && (PassesThrough(arg) || !NeedsQuotes(arg)) ==> Quoted(arg) == arg
    ensures arg != "" && !PassesThrough(arg) && NeedsQuotes(arg) ==> Quoted(arg) == "\"" + Escape(arg, 0) + "\""
  {
    EscapeLength(arg, 0);
    hide Escape;
  }

  /**
   The empty argument becomes two quotes.  Any other is returned unchanged exactly when
   it holds no space, tab or quote, or is in quotes already with no quote inside.
   */
  method QuoteWindowsArg(arg: string) returns (result: string)
    ensures result == Quoted(arg)
    ensures arg == "" ==> result == "\"\""
    ensures arg != "" ==>
      (result == arg <==>
        || (forall i :: 0 <= i < |arg| ==> arg[i] != ' ' && arg[i] != '\t' && arg[i] != '\"')
        || (|arg| >= 2 && arg[0] == '\"' && arg[|arg| - 1] == '\"'
            && forall i :: 1 <= i < |arg| - 1 ==> arg[i] != '\"'))
    ensures result != arg ==> |result| >= 2 && result[0] == '\"' && result[|result| - 1] == '\"'
  {
    hide Escape, Quoted;
    KeptAsItIs(arg);
    if arg == "" {
      return "\"\"";
    }
    var needQuotes := exists i :: 0 <= i < |arg| && (Blank(arg[i]) || arg[i] == '\"');
    if needQuotes && |arg| >= 2 && arg[0] == '\"' && arg[|arg| - 1] == '\"' {
      var inner := 1;
      while arg[inner] != '\"'
        invariant 1 <= inner < |arg|
        invariant forall i :: 1 <= i < inner ==> arg[i] != '\"'
        decreases |arg| - inner
      {
        inner := inner + 1;
      }
      if inner == |arg| - 1 {
        return arg;
      }
    }
    if !needQuotes {
      return arg;
    }
    result := PutInQuotes(arg);
  }

  /** The arguments, each quoted, with a space between any two. */
  function CommandLine(args: seq<string>): string {
    if args == [] then ""
    else if |args| == 1 then Quoted(args[0])
    else Quoted(args[0]) + " " + CommandLine(args[1..])
  }

  lemma {:induction false} CommandLineGrows(args: seq<string>, arg: string)
    ensures CommandLine(args + [arg]) == CommandLine(args) + (if args == [] then "" else " ") + Quoted(arg)
    ensures args != [] ==> CommandLine(args) != ""
  {
    hide Quoted;
    if args == [] {
      assert CommandLine([arg]) == Quoted(arg);
    } else if |args| == 1 {
      assert (args + [arg])[1..] == [arg];
      assert CommandLine([arg]) == Quoted(arg);
    } else {
      assert (args + [arg])[1..] == args[1..] + [arg];
      CommandLineGrows(args[1..], arg);
    }
  }

  /** The fold in the Windows `sc_popen_argv`. */
  method JoinArgs(strings: seq<string>) returns (acc: string)
    ensures acc == CommandLine(strings)
  {
    acc := "";
    for i := 0 to |strings|
      invariant acc == CommandLine(strings[..i])
    {
      CommandLineGrows(strings[..i], strings[i]);
      assert strings[..i + 1] == strings[..i] + [strings[i]];
      var quoted := QuoteWindowsArg(strings[i]);
      acc := acc + (if acc == "" then "" else " ") + quoted;
    }
    assert strings[..|strings|] == strings;
  }

  // ----- the round trip

  lemma {:induction false} ParseSlashes(n: nat, s: string, quoted: bool, slashes: nat)
    ensures ParseOne(Slashes(n) + s, quoted, slashes) == ParseOne(s, quoted, slashes + n)
    decreases n
  {
    if n == 0 {
      assert Slashes(0) + s == s;
    } else {
      assert (Slashes(n) + s)[1..] == Slashes(n - 1) + s;
      ParseSlashes(n - 1, s, quoted, slashes + 1);
    }
  }

  /** What may follow an argument in a command line. */
  predicate Ends(tail: string) { tail == "" || tail[0] == ' ' }

  lemma SlashThenRest(n: nat, arg: string)
    requires arg != "" && arg[0] == '\\'
    ensures Slashes(n) + arg == Slashes(n + 1) + arg[1..]
  {
  }

  /** Concatenation, as the proofs below regroup it. */
  lemma Regroup(a: string, b: string, c: string, d: string)
    ensures a + b + c + d == a + (b + (c + d))
    ensures a + (b + c) == a + b + c
  {
  }

  /** One character other than a backslash, with the backslashes escaped before it. */
  lemma ParseEscapedChar(c: char, slashes: nat, body: string)
    requires c != '\\'
    ensures var n := if c == '\"' then slashes * 2 + 1 else slashes;
      ParseOne(Slashes(n) + ([c] + body), true, 0) == Prepend(Slashes(slashes) + [c], ParseOne(body, true, 0))
  {
    var n := if c == '\"' then slashes * 2 + 1 else slashes;
    ParseSlashes(n, [c] + body, true, 0);
    assert ([c] + body)[1..] == body;
    hide Slashes;
  }

  lemma ParseClosing(slashes: nat, tail: string)
    requires Ends(tail)
    ensures ParseOne(Slashes(slashes * 2) + ("\"" + tail), true, 0) == Parsed(Slashes(slashes), tail)
  {
    ParseSlashes(slashes * 2, "\"" + tail, true, 0);
    assert ("\"" + tail)[1..] == tail;
    assert slashes * 2 / 2 == slashes;
    hide Slashes;
  }

  lemma EscapeChar(arg: string, slashes: nat)
    requires arg != "" && arg[0] != '\\'
    ensures Escape(arg, slashes) ==
      Slashes(if arg[0] == '\"' then slashes * 2 + 1 else slashes) + [arg[0]] + Escape(arg[1..], 0)
  {
  }

  lemma {:induction false} ParseEscaped(arg: string, slashes: nat, tail: string)
    requires Ends(tail)
    ensures ParseOne(Escape(arg, slashes) + ("\"" + tail), true, 0) == Parsed(Slashes(slashes) + arg, tail)
    decreases arg
  {
    hide ParseOne, Slashes, Ends;
    var after := "\"" + tail;
    if arg == "" {
      ParseClosing(slashes, tail);
      assert Slashes(slashes) + arg == Slashes(slashes);
    } else if arg[0] == '\\' {
      ParseEscaped(arg[1..], slashes + 1, tail);
      SlashThenRest(slashes, arg);
    } else {
      var n := if arg[0] == '\"' then slashes * 2 + 1 else slashes;
      ParseEscaped(arg[1..], 0, tail);
      EscapeChar(arg, slashes);
      var body := Escape(arg[1..], 0);
      Regroup(Slashes(n), [arg[0]], body, after);
      ParseEscapedChar(arg[0], slashes, body + after);
      NoSlashes();
      assert arg == [arg[0]] + arg[1..];
      Regroup(Slashes(slashes), [arg[0]], arg[1..], "");
    }
  }

  lemma NoSlashes()
    ensures forall s: string :: Slashes(0) + s == s
  {
  }

  lemma {:induction false} ParsePlain(arg: string, slashes: nat, tail: string)
    requires Ends(tail) && !NeedsQuotes(arg)
    ensures ParseOne(arg + tail, false, slashes) == Parsed(Slashes(slashes) + arg, tail)
    decreases arg
  {
    if arg == "" {
      assert arg + tail == tail;
    } else {
      assert !Blank(arg[0]) && arg[0] != '\"';
      assert (arg + tail)[1..] == arg[1..] + tail;
      forall i | 0 <= i < |arg[1..]| ensures !Blank(arg[1..][i]) && arg[1..][i] != '\"' {
        assert arg[1..][i] == arg[i + 1];
      }
      if arg[0] == '\\' {
        ParsePlain(arg[1..], slashes + 1, tail);
        SlashThenRest(slashes, arg);
      } else {
        ParsePlain(arg[1..], 0, tail);
        assert Slashes(slashes) + [arg[0]] + arg[1..] == Slashes(slashes) + arg;
      }
    }
  }

  lemma ParseInQuotes(body: string, tail: string)
    ensures ParseOne("\"" + body + "\"" + tail, false, 0) == ParseOne(body + ("\"" + tail), true, 0)
  {
    var s := "\"" + body + "\"" + tail;
    assert s[1..] == body + ("\"" + tail);
    var p := ParseOne(s[1..], true, 0);
    assert Prepend(Slashes(0), p) == p;
  }

  /** A quoted argument is read back as itself unless it was passed through. */
  lemma ParseQuoted(arg: string, tail: string)
    requires Ends(tail) && !PassesThrough(arg)
    ensures ParseOne(Quoted(arg) + tail, false, 0) == Parsed(arg, tail) && !Blank(Quoted(arg)[0])
  {
    hide ParseOne, Escape, Slashes, Ends, PassesThrough;
    NoSlashes();
    if arg == "" {
      ParseInQuotes("", tail);
      ParseClosing(0, tail);
      assert "\"" + "" + "\"" == Quoted(arg);
    } else if NeedsQuotes(arg) {
      ParseInQuotes(Escape(arg, 0), tail);
      ParseEscaped(arg, 0, tail);
    } else {
      assert !Blank(arg[0]);
      ParsePlain(arg, 0, tail);
    }
  }

  /** What follows the first argument in the command line. */
  function Tail(args: seq<string>): (r: string)
    requires args != []
    ensures Ends(r)
  {
    if |args| == 1 then "" else " " + CommandLine(args[1..])
  }

  lemma ParseTail(args: seq<string>)
    requires args != []
    ensures CommandLine(args) == Quoted(args[0]) + Tail(args)
    ensures ParseArgs(Tail(args)) == ParseArgs(CommandLine(args[1..]))
  {
    hide Quoted;
    if |args| > 1 {
      assert Tail(args)[1..] == CommandLine(args[1..]);
    } else {
      assert args[1..] == [];
    }
  }

  lemma FirstParsed(args: seq<string>)
    requires args != [] && !Blank(Quoted(args[0])[0])
    ensures var p := ParseOne(Quoted(args[0]) + Tail(args), false, 0);
      ParseArgs(CommandLine(args)) == [p.arg] + ParseArgs(p.rest)
  {
    ParseTail(args);
  }

  lemma LeadingStep(s: string, n: nat)
    requires s != "" && s[0] == '\\' && n < |s| && s[1..] == Slashes(n) + s[1..][n..]
    ensures s == Slashes(n + 1) + s[n + 1..]
  {
    assert s[1..][n..] == s[n + 1..];
    assert s == ['\\'] + s[1..];
    Associate("\\", Slashes(n), s[n + 1..]);
  }

  /** The backslashes at the front of a string. */
  function Leading(s: string): (n: nat)
    ensures n <= |s| && s == Slashes(n) + s[n..]
    ensures n < |s| ==> s[n] != '\\'
  {
    if s != "" && s[0] == '\\' then
      var n := Leading(s[1..]);
      LeadingStep(s, n);
      n + 1
    else
      NoSlashes();
      0
  }

  /** Inside quotes, an argument starts with what its text starts with. */
  lemma FirstChar(s: string, n: nat, tail: string)
    requires s != "" && s[0] != '\\' && (s[0] == '\"' ==> n != 1 && Ends(s[1..]))
    requires n > 0 || s[0] != '\"'
    ensures var a := ParseOne(s, true, n).arg; a != "" && a[0] == (if n > 0 then '\\' else s[0])
  {
  }

  /** An argument that is passed through is read back as something else. */
  lemma PassedThroughChanges(arg: string, tail: string)
    requires Ends(tail) && PassesThrough(arg)
    ensures ParseOne(arg + tail, false, 0).arg != arg
  {
    var inner := arg[1..|arg| - 1];
    var n := Leading(inner);
    var rest := inner[n..] + ("\"" + tail);
    PassedText(arg, tail, n);
    hide ParseOne, Slashes;
    ParseSlashes(n, rest, true, 0);
    if n < |inner| {
      assert rest[0] == inner[n] == arg[n + 1];
      FirstChar(rest, n, tail);
    } else {
      assert rest == "\"" + tail && rest[1..] == tail;
      if n >= 2 {
        FirstChar(rest, n, tail);
      } else {
        LoneSlash(tail, n);
        assert n == 1 ==> arg[1] == inner[0];
        SlashHead(inner, n);
      }
    }
  }

  lemma SlashHead(s: string, n: nat)
    requires s == Slashes(n)
    ensures n > 0 ==> s[0] == '\\'
  {
  }

  lemma PassedText(arg: string, tail: string, n: nat)
    requires PassesThrough(arg) && n == Leading(arg[1..|arg| - 1])
    ensures var inner := arg[1..|arg| - 1];
      ParseOne(arg + tail, false, 0) == ParseOne(Slashes(n) + (inner[n..] + ("\"" + tail)), true, 0)
    ensures var inner := arg[1..|arg| - 1]; inner[n..] == "" ==> inner == Slashes(n)
  {
    hide ParseOne, Leading, Slashes;
    var inner := arg[1..|arg| - 1];
    ParseInQuotes(inner, tail);
    assert arg == "\"" + inner + "\"";
    Associate(Slashes(n), inner[n..], "\"" + tail);
  }

  lemma Associate(a: string, b: string, c: string)
    ensures a + b + c == a + (b + c)
  {
  }

  /** The closing quote of `"\"` is taken for a character, and what follows for more of the argument. */
  lemma LoneSlash(tail: string, n: nat)
    requires Ends(tail) && n <= 1
    ensures var a := ParseOne("\"" + tail, true, n).arg; if n == 0 then a == "" else |a| == 1 || a[1] == ' '
    ensures var a := ParseOne("\"" + tail, true, n).arg; n == 1 ==> a != ""
  {
    assert ("\"" + tail)[1..] == tail;
    assert Slashes(0) == "";
    if n == 1 && tail != "" {
      assert ParseOne(tail, true, 0).arg == Slashes(0) + [' '] + ParseOne(tail[1..], true, 0).arg;
    }
  }

  /**
   The command line built from a list of arguments is taken apart into the same
   list exactly when none of them is in the form that is passed through.
   */
  lemma {:induction false} RoundTrip(args: seq<string>)
    ensures ParseArgs(CommandLine(args)) == args <==> forall i :: 0 <= i < |args| ==> !PassesThrough(args[i])
  {
    if args != [] {
      RoundTripStep(args);
      RoundTrip(args[1..]);
      PassesSplit(args);
    }
  }

  /** The first argument survives exactly when it is not passed through; if it does, the rest is read alone. */
  lemma RoundTripStep(args: seq<string>)
    requires args != []
    ensures ParseArgs(CommandLine(args)) == args
       <==> !PassesThrough(args[0]) && ParseArgs(CommandLine(args[1..])) == args[1..]
  {
    hide ParseArgs, CommandLine, PassesThrough, Quoted, ParseOne, Tail, Ends;
    ParseTail(args);
    var p := ParseOne(Quoted(args[0]) + Tail(args), false, 0);
    if PassesThrough(args[0]) {
      PassedFirst(args[0]);
      PassedThroughChanges(args[0], Tail(args));
    } else {
      ParseQuoted(args[0], Tail(args));
    }
    FirstParsed(args);
    HeadAndTail(p.arg, ParseArgs(p.rest), args);
  }

  lemma HeadAndTail<T>(a: T, l: seq<T>, s: seq<T>)
    requires s != []
    ensures [a] + l == s <==> a == s[0] && l == s[1..]
  {
    assert s == [s[0]] + s[1..];
    if [a] + l == s {
      assert ([a] + l)[1..] == l;
    }
  }

  lemma PassedFirst(arg: string)
    requires PassesThrough(arg)
    ensures Quoted(arg) == arg && !Blank(arg[0])
  {
  }

  lemma PassesSplit(args: seq<string>)
    requires args != []
    ensures (forall i :: 0 <= i < |args| ==> !PassesThrough(args[i]))
       <==> !PassesThrough(args[0]) && forall i :: 0 <= i < |args[1..]| ==> !PassesThrough(args[1..][i])
  {
    hide PassesThrough;
    assert forall i :: 0 <= i < |args[1..]| ==> args[1..][i] == args[i + 1];
    forall i | 0 <= i < |args| && PassesThrough(args[i])
      ensures PassesThrough(args[0]) || exists k :: 0 <= k < |args[1..]| && PassesThrough(args[1..][k])
    {
      if i > 0 {
        assert PassesThrough(args[1..][i - 1]);
      }
    }
  }
}
