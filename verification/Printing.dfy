/**
 Printing a command into a shell string (crates/command-executor/src/layered/layers.rs, `shell_escape`
 and `command_to_shell_string`), and what a shell reads back.
 */
module Printing {
  import opened Common
  import opened Shell

  datatype Command = Command(
    program: string,
    args: seq<string>,
    env: map<string, string>,
    currentDir: Option<string>)

  function Argv(c: Command): seq<string> {
    [c.program] + c.args
  }

  // ----- Printing -----

  predicate IsSpecial(c: char) {
    || c == '\"' || c == '\'' || c == '\\' || c == '$' || c == '`' || c == '!' || c == '*' || c == '?'
    || c == '<' || c == '>' || c == '|' || c == '&' || c == ';'
    || c == '(' || c == ')' || c == '[' || c == ']' || c == '{' || c == '}'
  }

  predicate NeedsQuoting(s: string) {
    exists i :: 0 <= i < |s| && (IsWhitespace(s[i]) || IsSpecial(s[i]))
  }

  function QuotedCharacter(c: char): string {
    if c == '\'' then "'\"'\"'" else [c]
  }

  function ReplaceQuotes(s: string): string {
    if s == "" then "" else QuotedCharacter(s[0]) + ReplaceQuotes(s[1..])
  }

  function ShellEscape(s: string): string {
    if NeedsQuoting(s) then "'" + ReplaceQuotes(s) + "'" else s
  }

  function Escaped(args: seq<string>): (r: seq<string>)
    ensures |r| == |args|
  {
    seq(|args|, i requires 0 <= i < |args| => ShellEscape(args[i]))
  }

  function Join(ss: seq<string>, sep: string): string {
    if ss == [] then "" else if |ss| == 1 then ss[0] else ss[0] + sep + Join(ss[1..], sep)
  }

  function CommandToShellString(c: Command): string {
    if c.args == [] then c.program else c.program + " " + Join(Escaped(c.args), " ")
  }

  // ----- Which strings survive -----

  /** Token recognition delimits s as one word: it is not empty and does not start a comment. */
  predicate IsOneWord(s: string) {
    NeedsQuoting(s) || (s != "" && s[0] != '#')
  }

  /** The escaped form of s is read back as the field s. */
  predicate SafeArg(s: string) {
    NeedsQuoting(s) || (s != "" && s[0] != '#' && s[0] != '~')
  }

  /** The escaped form of s, after `NAME=`, is read back as the value s. */
  predicate SafeValue(s: string) {
    NeedsQuoting(s) || forall i :: 0 <= i < |s| && s[i] == '~' ==> i > 0 && s[i - 1] != ':'
  }

  /** A program that the printer may leave as it is: every character is taken literally, and it is no assignment. */
  predicate PlainWord(s: string) {
    && s != "" && s[0] != '#' && s[0] != '~'
    && (forall i :: 0 <= i < |s| ==> IsLiteral(s[i]) && s[i] != '*' && s[i] != '?' && s[i] != '[')
    && AssignmentAt(Mark(s, false), 0).None?
  }

  /** A reserved word is a program only after assignments. */
  predicate ProgramSafe(s: string, afterAssignments: bool) {
    PlainWord(s) && (afterAssignments || s !in RESERVED_WORDS)
  }

  /** The text opens a quotation, or ends in a backslash, and leaves it so. */
  predicate LeavesQuoteOpen(s: string) {
    match Feed(Between, s)
    case None => false
    case Some((m, _)) => m.SingleQuoted? || m.DoubleQuoted? || m.Escaping?
  }

  /** The word that the escaped form of s is recognised as. */
  function EscapedWord(s: string): Word {
    Mark(s, NeedsQuoting(s))
  }

  function EscapedWords(args: seq<string>): (ws: seq<Word>)
    ensures |ws| == |args| && forall i :: 0 <= i < |args| ==> ws[i] == EscapedWord(args[i])
  {
    seq(|args|, i requires 0 <= i < |args| => EscapedWord(args[i]))
  }

  lemma LiteralStep(w: Word, c: char)
    requires IsLiteral(c)
    ensures Step(InWord(w), c) == Some((InWord(w + [Quotable(c, false)]), []))
    ensures w == [] && c != '#' ==> Step(Between, c) == Some((InWord(w + [Quotable(c, false)]), []))
  {
  }

  lemma LiteralFirst(w: Word, s: string)
    requires AllLiteral(s) && s != ""
    ensures IsLiteral(s[0]) && AllLiteral(s[1..]) && s == [s[0]] + s[1..]
    ensures w + [Quotable(s[0], false)] + Mark(s[1..], false) == w + Mark(s, false)
  {
    hide IsLiteral;
    assert forall i :: 0 <= i < |s[1..]| ==> s[1..][i] == s[i + 1];
  }

  /** A literal string adds its characters to the word. */
  lemma {:induction false} FeedPlain(w: Word, s: string)
    requires AllLiteral(s)
    ensures Feed(InWord(w), s) == Some((InWord(w + Mark(s, false)), []))
    decreases |s|
  {
    hide IsLiteral, Step, AllLiteral;
    if s == "" {
      assert w + Mark(s, false) == w;
    } else {
      LiteralFirst(w, s);
      LiteralStep(w, s[0]);
      FeedCons(InWord(w), s[0], s[1..]);
      FeedPlain(w + [Quotable(s[0], false)], s[1..]);
    }
  }

  lemma UnquotedIsLiteral(s: string)
    requires !NeedsQuoting(s)
    ensures AllLiteral(s)
  {
    forall i | 0 <= i < |s|
      ensures IsLiteral(s[i])
    {
      assert !IsSpecial(s[i]) && !IsWhitespace(s[i]);
    }
  }

  /** A literal text that starts no comment is one word. */
  lemma FeedLiteral(s: string)
    requires AllLiteral(s) && s != "" && s[0] != '#'
    ensures Feed(Between, s) == Some((InWord(Mark(s, false)), []))
  {
    hide IsLiteral, Step;
    assert s == [s[0]] + s[1..];
    LiteralStep([], s[0]);
    FeedCons(Between, s[0], s[1..]);
    FeedCons(InWord([]), s[0], s[1..]);
    FeedPlain([], s);
    assert [] + Mark(s, false) == Mark(s, false);
  }

  /** Inside single quotes, a character or its replacement adds that character to the word. */
  lemma FeedQuotedCharacter(w: Word, c: char)
    ensures Feed(SingleQuoted(w), QuotedCharacter(c)) == Some((SingleQuoted(w + [Quotable(c, true)]), []))
  {
    var w' := w + [Quotable(c, true)];
    if c == '\'' {
      assert "'\"'\"'" == ['\''] + "\"'\"'" && "\"'\"'" == ['\"'] + "'\"'" && "'\"'" == ['\''] + "\"'"
             && "\"'" == ['\"'] + "'";
      FeedCons(SingleQuoted(w), '\'', "\"'\"'");
      FeedCons(InWord(w), '\"', "'\"'");
      FeedCons(DoubleQuoted(w), '\'', "\"'");
      FeedCons(DoubleQuoted(w'), '\"', "'");
      FeedOne(InWord(w'), '\'');
    } else {
      FeedOne(SingleQuoted(w), c);
    }
  }

  lemma ReplaceQuotesFirst(s: string)
    requires s != ""
    ensures ReplaceQuotes(s) + "'" == QuotedCharacter(s[0]) + (ReplaceQuotes(s[1..]) + "'")
  {
  }

  /** The body of a single-quoted string, with its closing quote, adds the replaced string to the word. */
  lemma {:induction false} FeedQuoted(w: Word, s: string)
    ensures Feed(SingleQuoted(w), ReplaceQuotes(s) + "'") == Some((InWord(w + Mark(s, true)), []))
    decreases |s|
  {
    if s == "" {
      FeedOne(SingleQuoted(w), '\'');
      assert w + Mark(s, true) == w;
    } else {
      var w' := w + [Quotable(s[0], true)];
      assert w' + Mark(s[1..], true) == w + Mark(s, true);
      FeedQuoted(w', s[1..]);
      FeedQuotedCharacter(w, s[0]);
      FeedThen(SingleQuoted(w), QuotedCharacter(s[0]), SingleQuoted(w'), [], ReplaceQuotes(s[1..]) + "'",
          InWord(w + Mark(s, true)), []);
      ReplaceQuotesFirst(s);
    }
  }

  lemma FeedOne(m: Mode, c: char)
    ensures Feed(m, [c]) == Step(m, c)
  {
    assert [c][1..] == "";
    if Step(m, c).Some? {
      assert Step(m, c).value.1 + [] == Step(m, c).value.1;
    }
  }

  lemma FeedCons(m: Mode, c: char, s: string)
    requires Step(m, c).Some? && Step(m, c).value.1 == []
    ensures Feed(m, [c] + s) == Feed(Step(m, c).value.0, s)
  {
    assert ([c] + s)[1..] == s;
    if Feed(Step(m, c).value.0, s).Some? {
      assert [] + Feed(Step(m, c).value.0, s).value.1 == Feed(Step(m, c).value.0, s).value.1;
    }
  }

  /** An escaped string that is read as one word, at the start of a word or inside one. */
  lemma FeedEscaped(m: Mode, s: string)
    requires m.InWord? || (m.Between? && IsOneWord(s))
    ensures Feed(m, ShellEscape(s)) == Some((InWord((if m.InWord? then m.word else []) + EscapedWord(s)), []))
  {
    var w := if m.InWord? then m.word else [];
    if NeedsQuoting(s) {
      assert ShellEscape(s) == "'" + (ReplaceQuotes(s) + "'");
      FeedCons(m, '\'', ReplaceQuotes(s) + "'");
      FeedQuoted(w, s);
    } else {
      UnquotedIsLiteral(s);
      if m.InWord? {
        FeedPlain(w, s);
      } else {
        FeedLiteral(s);
      }
    }
    assert [] + EscapedWord(s) == EscapedWord(s);
  }

  // ----- Printed arguments -----

  /** Each argument, escaped, after a space. */
  function PrintArgs(args: seq<string>): string {
    if args == [] then "" else " " + ShellEscape(args[0]) + PrintArgs(args[1..])
  }

  lemma {:induction false} JoinIsPrintArgs(args: seq<string>)
    requires args != []
    ensures " " + Join(Escaped(args), " ") == PrintArgs(args)
  {
    if |args| == 1 {
      assert PrintArgs(args[1..]) == "";
      assert " " + ShellEscape(args[0]) + "" == " " + ShellEscape(args[0]);
    } else {
      JoinIsPrintArgs(args[1..]);
      assert Escaped(args)[1..] == Escaped(args[1..]);
      assert " " + (ShellEscape(args[0]) + " " + Join(Escaped(args[1..]), " "))
          == " " + ShellEscape(args[0]) + (" " + Join(Escaped(args[1..]), " "));
    }
  }

  lemma PrintedForm(c: Command)
    ensures CommandToShellString(c) == c.program + PrintArgs(c.args)
  {
    if c.args == [] {
      assert c.program + "" == c.program;
    } else {
      JoinIsPrintArgs(c.args);
      assert c.program + " " + Join(Escaped(c.args), " ") == c.program + (" " + Join(Escaped(c.args), " "));
    }
  }

  ghost predicate HasNewline(ts: seq<Token>) {
    exists i :: 0 <= i < |ts| && ts[i] == Operator("\n")
  }

  ghost predicate AllWords(ts: seq<Token>) {
    forall i :: 0 <= i < |ts| ==> ts[i].WordToken?
  }

  lemma {:induction false} RunNewline(m: Mode, s: string)
    requires m == InOperator("\n") || m == Escaping(InOperator("\n"))
    ensures Run(m, s).Some? ==> Run(m, s).value != [] && Run(m, s).value[0] == Operator("\n")
    decreases |s|
  {
    if s == "" {
    } else {
      assert s == [s[0]] + s[1..];
      if m.InOperator? && s[0] == '\\' {
        FeedCons(m, s[0], s[1..]);
        RunNewline(Escaping(m), s[1..]);
      } else if m.Escaping? && s[0] == '\n' {
        FeedCons(m, s[0], s[1..]);
        RunNewline(m.back, s[1..]);
      }
    }
  }

  /** A comment hides everything up to a newline, which is a token of its own. */
  lemma {:induction false} RunComment(s: string)
    ensures Run(Comment, s).Some? ==> Run(Comment, s).value == [] || HasNewline(Run(Comment, s).value)
    decreases |s|
  {
    if s == "" {
    } else {
      assert s == [s[0]] + s[1..];
      FeedCons(Comment, s[0], s[1..]);
      if s[0] == '\n' {
        RunNewline(InOperator("\n"), s[1..]);
      } else {
        RunComment(s[1..]);
      }
    }
  }

  /** The outcome of reading arguments that are not each one word: no reading, a newline, or a word too few. */
  ghost predicate LosesWords(r: Option<seq<Token>>, expected: nat) {
    r.Some? ==> HasNewline(r.value) || (AllWords(r.value) && |r.value| < expected)
  }

  ghost predicate EachOneWord(args: seq<string>) {
    forall i :: 0 <= i < |args| ==> IsOneWord(args[i])
  }

  ghost predicate EachSafe(args: seq<string>) {
    forall i :: 0 <= i < |args| ==> SafeArg(args[i])
  }

  /** One more argument, escaped, after a space; s is the rest of the text. */
  lemma RunArg(m: Mode, a: string, s: string)
    requires m.Between? || m.InWord?
    ensures IsOneWord(a) ==>
            Run(m, " " + ShellEscape(a) + s) == Prepend(Finish(m).value, Run(InWord(EscapedWord(a)), s))
    ensures a == "" ==> Run(m, " " + ShellEscape(a) + s) == Prepend(Finish(m).value, Run(Between, s))
    ensures a != "" && !IsOneWord(a) ==> LosesWords(Run(m, " " + ShellEscape(a) + s), |Finish(m).value| + 1)
  {
    var base, tail := Finish(m).value, ShellEscape(a) + s;
    assert " " + ShellEscape(a) + s == " " + tail;
    FeedOne(m, ' ');
    RunAppend(m, " ", tail, Between, base);
    if IsOneWord(a) {
      FeedEscaped(Between, a);
      assert [] + EscapedWord(a) == EscapedWord(a);
      RunAppend(Between, ShellEscape(a), s, InWord(EscapedWord(a)), []);
      PrependNothing(Run(InWord(EscapedWord(a)), s));
    } else if a == "" {
      assert tail == s;
    } else {
      RunCommented(a, s);
      WordsBeforeLosses(base, Run(Between, tail), 1);
    }
  }

  lemma PrependNothing(r: Option<seq<Token>>)
    ensures Prepend([], r) == r
  {
    if r.Some? {
      assert [] + r.value == r.value;
    }
  }

  /** Words before a reading that loses words do not make up for them. */
  lemma WordsBeforeLosses(base: seq<Token>, r: Option<seq<Token>>, expected: nat)
    requires AllWords(base) && LosesWords(r, expected)
    ensures LosesWords(Prepend(base, r), |base| + expected)
  {
    if r.Some? && HasNewline(r.value) {
      var i :| 0 <= i < |r.value| && r.value[i] == Operator("\n");
      assert (base + r.value)[|base| + i] == Operator("\n");
    }
  }

  lemma RunCommented(a: string, rest: string)
    requires !NeedsQuoting(a) && a != "" && a[0] == '#'
    ensures LosesWords(Run(Between, a + rest), 1)
  {
    assert a + rest == ['#'] + (a[1..] + rest);
    FeedCons(Between, '#', a[1..] + rest);
    RunComment(a[1..] + rest);
  }

  lemma EachOneWordTail(args: seq<string>)
    requires args != []
    ensures EachOneWord(args) <==> IsOneWord(args[0]) && EachOneWord(args[1..])
  {
    assert forall i :: 0 <= i < |args[1..]| ==> args[1..][i] == args[i + 1];
  }

  lemma EscapedTokensFirst(args: seq<string>)
    ensures args == [] ==> WordTokens(EscapedWords(args)) == []
    ensures args != [] ==>
            WordTokens(EscapedWords(args)) == [WordToken(EscapedWord(args[0]))] + WordTokens(EscapedWords(args[1..]))
  {
  }

  lemma RunNothing(m: Mode)
    requires m.Between? || m.InWord?
    ensures Run(m, "") == Some(Finish(m).value + [])
  {
    assert [] + Finish(m).value == Finish(m).value == Finish(m).value + [];
  }

  /** Arguments that are each one word are recognised as those words. */
  lemma {:induction false} RunArgs(m: Mode, args: seq<string>)
    requires m.Between? || m.InWord?
    requires EachOneWord(args)
    ensures Run(m, PrintArgs(args)) == Some(Finish(m).value + WordTokens(EscapedWords(args)))
    decreases |args|
  {
    EscapedTokensFirst(args);
    if args == [] {
      RunNothing(m);
    } else {
      EachOneWordTail(args);
      RunArg(m, args[0], PrintArgs(args[1..]));
      RunArgs(InWord(EscapedWord(args[0])), args[1..]);
    }
  }

  /** Arguments that are not each one word lose a word, or more. */
  lemma {:induction false} RunArgsLosing(m: Mode, args: seq<string>)
    requires m.Between? || m.InWord?
    requires !EachOneWord(args)
    ensures LosesWords(Run(m, PrintArgs(args)), |Finish(m).value| + |args|)
    decreases |args|
  {
    var a, rest := args[0], args[1..];
    EachOneWordTail(args);
    RunArg(m, a, PrintArgs(rest));
    if IsOneWord(a) {
      RunArgsLosing(InWord(EscapedWord(a)), rest);
      WordsBeforeLosses(Finish(m).value, Run(InWord(EscapedWord(a)), PrintArgs(rest)), 1 + |rest|);
    } else if a == "" {
      if EachOneWord(rest) {
        RunArgs(Between, rest);
      } else {
        RunArgsLosing(Between, rest);
      }
      WordsTooFew(Run(Between, PrintArgs(rest)), rest);
      WordsBeforeLosses(Finish(m).value, Run(Between, PrintArgs(rest)), 1 + |rest|);
    }
  }

  lemma WordsTooFew(r: Option<seq<Token>>, args: seq<string>)
    requires r == Some([] + WordTokens(EscapedWords(args))) || LosesWords(r, |args|)
    ensures LosesWords(r, 1 + |args|)
  {
  }

  // ----- Reading a printed command -----

  lemma ExpandEscaped(s: string)
    requires IsOneWord(s)
    ensures Expand(EscapedWord(s)) == if SafeArg(s) then Some(s) else None
  {
    var w := EscapedWord(s);
    assert Text(w) == s;
    forall i | 0 <= i < |w|
      ensures !IsPattern(w[i])
    {
      if !NeedsQuoting(s) {
        assert !IsSpecial(s[i]);
      }
    }
  }

  lemma ExpandEscapedValue(s: string)
    ensures ExpandValue(EscapedWord(s)) == if SafeValue(s) then Some(s) else None
  {
    var w := EscapedWord(s);
    assert Text(w) == s;
    if !NeedsQuoting(s) && !SafeValue(s) {
      var i :| 0 <= i < |s| && s[i] == '~' && !(i > 0 && s[i - 1] != ':');
      assert Unquoted(w[i], '~') && (i == 0 || Unquoted(w[i - 1], ':'));
    }
  }

  lemma ExpandEscapedAll(args: seq<string>)
    requires EachOneWord(args)
    ensures ExpandAll(EscapedWords(args)) == if EachSafe(args) then Some(args) else None
  {
    ExpandAllCounts(EscapedWords(args));
    forall i | 0 <= i < |args|
      ensures Expand(EscapedWords(args)[i]) == if SafeArg(args[i]) then Some(args[i]) else None
    {
      ExpandEscaped(args[i]);
    }
    if EachSafe(args) {
      assert ExpandAll(EscapedWords(args)).value == args;
    }
  }

  predicate SafeValues(env: seq<(string, string)>) {
    forall i :: 0 <= i < |env| ==> SafeValue(env[i].1)
  }

  function AssignmentWord(name: string, value: string): Word {
    Mark(name + "=", false) + EscapedWord(value)
  }

  function AssignmentWords(env: seq<(string, string)>): (ws: seq<Word>)
    ensures |ws| == |env| && forall i :: 0 <= i < |env| ==> ws[i] == AssignmentWord(env[i].0, env[i].1)
  {
    seq(|env|, i requires 0 <= i < |env| => AssignmentWord(env[i].0, env[i].1))
  }

  lemma {:induction false} AssignmentIsFound(w: Word, name: string, k: nat)
    requires IsName(name) && k <= |name| && |w| > |name| && w[..|name|] == Mark(name, false)
    requires w[|name|] == Quotable('=', false)
    ensures AssignmentAt(w, k) == Some(|name|)
    decreases |name| - k
  {
    if k < |name| {
      assert w[k] == w[..|name|][k] == Quotable(name[k], false);
      AssignmentIsFound(w, name, k + 1);
    }
  }

  lemma AssignmentWordReads(name: string, value: string)
    requires IsName(name)
    ensures var w := AssignmentWord(name, value);
            && AssignmentAt(w, 0) == Some(|name|)
            && Text(w[..|name|]) == name
            && ExpandValue(w[|name| + 1..]) == if SafeValue(value) then Some(value) else None
  {
    var w := AssignmentWord(name, value);
    assert w[..|name|] == Mark(name, false) && w[|name| + 1..] == EscapedWord(value);
    AssignmentIsFound(w, name, 0);
    ExpandEscapedValue(value);
  }

  lemma AssignmentsTail(env: seq<(string, string)>, ws: seq<Word>)
    requires env != []
    ensures (AssignmentWords(env) + ws)[0] == AssignmentWord(env[0].0, env[0].1)
    ensures (AssignmentWords(env) + ws)[1..] == AssignmentWords(env[1..]) + ws
    ensures SafeValues(env) <==> SafeValue(env[0].1) && SafeValues(env[1..])
    ensures ValidNames(env) <==> IsName(env[0].0) && ValidNames(env[1..])
  {
    assert forall i :: 0 <= i < |env[1..]| ==> env[1..][i] == env[i + 1];
  }

  /** A command after assignments, when all their values are safe. */
  function Assigned(env: seq<(string, string)>, r: Option<SimpleCommand>): Option<SimpleCommand> {
    if r.None? || !SafeValues(env) then None
    else Some(SimpleCommand(env + r.value.assignments, r.value.argv))
  }

  lemma AssignedTail(env: seq<(string, string)>, r: Option<SimpleCommand>)
    ensures env == [] ==> Assigned(env, r) == r
    ensures env != [] ==> Assigned(env, r) == Assigned(env[..1], Assigned(env[1..], r))
  {
    if env == [] {
      if r.Some? {
        assert env + r.value.assignments == r.value.assignments;
      }
    } else {
      AssignmentsTail(env, []);
      if r.Some? {
        assert env[..1] + (env[1..] + r.value.assignments) == env + r.value.assignments;
      }
    }
  }

  lemma PrependAssignment(a: (string, string), ws: seq<Word>)
    requires IsName(a.0)
    ensures ParseAssigned([AssignmentWord(a.0, a.1)] + ws) == Assigned([a], ParseAssigned(ws))
  {
    var all := [AssignmentWord(a.0, a.1)] + ws;
    assert all[1..] == ws && (a.0, a.1) == a;
    assert SafeValues([a]) <==> SafeValue(a.1) by {
      assert [a][0] == a;
    }
    AssignmentWordReads(a.0, a.1);
  }

  /** Assignments before the words of a command. */
  lemma {:induction false} ParseAssignments(env: seq<(string, string)>, ws: seq<Word>)
    requires ValidNames(env)
    ensures ParseAssigned(AssignmentWords(env) + ws) == Assigned(env, ParseAssigned(ws))
    decreases |env|
  {
    AssignedTail(env, ParseAssigned(ws));
    if env == [] {
      assert AssignmentWords(env) + ws == ws;
    } else {
      var rest := AssignmentWords(env[1..]) + ws;
      AssignmentsTail(env, ws);
      assert env[..1] == [env[0]];
      assert AssignmentWords(env) + ws == [AssignmentWord(env[0].0, env[0].1)] + rest;
      PrependAssignment(env[0], rest);
      ParseAssignments(env[1..], ws);
    }
  }

  function ParseTokens(r: Option<seq<Token>>, vs: seq<Word>): Option<seq<SimpleCommand>> {
    if r.None? then None else ParseList(r.value, vs)
  }

  /** A reading that loses words is not the expected command. */
  lemma LosingIsRejected(r: Option<seq<Token>>, vs: seq<Word>, expected: nat)
    requires LosesWords(r, expected)
    ensures match ParseTokens(r, vs)
            case None => true
            case Some(cs) => |cs| == 1 && |cs[0].assignments| + |cs[0].argv| < |vs| + expected
  {
    if r.Some? {
      if HasNewline(r.value) {
        var i :| 0 <= i < |r.value| && r.value[i] == Operator("\n");
        ParseListRejects(r.value, vs, i);
      } else {
        var ws := seq(|r.value|, i requires 0 <= i < |r.value| => r.value[i].word);
        assert r.value == WordTokens(ws) + [];
        ParseListWords(ws, [], vs);
        ParseSimpleCounts(vs + ws);
      }
    }
  }

  lemma RunCommand(c: Command)
    requires PlainWord(c.program)
    ensures Run(Between, CommandToShellString(c)) == Run(InWord(Mark(c.program, false)), PrintArgs(c.args))
  {
    PrintedForm(c);
    FeedLiteral(c.program);
    RunAppend(Between, c.program, PrintArgs(c.args), InWord(Mark(c.program, false)), []);
    PrependNothing(Run(InWord(Mark(c.program, false)), PrintArgs(c.args)));
  }

  /** After the assignments, the printed command is read as those assignments and the command's own argv. */
  ghost predicate ReadsBack(c: Command, env: seq<(string, string)>) {
    ParseTokens(Run(Between, CommandToShellString(c)), AssignmentWords(env)) == Some([SimpleCommand(env, Argv(c))])
  }

  /** Everything the printer prints is safe. */
  ghost predicate PrintSafe(c: Command, env: seq<(string, string)>) {
    ProgramSafe(c.program, env != []) && ValidNames(env) && SafeValues(env) && EachSafe(c.args)
  }

  /** The text starts with a blank or a line continuation, which are no part of a word. */
  predicate StartsLate(s: string) {
    s != "" && (IsBlank(s[0]) || (|s| > 1 && s[..2] == "\\\n"))
  }

  /** The program does not start late and leave a quotation open that its arguments would continue. */
  predicate SelfContained(c: Command) {
    c.args == [] || !LeavesQuoteOpen(c.program) || !StartsLate(c.program)
  }

  /**
   The printer is faithful exactly when everything it prints is safe: a program whose characters are all
   literal, assignments to names, and values and arguments that are not empty and start no comment or tilde.
   */
  lemma CommandReadsBack(c: Command, env: seq<(string, string)>)
    ensures PrintSafe(c, env) ==> ReadsBack(c, env)
    ensures SelfContained(c) ==> (ReadsBack(c, env) <==> PrintSafe(c, env))
  {
    if ReadsBack(c, env) {
      ReadsBackNames(c, env);
    }
    if ValidNames(env) {
      if PlainWord(c.program) {
        PlainReadsBack(c, env);
      } else if SelfContained(c) {
        NotPlainFails(c, env);
      }
    }
  }

  lemma ReadsBackNames(c: Command, env: seq<(string, string)>)
    requires ReadsBack(c, env)
    ensures ValidNames(env)
  {
    var ts, vs := Run(Between, CommandToShellString(c)).value, AssignmentWords(env);
    assert ParseList(ts, vs).value[0] == SimpleCommand(env, Argv(c));
    ListNamesAreValid(ts, vs);
  }

  lemma PlainReadsBack(c: Command, env: seq<(string, string)>)
    requires PlainWord(c.program) && ValidNames(env)
    ensures ReadsBack(c, env) <==> PrintSafe(c, env)
  {
    var word, vs := Mark(c.program, false), AssignmentWords(env);
    RunCommand(c);
    SafeArgsAreWords(c.args);
    if EachOneWord(c.args) {
      var ws := [word] + EscapedWords(c.args);
      RunArgs(InWord(word), c.args);
      assert [WordToken(word)] + WordTokens(EscapedWords(c.args)) == WordTokens(ws);
      ParseOnlyWords(ws, vs);
      ParseCommandWords(c, env);
    } else {
      RunArgsLosing(InWord(word), c.args);
      LosingIsRejected(Run(InWord(word), PrintArgs(c.args)), vs, 1 + |c.args|);
    }
  }

  // ----- Programs that are not plain words -----

  lemma FirstIsOperator(ts: seq<Token>, vs: seq<Word>)
    requires ts != [] && ts[0].Operator?
    ensures ParseList(ts, vs).Some? ==> |ParseList(ts, vs).value| != 1
  {
    if ParseList(ts, vs).Some? {
      ListNamesAreValid(ts[1..], []);
    }
  }

  /** When a word comes first, a command that is read back has that word as its program. */
  lemma FirstWordIsProgram(w: Word, rest: seq<Token>, env: seq<(string, string)>, argv: seq<string>)
    requires ValidNames(env)
    requires ParseList([WordToken(w)] + rest, AssignmentWords(env)) == Some([SimpleCommand(env, argv)])
    ensures argv != [] && argv[0] == Text(w) && Expand(w).Some? && AssignmentAt(w, 0).None?
  {
    var vs, ts := AssignmentWords(env), [WordToken(w)] + rest;
    var ws := OneCommandIsWords(ts, vs);
    assert WordTokens(ws) + [] == WordTokens(ws);
    ParseListWords(ws, [], vs);
    assert ws[0] == w by {
      assert WordTokens(ws)[0] == WordToken(w);
    }
    ExpandAllCounts(ws);
    ParseAssignments(env, ws);
    if env == [] {
      assert vs + ws == ws;
    } else {
      AssignmentsTail(env, ws);
      AssignmentWordReads(env[0].0, env[0].1);
    }
    FirstAssigned(ws, env);
  }

  /** Words that follow assignments and add none start with the program. */
  lemma FirstAssigned(ws: seq<Word>, env: seq<(string, string)>)
    requires ws != []
    ensures AssignmentAt(ws[0], 0).Some? && ParseAssigned(ws).Some? ==> env + ParseAssigned(ws).value.assignments != env
    ensures AssignmentAt(ws[0], 0).None? && ParseAssigned(ws).Some? ==>
              ParseAssigned(ws).value.argv != [] && Expand(ws[0]) == Some(ParseAssigned(ws).value.argv[0])
  {
    if AssignmentAt(ws[0], 0).Some? && ParseAssigned(ws).Some? {
      assert |env + ParseAssigned(ws).value.assignments| > |env|;
    }
  }

  /** A first word with all of the program's text, read within it, shows that the program is plain. */
  lemma WholeWordIsPlain(p: string, w: Word)
    requires Feed(Between, p) == Some((InWord(w), [])) && Text(w) == p
    requires Expand(w).Some? && AssignmentAt(w, 0).None?
    ensures PlainWord(p)
  {
    assert |Text(w)| == |w|;
    FeedHoldsAll(Between, p);
    assert w == Mark(p, false) by {
      assert [] + Mark(p, false) == Mark(p, false);
    }
    forall i | 0 <= i < |p|
      ensures IsLiteral(p[i]) && p[i] != '*' && p[i] != '?' && p[i] != '['
    {
      assert !IsPattern(w[i]);
    }
    assert !Unquoted(w[0], '~');
  }

  lemma SpaceDelimits(m: Mode)
    requires m.InWord? || m.InOperator?
    ensures Step(m, ' ') == Some((Between, Finish(m).value))
  {
    var blank := StepUnquoted(Between, [], ' ');
    assert blank == Some((Between, []));
    if m.InOperator? {
      assert [Operator(m.op)] + blank.value.1 == [Operator(m.op)];
    }
  }

  /** The first token behind what the program leaves, when that is a word or an operator. */
  lemma PendingTokenFirst(m: Mode, args: seq<string>)
    requires m.InWord? || m.InOperator?
    ensures var r := Run(m, PrintArgs(args));
      r.Some? ==> r.value != [] && r.value[0] == if m.InWord? then WordToken(m.word) else Operator(m.op)
  {
    if args != [] {
      var tail := ShellEscape(args[0]) + PrintArgs(args[1..]);
      assert PrintArgs(args) == " " + tail;
      FeedOne(m, ' ');
      SpaceDelimits(m);
      RunAppend(m, " ", tail, Between, Finish(m).value);
    }
  }

  /** A word has been started. */
  predicate InAWord(m: Mode) {
    m.InWord? || m.SingleQuoted? || m.DoubleQuoted? || (m.Escaping? && (m.back.InWord? || m.back.DoubleQuoted?))
  }

  function WordIn(m: Mode): Word
    requires InAWord(m)
  {
    if m.Escaping? then m.back.word else m.word
  }

  /** The word has at most n characters, and fewer inside a quotation, whose start is none of them. */
  predicate Lags(m: Mode, n: nat)
    requires InAWord(m)
  {
    if m.InWord? then |m.word| <= n
    else if m.Escaping? && m.back.DoubleQuoted? then |WordIn(m)| + 1 < n
    else |WordIn(m)| < n
  }

  lemma StepInWord(m: Mode, c: char, n: nat)
    requires InAWord(m) && Lags(m, n) && Step(m, c).Some? && Step(m, c).value.1 == []
    ensures var next := Step(m, c).value.0;
      && InAWord(next) && Lags(next, n + 1) && WordIn(m) <= WordIn(next)
      && (c == ' ' ==> exists i :: 0 <= i < |WordIn(next)| && i < n && WordIn(next)[i].c == ' ')
  {
    var next := Step(m, c).value.0;
    assert WordIn(m) <= WordIn(next);
    if c == ' ' {
      assert WordIn(next)[|WordIn(next)| - 1].c == ' ';
    }
  }

  lemma {:induction false} WordGrows(m: Mode, s: string, n: nat)
    requires InAWord(m) && Lags(m, n) && Feed(m, s).Some? && Feed(m, s).value.1 == []
    ensures InAWord(Feed(m, s).value.0) && Lags(Feed(m, s).value.0, n + |s|) && WordIn(m) <= WordIn(Feed(m, s).value.0)
    decreases |s|
  {
    if s == "" {
    } else {
      StepInWord(m, s[0], n);
      WordGrows(Step(m, s[0]).value.0, s[1..], n + 1);
    }
  }

  /** A text whose word so far is a beginning of the text itself has no space, if it has none up to j. */
  lemma {:induction false} NoSpaceCopied(m: Mode, p: string, j: nat)
    requires 0 < j <= |p| && InAWord(m) && Lags(m, j) && ' ' !in p[..j]
    requires Feed(m, p[j..]).Some? && Feed(m, p[j..]).value.1 == []
    requires InAWord(Feed(m, p[j..]).value.0) && Text(WordIn(Feed(m, p[j..]).value.0)) <= p
    ensures ' ' !in p
    decreases |p| - j
  {
    if j < |p| {
      var c, last := p[j], Feed(m, p[j..]).value.0;
      var next := Step(m, c).value.0;
      assert p[j..][1..] == p[j + 1..];
      StepInWord(m, c, j);
      WordGrows(next, p[j + 1..], j + 1);
      assert c != ' ' by {
        assert forall i :: 0 <= i < |WordIn(next)| ==> Text(WordIn(last))[i] == WordIn(next)[i].c;
      }
      assert p[..j + 1] == p[..j] + [c];
      NoSpaceCopied(next, p, j + 1);
    } else {
      assert p[..j] == p;
    }
  }

  /** A started word is the first token, and has what was read of it. */
  lemma {:induction false} FirstTokenExtends(m: Mode, s: string) returns (w: Word)
    requires InAWord(m) && Run(m, s).Some?
    ensures Run(m, s).value != [] && Run(m, s).value[0] == WordToken(w) && WordIn(m) <= w
    decreases |s|
  {
    if s == "" {
      w := m.word;
    } else {
      var (next, ts) := Step(m, s[0]).value;
      if ts == [] {
        StepInWord(m, s[0], |WordIn(m)| + 2);
        w := FirstTokenExtends(next, s[1..]);
        assert [] + Feed(next, s[1..]).value.1 == Feed(next, s[1..]).value.1;
      } else {
        w := m.word;
      }
    }
  }

  /** Outside words: in a comment or an operator, until the next token is delimited. */
  predicate OutsideWords(m: Mode) {
    m.Comment? || m.InOperator? || (m.Escaping? && m.back.InOperator?)
  }

  lemma {:induction false} StaysOutside(m: Mode, s: string)
    requires OutsideWords(m) && Feed(m, s).Some? && Feed(m, s).value.1 == []
    ensures OutsideWords(Feed(m, s).value.0)
    decreases |s|
  {
    if s == "" {
    } else {
      StaysOutside(Step(m, s[0]).value.0, s[1..]);
    }
  }

  /** A program that leaves a quotation open, and begins with the word so far, has no space. */
  lemma OpenProgramHasNoSpace(p: string, m: Mode)
    requires Feed(Between, p) == Some((m, [])) && !OutsideWords(m) && !m.Between? && !StartsLate(p)
    requires InAWord(m) ==> Text(WordIn(m)) <= p
    ensures ' ' !in p
  {
    var next := Step(Between, p[0]).value.0;
    if OutsideWords(next) {
      StaysOutside(next, p[1..]);
    } else if next.Escaping? {
      if |p| > 1 {
        EscapedStart(p, m);
      }
    } else {
      assert InAWord(next) && Lags(next, 1) && p[..1] == [p[0]];
      WordGrows(next, p[1..], 1);
      NoSpaceCopied(next, p, 1);
    }
  }

  lemma EscapedStart(p: string, m: Mode)
    requires |p| > 1 && p[0] == '\\' && Feed(Between, p) == Some((m, [])) && !StartsLate(p)
    requires InAWord(m) ==> Text(WordIn(m)) <= p
    ensures ' ' !in p
  {
    var next, w := Escaping(Between), [Quotable(p[1], true)];
    assert p[1] != '\n' by {
      assert p[..2] == [p[0], p[1]];
    }
    assert p[1..][0] == p[1] && p[1..][1..] == p[2..];
    assert Feed(InWord(w), p[2..]) == Some((m, []));
    WordGrows(InWord(w), p[2..], 2);
    assert WordIn(m)[0] == w[0] && Text(WordIn(m))[0] == p[1];
    assert p[..2] == [p[0], p[1]];
    NoSpaceCopied(InWord(w), p, 2);
  }

  /** The word in which a quotation takes in the space before the first argument. */
  lemma SpaceIsTakenIn(m: Mode, tail: string) returns (w: Word)
    requires (m.SingleQuoted? || m.DoubleQuoted? || m.Escaping?) && !OutsideWords(m)
             && (m.Escaping? ==> InAWord(m) || m.back.Between?)
    requires Run(m, [' '] + tail).Some?
    ensures Run(m, [' '] + tail).value != [] && Run(m, [' '] + tail).value[0] == WordToken(w)
    ensures ' ' in Text(w) && (InAWord(m) ==> WordIn(m) <= w)
  {
    var next := Step(m, ' ').value.0;
    assert InAWord(next) && (InAWord(m) ==> WordIn(m) <= WordIn(next));
    FeedCons(m, ' ', tail);
    w := FirstTokenExtends(next, tail);
    var i := |WordIn(next)| - 1;
    assert WordIn(next)[i].c == ' ' && Text(w)[i] == ' ';
  }

  /** An open quotation takes in the space before the first argument. */
  lemma OpenQuoteFails(c: Command, env: seq<(string, string)>, m: Mode)
    requires ValidNames(env) && c.args != [] && !StartsLate(c.program)
    requires Feed(Between, c.program) == Some((m, [])) && (m.SingleQuoted? || m.DoubleQuoted? || m.Escaping?)
    requires m.Escaping? ==> InAWord(m) || m.back.Between? || m.back.InOperator?
    requires Run(Between, CommandToShellString(c)) == Run(m, PrintArgs(c.args))
    ensures !ReadsBack(c, env)
  {
    hide Feed, Run, StepUnquoted, Step, StartsLate;
    var p, tail := c.program, ShellEscape(c.args[0]) + PrintArgs(c.args[1..]);
    if ReadsBack(c, env) {
      assert PrintArgs(c.args) == [' '] + tail;
      var all := Run(m, PrintArgs(c.args)).value;
      if OutsideWords(m) {
        EscapedOperatorFirst(m, tail);
        FirstIsOperator(all, AssignmentWords(env));
        assert false;
      } else {
        var w := SpaceIsTakenIn(m, tail);
        assert all == [WordToken(w)] + all[1..];
        FirstWordIsProgram(w, all[1..], env, Argv(c));
        assert InAWord(m) ==> Text(WordIn(m)) <= p;
        OpenProgramHasNoSpace(p, m);
        assert false;
      }
    }
  }

  lemma EscapedOperatorFirst(m: Mode, tail: string)
    requires m.Escaping? && m.back.InOperator? && Run(m, [' '] + tail).Some?
    ensures Run(m, [' '] + tail).value != [] && Run(m, [' '] + tail).value[0].Operator?
  {
    var next := InWord([Quotable(' ', true)]);
    assert Feed(m, [' ']) == Some((next, [Operator(m.back.op)])) by {
      FeedOne(m, ' ');
    }
    RunAppend(m, [' '], tail, next, [Operator(m.back.op)]);
  }

  /** A backslash is read in a word, in double quotes, between tokens or in an operator. */
  lemma {:induction false} EscapesSomewhere(m: Mode, s: string)
    requires m.Escaping? ==> InAWord(m) || m.back.Between? || m.back.InOperator?
    requires Feed(m, s).Some?
    ensures var last := Feed(m, s).value.0;
      last.Escaping? ==> InAWord(last) || last.back.Between? || last.back.InOperator?
    decreases |s|
  {
    if s == "" {
    } else {
      EscapesSomewhere(Step(m, s[0]).value.0, s[1..]);
    }
  }

  lemma NotPlainFails(c: Command, env: seq<(string, string)>)
    requires !PlainWord(c.program) && ValidNames(env) && SelfContained(c)
    ensures !ReadsBack(c, env)
  {
    var p, vs, args := c.program, AssignmentWords(env), c.args;
    PrintedForm(c);
    FeedAppend(Between, p, PrintArgs(args));
    if Feed(Between, p).Some? {
      var (m, ts) := Feed(Between, p).value;
      RunAppend(Between, p, PrintArgs(args), m, ts);
      if ts != [] {
        DelimitedFails(c, env, m, ts);
      } else if LeavesQuoteOpen(p) && args == [] {
        assert PrintArgs(args) == "";
      } else if LeavesQuoteOpen(p) {
        PrependNothing(Run(m, PrintArgs(args)));
        EscapesSomewhere(Between, p);
        OpenQuoteFails(c, env, m);
      } else {
        PrependNothing(Run(m, PrintArgs(args)));
        UndelimitedFails(c, env, m);
      }
    }
  }

  /** A program that a delimiter cuts short. */
  lemma DelimitedFails(c: Command, env: seq<(string, string)>, m: Mode, ts: seq<Token>)
    requires Feed(Between, c.program) == Some((m, ts)) && ts != [] && ValidNames(env)
    requires Run(Between, CommandToShellString(c)) == Prepend(ts, Run(m, PrintArgs(c.args)))
    ensures !ReadsBack(c, env)
  {
    if ReadsBack(c, env) {
      var all := Run(Between, CommandToShellString(c)).value;
      assert all[0] == ts[0];
      if ts[0].Operator? {
        FirstIsOperator(all, AssignmentWords(env));
        assert false;
      } else {
        assert all == [WordToken(ts[0].word)] + all[1..];
        FeedHolds(Between, c.program);
        assert |Text(ts[0].word)| < |c.program|;
        FirstWordIsProgram(ts[0].word, all[1..], env, Argv(c));
        assert false;
      }
    }
  }

  lemma UndelimitedFails(c: Command, env: seq<(string, string)>, m: Mode)
    requires !PlainWord(c.program) && ValidNames(env)
    requires Feed(Between, c.program) == Some((m, [])) && !LeavesQuoteOpen(c.program)
    requires Run(Between, CommandToShellString(c)) == Run(m, PrintArgs(c.args))
    ensures !ReadsBack(c, env)
  {
    var args, r := c.args, Run(m, PrintArgs(c.args));
    match m
    case InWord(w) =>
      PendingTokenFirst(m, args);
      if ReadsBack(c, env) {
        assert r.value == [WordToken(w)] + r.value[1..];
        FirstWordIsProgram(w, r.value[1..], env, Argv(c));
        WholeWordIsPlain(c.program, w);
        assert false;
      }
    case InOperator(op) =>
      PendingTokenFirst(m, args);
      if r.Some? {
        FirstIsOperator(r.value, AssignmentWords(env));
      }
    case Comment =>
      RunComment(PrintArgs(args));
      LosingIsRejected(r, AssignmentWords(env), 1);
    case Between =>
      if EachOneWord(args) {
        RunArgs(m, args);
      } else {
        RunArgsLosing(m, args);
      }
      WordsTooFew(r, args);
      LosingIsRejected(r, AssignmentWords(env), 1 + |args|);
    case _ =>
  }

  /** A program without arguments is read back exactly when it is a plain word and not reserved. */
  lemma ProgramReadsBack(p: string)
    ensures Interpret(CommandToShellString(Command(p, [], map[], None))) == Some([SimpleCommand([], [p])]) <==>
            ProgramSafe(p, false)
  {
    var c := Command(p, [], map[], None);
    CommandReadsBack(c, []);
    assert AssignmentWords([]) == [] && Argv(c) == [p];
  }

  /** Programs that the printer does not preserve. */
  lemma UnsafePrograms()
    ensures forall p :: p in ["my tool", "a;b", "if"] ==>
              Interpret(CommandToShellString(Command(p, [], map[], None))) != Some([SimpleCommand([], [p])])
  {
    hide Interpret, CommandToShellString;
    forall p | p in ["my tool", "a;b", "if"]
      ensures Interpret(CommandToShellString(Command(p, [], map[], None))) != Some([SimpleCommand([], [p])])
    {
      ProgramReadsBack(p);
      assert !IsLiteral("my tool"[2]) && !IsLiteral("a;b"[1]);
    }
  }

  lemma ParseOnlyWords(ws: seq<Word>, vs: seq<Word>)
    ensures ParseTokens(Some(WordTokens(ws)), vs) ==
            if ParseSimple(vs + ws).None? then None else Some([ParseSimple(vs + ws).value])
  {
    assert WordTokens(ws) + [] == WordTokens(ws);
    ParseListWords(ws, [], vs);
  }

  lemma ParseCommandWords(c: Command, env: seq<(string, string)>)
    requires PlainWord(c.program) && ValidNames(env) && EachOneWord(c.args)
    ensures ParseSimple(AssignmentWords(env) + ([Mark(c.program, false)] + EscapedWords(c.args))) ==
            if PrintSafe(c, env) then Some(SimpleCommand(env, Argv(c))) else None
  {
    var vs, ws := AssignmentWords(env), [Mark(c.program, false)] + EscapedWords(c.args);
    ExpandPlain(c.program);
    ExpandEscapedAll(c.args);
    assert ws[1..] == EscapedWords(c.args);
    assert Text(ws[0]) == c.program;
    ParseAssignments(env, ws);
    assert env + [] == env;
    if env == [] {
      assert vs + ws == ws;
    } else {
      AssignmentsTail(env, ws);
      AssignmentWordReads(env[0].0, env[0].1);
    }
  }

  lemma ExpandPlain(s: string)
    requires PlainWord(s)
    ensures Expand(Mark(s, false)) == Some(s)
  {
    var w := Mark(s, false);
    assert Text(w) == s && !Unquoted(w[0], '~');
    forall i | 0 <= i < |w|
      ensures !IsPattern(w[i])
    {
      assert w[i] == Quotable(s[i], false);
    }
  }

  lemma SafeArgsAreWords(args: seq<string>)
    ensures EachSafe(args) ==> EachOneWord(args)
  {
  }

  // ----- Names as programs -----

  lemma NamesAreUnquoted(name: string)
    requires IsName(name)
    ensures !NeedsQuoting(name) && IsOneWord(name)
  {
    forall i | 0 <= i < |name|
      ensures !IsWhitespace(name[i]) && !IsSpecial(name[i])
    {
      assert IsNameChar(name[i]);
    }
  }

  lemma {:induction false} NamesAreNotAssignments(name: string, k: nat)
    requires '=' !in name
    ensures AssignmentAt(Mark(name, false), k).None?
    decreases |name| - k
  {
    if k < |name| {
      assert Mark(name, false)[k].c == name[k];
      NamesAreNotAssignments(name, k + 1);
    }
  }

  lemma NamesArePlain(name: string)
    requires IsName(name)
    ensures PlainWord(name) && !LeavesQuoteOpen(name)
  {
    NamesAreUnquoted(name);
    UnquotedIsLiteral(name);
    assert IsNameChar(name[0]);
    FeedLiteral(name);
    forall i | 0 <= i < |name|
      ensures name[i] != '*' && name[i] != '?' && name[i] != '['
    {
      assert IsNameChar(name[i]);
    }
    assert '=' !in name by {
      assert forall i :: 0 <= i < |name| ==> IsNameChar(name[i]);
    }
    NamesAreNotAssignments(name, 0);
  }

  /** Three arguments that the printer does not preserve. */
  lemma UnsafeArguments()
    ensures !SafeArg("") && !SafeArg("#") && !SafeArg("~")
    ensures forall a :: a in ["", "#", "~"] ==>
              Interpret(CommandToShellString(Command("ls", [a], map[], None))) != Some([SimpleCommand([], ["ls", a])])
  {
    forall a | a in ["", "#", "~"]
      ensures Interpret(CommandToShellString(Command("ls", [a], map[], None))) != Some([SimpleCommand([], ["ls", a])])
    {
      var c := Command("ls", [a], map[], None);
      NamesArePlain("ls");
      PlainReadsBack(c, []);
      assert c.args[0] == a && !SafeArg(a) && Argv(c) == ["ls", a];
      assert AssignmentWords([]) == [];
    }
  }
}
