/**
 A reader of shell command lines: token recognition and quoting as in sections 2.2 and 2.3 of the
 Shell Command Language volume of IEEE Std 1003.1-2017, then the simple commands of an `&&` list.
 A text whose meaning depends on the shell's surroundings (a parameter, command, tilde or pathname
 expansion) or that uses other grammar has no reading: the result is None.
 */
module Shell {
  import opened Common

  /** A character of a word, and whether a quoting mechanism protected it. */
  datatype Quotable = Quotable(c: char, quoted: bool)

  type Word = seq<Quotable>

  datatype Token = WordToken(word: Word) | Operator(text: string)

  function Mark(s: string, quoted: bool): (w: Word)
    ensures |w| == |s| && forall i :: 0 <= i < |s| ==> w[i] == Quotable(s[i], quoted)
  {
    seq(|s|, i requires 0 <= i < |s| => Quotable(s[i], quoted))
  }

  /** Quote removal (section 2.6.7). */
  function Text(w: Word): (s: string)
    ensures |s| == |w| && forall i :: 0 <= i < |w| ==> s[i] == w[i].c
  {
    seq(|w|, i requires 0 <= i < |w| => w[i].c)
  }

  // ----- Token recognition (section 2.3) -----

  predicate StartsOperator(c: char) {
    c == '&' || c == '|' || c == ';' || c == '(' || c == ')' || c == '\n' || c == '<' || c == '>'
  }

  /** Whether op followed by c is again an operator. */
  predicate ContinuesOperator(op: string, c: char) {
    || (op == "&" && c == '&')
    || (op == "|" && c == '|')
    || (op == ";" && c == ';')
    || (op == "<" && (c == '<' || c == '>' || c == '&'))
    || (op == ">" && (c == '>' || c == '|' || c == '&'))
    || (op == "<<" && c == '-')
  }

  datatype Mode =
    | Between                  // no token started
    | InWord(word: Word)
    | SingleQuoted(word: Word)
    | DoubleQuoted(word: Word)
    | Escaping(back: Mode)     // just after a backslash
    | InOperator(op: string)
    | Comment

  predicate IsBlank(c: char) {
    c == ' ' || c == '\t'
  }

  /** The mode after one character, and the tokens it delimits. */
  function Step(m: Mode, c: char): Option<(Mode, seq<Token>)> {
    match m
    case Between => if c == '#' then Some((Comment, [])) else StepUnquoted(m, [], c)
    case InWord(w) => StepUnquoted(m, w, c)
    case SingleQuoted(w) => Some((if c == '\'' then InWord(w) else SingleQuoted(w + [Quotable(c, true)]), []))
    case DoubleQuoted(w) =>
      if c == '\"' then Some((InWord(w), []))
      else if c == '\\' then Some((Escaping(m), []))
      else if c == '$' || c == '`' then None
      else Some((DoubleQuoted(w + [Quotable(c, true)]), []))
    case Escaping(back) =>
      Some((StepEscaped(back, c), if back.InOperator? && c != '\n' then [Operator(back.op)] else []))
    case InOperator(op) =>
      if c == '\\' then Some((Escaping(m), []))
      else if ContinuesOperator(op, c) then Some((InOperator(op + [c]), []))
      else if c == '#' then Some((Comment, [Operator(op)]))
      else (match StepUnquoted(Between, [], c)
            case None => None
            case Some((next, ts)) => Some((next, [Operator(op)] + ts)))
    case Comment => Some((if c == '\n' then InOperator("\n") else Comment, []))
  }

  /** An unquoted character, outside operators and comments; w is the word so far. */
  function StepUnquoted(m: Mode, w: Word, c: char): Option<(Mode, seq<Token>)> {
    var ended := if m.InWord? then [WordToken(w)] else [];
    if c == '\\' then Some((Escaping(m), []))
    else if c == '\'' then Some((SingleQuoted(w), []))
    else if c == '\"' then Some((DoubleQuoted(w), []))
    else if c == '$' || c == '`' then None
    else if StartsOperator(c) then Some((InOperator([c]), ended))
    else if IsBlank(c) then Some((Between, ended))
    else Some((InWord(w + [Quotable(c, false)]), []))
  }

  /** A character that adds itself to a word. */
  predicate IsLiteral(c: char) {
    && c != '\\' && c != '\'' && c != '\"' && c != '$' && c != '`'
    && !StartsOperator(c) && !IsBlank(c)
  }

  /** The character after a backslash (section 2.2.1, and 2.2.3 within double quotes). */
  function StepEscaped(back: Mode, c: char): Mode {
    match back
    case InWord(w) => if c == '\n' then back else InWord(w + [Quotable(c, true)])
    case DoubleQuoted(w) =>
      if c == '\n' then back
      else if c == '$' || c == '`' || c == '\"' || c == '\\' then DoubleQuoted(w + [Quotable(c, true)])
      else DoubleQuoted(w + [Quotable('\\', true), Quotable(c, true)])
    case _ => if c == '\n' then back else InWord([Quotable(c, true)])
  }

  function Feed(m: Mode, s: string): Option<(Mode, seq<Token>)>
    decreases |s|
  {
    if s == "" then Some((m, []))
    else match Step(m, s[0])
         case None => None
         case Some((next, ts)) =>
           match Feed(next, s[1..])
           case None => None
           case Some((last, us)) => Some((last, ts + us))
  }

  /** The tokens delimited by the end of the input. */
  function Finish(m: Mode): Option<seq<Token>> {
    match m
    case Between => Some([])
    case Comment => Some([])
    case InWord(w) => Some([WordToken(w)])
    case InOperator(op) => Some([Operator(op)])
    case _ => None
  }

  function Run(m: Mode, s: string): Option<seq<Token>> {
    match Feed(m, s)
    case None => None
    case Some((last, ts)) =>
      match Finish(last)
      case None => None
      case Some(us) => Some(ts + us)
  }

  // ----- Simple commands (section 2.9.1) joined by && (section 2.9.3) -----

  datatype SimpleCommand = SimpleCommand(assignments: seq<(string, string)>, argv: seq<string>)

  const RESERVED_WORDS: set<string> := {
    "!", "{", "}", "case", "do", "done", "elif", "else", "esac", "fi", "for", "if", "in", "then", "until", "while"
  }

  predicate IsNameStart(c: char) {
    'a' <= c <= 'z' || 'A' <= c <= 'Z' || c == '_'
  }

  predicate IsNameChar(c: char) {
    IsNameStart(c) || '0' <= c <= '9'
  }

  predicate IsName(s: string) {
    s != "" && IsNameStart(s[0]) && forall i :: 0 <= i < |s| ==> IsNameChar(s[i])
  }

  /** The position of the `=` of an assignment word, looking from k on. */
  function AssignmentAt(w: Word, k: nat): (r: Option<nat>)
    ensures r.Some? ==> k <= r.value < |w|
    decreases |w| - k
  {
    if k >= |w| || w[k].quoted then None
    else if w[k].c == '=' then (if k > 0 then Some(k) else None)
    else if IsNameStart(w[k].c) || (k > 0 && IsNameChar(w[k].c)) then AssignmentAt(w, k + 1)
    else None
  }

  predicate Unquoted(q: Quotable, c: char) {
    q == Quotable(c, false)
  }

  /** An unquoted character of a pathname pattern (section 2.13). */
  predicate IsPattern(q: Quotable) {
    Unquoted(q, '*') || Unquoted(q, '?') || Unquoted(q, '[')
  }

  /** The one field a word expands to, when no expansion can change it (section 2.6). */
  function Expand(w: Word): Option<string> {
    if (w != [] && Unquoted(w[0], '~')) || exists i :: 0 <= i < |w| && IsPattern(w[i]) then None
    else Some(Text(w))
  }

  /** The value of an assignment, where tildes also expand after a colon (section 2.6.1). */
  function ExpandValue(w: Word): Option<string> {
    if exists i :: 0 <= i < |w| && Unquoted(w[i], '~') && (i == 0 || Unquoted(w[i - 1], ':')) then None
    else Some(Text(w))
  }

  function ExpandAll(ws: seq<Word>): Option<seq<string>> {
    if ws == [] then Some([])
    else match (Expand(ws[0]), ExpandAll(ws[1..]))
         case (Some(s), Some(ss)) => Some([s] + ss)
         case _ => None
  }

  function ParseSimple(ws: seq<Word>): Option<SimpleCommand> {
    if ws == [] then None
    else if AssignmentAt(ws[0], 0).Some? then ParseAssigned(ws)
    else if ws[0] == Mark(Text(ws[0]), false) && Text(ws[0]) in RESERVED_WORDS then None
    else match ExpandAll(ws)
         case None => None
         case Some(argv) => Some(SimpleCommand([], argv))
  }

  /** A command whose first word is an assignment, or the words after such an assignment. */
  function ParseAssigned(ws: seq<Word>): Option<SimpleCommand> {
    if ws == [] || AssignmentAt(ws[0], 0).None? then
      match ExpandAll(ws)
      case None => None
      case Some(argv) => Some(SimpleCommand([], argv))
    else
      var k := AssignmentAt(ws[0], 0).value;
      match (ExpandValue(ws[0][k + 1..]), ParseAssigned(ws[1..]))
      case (Some(v), Some(c)) => Some(SimpleCommand([(Text(ws[0][..k]), v)] + c.assignments, c.argv))
      case _ => None
  }

  function ParseList(ts: seq<Token>, ws: seq<Word>): Option<seq<SimpleCommand>> {
    if ts == [] then
      match ParseSimple(ws)
      case None => None
      case Some(c) => Some([c])
    else match ts[0]
         case WordToken(w) => ParseList(ts[1..], ws + [w])
         case Operator(op) =>
           if op != "&&" then None
           else match (ParseSimple(ws), ParseList(ts[1..], []))
                case (Some(c), Some(cs)) => Some([c] + cs)
                case _ => None
  }

  /** The commands a shell runs for the text. */
  function Interpret(s: string): Option<seq<SimpleCommand>> {
    match Run(Between, s)
    case None => None
    case Some(ts) => ParseList(ts, [])
  }

  // ----- Reading a text piece by piece -----

  lemma {:induction false} FeedAppend(m: Mode, a: string, b: string)
    ensures Feed(m, a + b) ==
            match Feed(m, a) {
              case None => None
              case Some((mid, ts)) =>
                match Feed(mid, b) {
                  case None => None
                  case Some((last, us)) => Some((last, ts + us))
                }
            }
    decreases |a|
  {
    if a == "" {
      assert a + b == b;
      if Feed(m, b).Some? {
        assert [] + Feed(m, b).value.1 == Feed(m, b).value.1;
      }
    } else {
      assert (a + b)[1..] == a[1..] + b;
      match Step(m, a[0]) {
        case None =>
        case Some((next, ts)) =>
          FeedAppend(next, a[1..], b);
          match Feed(next, a[1..]) {
            case None =>
            case Some((mid, us)) =>
              match Feed(mid, b) {
                case None =>
                case Some((last, vs)) => assert (ts + us) + vs == ts + (us + vs);
              }
          }
      }
    }
  }

  /** Two texts read one after the other. */
  lemma FeedThen(m: Mode, a: string, mid: Mode, ts: seq<Token>, b: string, last: Mode, us: seq<Token>)
    requires Feed(m, a) == Some((mid, ts)) && Feed(mid, b) == Some((last, us))
    ensures Feed(m, a + b) == Some((last, ts + us))
  {
    FeedAppend(m, a, b);
  }

  /** One character read before a text. */
  lemma FeedFirst(m: Mode, c: char, mid: Mode, ts: seq<Token>, b: string, last: Mode, us: seq<Token>)
    requires Step(m, c) == Some((mid, ts)) && Feed(mid, b) == Some((last, us))
    ensures Feed(m, [c] + b) == Some((last, ts + us))
  {
    assert ([c] + b)[1..] == b;
  }

  function Prepend(ts: seq<Token>, r: Option<seq<Token>>): Option<seq<Token>> {
    if r.None? then None else Some(ts + r.value)
  }

  /** What a text's tokens are, once its beginning has been read. */
  lemma RunAppend(m: Mode, a: string, b: string, mid: Mode, ts: seq<Token>)
    requires Feed(m, a) == Some((mid, ts))
    ensures Run(m, a + b) == Prepend(ts, Run(mid, b))
  {
    FeedAppend(m, a, b);
    match Feed(mid, b) {
      case None =>
      case Some((last, us)) =>
        if Finish(last).Some? {
          assert (ts + us) + Finish(last).value == ts + (us + Finish(last).value);
        }
    }
  }

  /** Words and && operators, grouped as the parser groups them. */
  lemma {:induction false} ParseListWords(ws: seq<Word>, ts: seq<Token>, vs: seq<Word>)
    ensures ParseList(WordTokens(ws) + ts, vs) == ParseList(ts, vs + ws)
    decreases |ws|
  {
    if ws == [] {
      assert WordTokens(ws) + ts == ts && vs + ws == vs;
    } else {
      var all := WordTokens(ws) + ts;
      assert all[1..] == WordTokens(ws[1..]) + ts;
      ParseListWords(ws[1..], ts, vs + [ws[0]]);
      assert (vs + [ws[0]]) + ws[1..] == vs + ws;
    }
  }

  function WordTokens(ws: seq<Word>): (ts: seq<Token>)
    ensures |ts| == |ws| && forall i :: 0 <= i < |ws| ==> ts[i] == WordToken(ws[i])
  {
    seq(|ws|, i requires 0 <= i < |ws| => WordToken(ws[i]))
  }

  /** A list with an operator other than && has no reading. */
  lemma {:induction false} ParseListRejects(ts: seq<Token>, ws: seq<Word>, i: nat)
    requires i < |ts| && ts[i].Operator? && ts[i].text != "&&"
    ensures ParseList(ts, ws).None?
    decreases |ts|
  {
    if i > 0 {
      match ts[0] {
        case WordToken(w) => ParseListRejects(ts[1..], ws + [w], i - 1);
        case Operator(op) => ParseListRejects(ts[1..], [], i - 1);
      }
    }
  }

  lemma {:induction false} ExpandAllCounts(ws: seq<Word>)
    ensures ExpandAll(ws).Some? ==> |ExpandAll(ws).value| == |ws|
    ensures ExpandAll(ws).Some? <==> forall i :: 0 <= i < |ws| ==> Expand(ws[i]).Some?
    ensures ExpandAll(ws).Some? ==> forall i :: 0 <= i < |ws| ==> ExpandAll(ws).value[i] == Expand(ws[i]).value
  {
    if ws == [] {
    } else {
      ExpandAllCounts(ws[1..]);
      assert forall i :: 1 <= i < |ws| ==> ws[i] == ws[1..][i - 1];
    }
  }

  lemma {:induction false} ParseAssignedCounts(ws: seq<Word>)
    ensures ParseAssigned(ws).Some? ==> |ParseAssigned(ws).value.assignments| + |ParseAssigned(ws).value.argv| == |ws|
    decreases |ws|
  {
    ExpandAllCounts(ws);
    if ws != [] && AssignmentAt(ws[0], 0).Some? {
      ParseAssignedCounts(ws[1..]);
    }
  }

  /** No word of a simple command is lost or split. */
  lemma ParseSimpleCounts(ws: seq<Word>)
    ensures ParseSimple(ws).Some? ==> |ParseSimple(ws).value.assignments| + |ParseSimple(ws).value.argv| == |ws|
  {
    ParseAssignedCounts(ws);
    ExpandAllCounts(ws);
  }

  // ----- Assignments are to names -----

  predicate ValidNames(env: seq<(string, string)>) {
    forall i :: 0 <= i < |env| ==> IsName(env[i].0)
  }

  lemma {:induction false} AssignmentFollowsName(w: Word, k: nat)
    requires AssignmentAt(w, k).Some?
    ensures var end := AssignmentAt(w, k).value;
      && end > 0
      && (forall i :: k <= i < end ==> IsNameChar(w[i].c))
      && (k == 0 ==> IsNameStart(w[0].c))
    decreases |w| - k
  {
    if w[k].c != '=' {
      AssignmentFollowsName(w, k + 1);
    }
  }

  lemma {:induction false} AssignedNamesAreValid(ws: seq<Word>)
    requires ParseAssigned(ws).Some?
    ensures ValidNames(ParseAssigned(ws).value.assignments)
    decreases |ws|
  {
    if ws != [] && AssignmentAt(ws[0], 0).Some? {
      AssignmentFollowsName(ws[0], 0);
      AssignedNamesAreValid(ws[1..]);
    }
  }

  /** Whatever the text, the shell assigns to names only. */
  lemma {:induction false} ListNamesAreValid(ts: seq<Token>, ws: seq<Word>)
    requires ParseList(ts, ws).Some?
    ensures ParseList(ts, ws).value != []
    ensures forall i :: 0 <= i < |ParseList(ts, ws).value| ==> ValidNames(ParseList(ts, ws).value[i].assignments)
    decreases |ts|
  {
    if ParseSimple(ws).Some? && AssignmentAt(ws[0], 0).Some? {
      AssignedNamesAreValid(ws);
    }
    if ts == [] {
    } else {
      match ts[0] {
        case WordToken(w) => ListNamesAreValid(ts[1..], ws + [w]);
        case Operator(_) => ListNamesAreValid(ts[1..], []);
      }
    }
  }

  /** A list that is one command has no operators. */
  lemma {:induction false} OneCommandIsWords(ts: seq<Token>, vs: seq<Word>) returns (ws: seq<Word>)
    requires ParseList(ts, vs).Some? && |ParseList(ts, vs).value| == 1
    ensures ts == WordTokens(ws)
    decreases |ts|
  {
    if ts == [] {
      ws := [];
    } else {
      match ts[0] {
        case WordToken(w) =>
          var rest := OneCommandIsWords(ts[1..], vs + [w]);
          ws := [w] + rest;
          assert ts == [ts[0]] + ts[1..];
        case Operator(_) =>
          ListNamesAreValid(ts[1..], []);
          assert false;
      }
    }
  }

  // ----- What reading loses -----

  /** How many characters the word being read has, counting a backslash that double quotes may keep. */
  function Held(m: Mode): nat {
    match m
    case InWord(w) => |w|
    case SingleQuoted(w) => |w|
    case DoubleQuoted(w) => |w|
    case Escaping(back) => Held(back) + if back.DoubleQuoted? then 1 else 0
    case _ => 0
  }

  /** The word that is being read outside quotation. */
  function WordOf(m: Mode): Word {
    if m.InWord? then m.word else []
  }

  ghost predicate AllLiteral(s: string) {
    forall i :: 0 <= i < |s| ==> IsLiteral(s[i])
  }

  lemma StepHolds(m: Mode, c: char)
    requires Step(m, c).Some?
    ensures var (next, ts) := Step(m, c).value;
      && (ts == [] ==> Held(next) <= Held(m) + 1)
      && (ts != [] && ts[0].WordToken? ==> |ts[0].word| == Held(m))
      && ((m.InWord? || m.Between?) && ts == [] && Held(next) == Held(m) + 1 ==>
            IsLiteral(c) && next == InWord(WordOf(m) + [Quotable(c, false)]) && (m.Between? ==> c != '#'))
  {
  }

  /**
   A reading without a delimiter adds at most the text's characters to the word; all of them only if each is
   literal.
   */
  lemma {:induction false} FeedHolds(m: Mode, s: string)
    requires Feed(m, s).Some?
    ensures var (last, ts) := Feed(m, s).value;
      && (ts == [] ==> Held(last) <= Held(m) + |s|)
      && (ts != [] && ts[0].WordToken? ==> |ts[0].word| < Held(m) + |s|)
    decreases |s|
  {
    if s == "" {
    } else {
      StepHolds(m, s[0]);
      FeedHolds(Step(m, s[0]).value.0, s[1..]);
    }
  }

  lemma {:induction false} FeedHoldsAll(m: Mode, s: string)
    requires m.InWord? || m.Between?
    requires Feed(m, s).Some? && Feed(m, s).value.1 == [] && Held(Feed(m, s).value.0) == Held(m) + |s|
    ensures AllLiteral(s) && (s != "" ==> Feed(m, s).value.0 == InWord(WordOf(m) + Mark(s, false)))
    ensures m.Between? && s != "" ==> s[0] != '#'
    decreases |s|
  {
    if s == "" {
    } else {
      var next := Step(m, s[0]).value.0;
      StepHolds(m, s[0]);
      FeedHolds(next, s[1..]);
      FeedHoldsAll(next, s[1..]);
      assert WordOf(m) + [Quotable(s[0], false)] + Mark(s[1..], false) == WordOf(m) + Mark(s, false);
      assert forall i :: 1 <= i < |s| ==> s[i] == s[1..][i - 1];
    }
  }
}
