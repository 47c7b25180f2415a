/**
 Scanning a configuration value for variables and substituting them
 (crates/harness-config/src/resolver.rs, `find_variables` to `validate_references`).
 */
module Substitution {
  import opened Common
  import opened Resolver

  /** A variable and its span. */
  datatype Found = Found(start: nat, end: nat, variable: Variable)

  type Finding = Result<Found, ConfigError>

  /** The variables of s, which starts at offset pos of the whole text. */
  function Variables(s: string, pos: nat): seq<Finding>
    decreases |s|
  {
    match FindOpen(s)
    case None => []
    case Some(i) =>
      match ParseVariable(s[i..])
      case None => Variables(s[i + 2..], pos + i + 2)
      case Some((rest, parsed)) =>
        var end := pos + |s| - |rest|;
        [if parsed.Ok? then Ok(Found(pos + i, end, parsed.value)) else Err(parsed.error)] + Variables(rest, end)
  }

  /** One step of the scan. */
  lemma VariablesStep(s: string, pos: nat)
    ensures match FindOpen(s)
            case None => Variables(s, pos) == []
            case Some(i) =>
              match ParseVariable(s[i..])
              case None => i + 2 <= |s| && Variables(s, pos) == Variables(s[i..][2..], pos + i + 2)
              case Some((rest, parsed)) =>
                |rest| < |s| && Variables(s, pos) ==
                [if parsed.Ok? then Ok(Found(pos + i, pos + |s| - |rest|, parsed.value)) else Err(parsed.error)]
                + Variables(rest, pos + |s| - |rest|)
  {
    hide ParseVariable, FindOpen, OpensAt;
    assert FindOpen(s).Some? ==> OpensAt(s, FindOpen(s).value);
    OpenInBounds(s);
    if FindOpen(s).Some? {
      var i := FindOpen(s).value;
      assert s[i..][2..] == s[i + 2..];
    }
  }

  lemma OpenInBounds(s: string)
    ensures FindOpen(s).Some? ==> FindOpen(s).value + 2 <= |s|
  {
  }

  method FindVariables(input: string) returns (results: seq<Finding>)
    ensures results == Variables(input, 0)
  {
    hide ParseVariable, OpensAt, FindOpen, Variables;
    results := [];
    var remaining: string, pos: nat := input, 0;
    while remaining != ""
      invariant results + Variables(remaining, pos) == Variables(input, 0)
      decreases |remaining|
    {
      VariablesStep(remaining, pos);
      var open := FindOpen(remaining);
      if open.None? {
        assert results + [] == results;
        return;
      }
      OpenInBounds(remaining);
      var start := open.value;
      pos := pos + start;
      remaining := remaining[start..];
      match ParseVariable(remaining) {
        case Some((rest, parsed)) =>
          var end := pos + (|remaining| - |rest|);
          var found: Finding := if parsed.Ok? then Ok(Found(pos, end, parsed.value)) else Err(parsed.error);
          FoundNext(results, found, Variables(rest, end));
          results := results + [found];
          remaining := rest;
          pos := end;
        case None =>
          remaining := remaining[2..];
          pos := pos + 2;
      }
    }
    NothingIn(results, pos);
  }

  lemma FoundNext(before: seq<Finding>, found: Finding, later: seq<Finding>)
    ensures before + ([found] + later) == before + [found] + later
  {
  }

  lemma NothingIn(results: seq<Finding>, pos: nat)
    ensures results + Variables("", pos) == results
  {
  }

  // ----- Substitution in one pass over the text -----

  /** A text read from left to right, each closed `${...}` as one item. */
  datatype Template =
    | End
    | Literal(c: char, rest: Template)
    | Reference(v: Variable, rest: Template)
    | Malformed(e: ConfigError, rest: Template)

  function ReadTemplate(s: string): Template
    decreases |s|
  {
    if s == "" then End
    else match ParseVariable(s)
         case None => Literal(s[0], ReadTemplate(s[1..]))
         case Some((rest, Ok(v))) => Reference(v, ReadTemplate(rest))
         case Some((rest, Err(e))) => Malformed(e, ReadTemplate(rest))
  }

  /** The characters of s, then t. */
  function Literals(s: string, t: Template): Template {
    if s == "" then t else Literal(s[0], Literals(s[1..], t))
  }

  /** `processEnv` is the environment of the process, which the lookup falls back to. */
  datatype Context = Context(
    envVars: map<string, string>,
    processEnv: map<string, string>,
    serviceIps: map<string, string>,
    servicePorts: map<string, nat>,
    serviceHosts: map<string, string>)

  function NewContext(processEnv: map<string, string>): Context {
    Context(processEnv, processEnv, map[], map[], map[])
  }

  function SetEnv(ctx: Context, key: string, value: string): Context {
    ctx.(envVars := ctx.envVars[key := value])
  }

  function AddService(ctx: Context, name: string, ip: string, port: Option<nat>, host: string): Context {
    ctx.(serviceIps := ctx.serviceIps[name := ip],
         serviceHosts := ctx.serviceHosts[name := host],
         servicePorts := if port.Some? then ctx.servicePorts[name := port.value] else ctx.servicePorts)
  }

  function Get<T>(m: map<string, T>, k: string): Option<T> {
    if k in m then Some(m[k]) else None
  }

  function ValueOf(v: Variable, ctx: Context): Option<string> {
    match v
    case EnvVar(name, default) =>
      if name in ctx.envVars then Some(ctx.envVars[name])
      else if name in ctx.processEnv then Some(ctx.processEnv[name])
      else default
    case ServiceRef(service, property) =>
      if property == "ip" then Get(ctx.serviceIps, service)
      else if property == "host" then Get(ctx.serviceHosts, service)
      else if property == "port" then
        (if service in ctx.servicePorts then Some(Decimal(ctx.servicePorts[service])) else None)
      else None
  }

  /** How an unresolved variable is named in the error. */
  function NameOf(v: Variable): string {
    match v
    case EnvVar(name, _) => name
    case ServiceRef(service, property) => service + "." + property
  }

  function Rendered(t: Template, ctx: Context): string {
    match t
    case End => ""
    case Literal(c, rest) => [c] + Rendered(rest, ctx)
    case Reference(v, rest) => ValueOf(v, ctx).GetOr("") + Rendered(rest, ctx)
    case Malformed(_, rest) => Rendered(rest, ctx)
  }

  function Unresolved(t: Template, ctx: Context): seq<string> {
    match t
    case End => []
    case Reference(v, rest) => (if ValueOf(v, ctx).None? then [NameOf(v)] else []) + Unresolved(rest, ctx)
    case _ => Unresolved(t.rest, ctx)
  }

  function FirstMalformed(t: Template): Option<ConfigError> {
    match t
    case End => None
    case Malformed(e, _) => Some(e)
    case _ => FirstMalformed(t.rest)
  }

  /** Literal text is kept, each variable is replaced once, and what replaces it is not looked at again. */
  function Resolved(s: string, ctx: Context): Result<string, ConfigError> {
    var t := ReadTemplate(s);
    if FirstMalformed(t).Some? then Err(FirstMalformed(t).value)
    else if Unresolved(t, ctx) != [] then Err(EnvVarNotFound(Unresolved(t, ctx)))
    else Ok(Rendered(t, ctx))
  }

  method ResolveString(input: string, ctx: Context) returns (r: Result<string, ConfigError>)
    ensures r == Resolved(input, ctx)
  {
    hide ParseVariable, Variables, ReadTemplate, ValueOf, NameOf;
    var variables := FindVariables(input);
    var result, lastEnd: nat, errors := "", 0, [];
    assert input[0..] == input;
    ghost var whole := ReadTemplate(input);
    for i := 0 to |variables|
      invariant lastEnd <= |input|
      invariant variables[i..] == Variables(input[lastEnd..], lastEnd)
      invariant SoFar(result, errors, whole, ReadTemplate(input[lastEnd..]), ctx)
    {
      FirstVariable(input[lastEnd..], lastEnd);
      assert variables[i] == variables[i..][0] && variables[i + 1..] == variables[i..][1..];
      if variables[i].Err? {
        return Err(variables[i].error);
      }
      var Found(start, end, v) := variables[i].value;
      assert input[lastEnd..][..start - lastEnd] == input[lastEnd..start]
             && input[lastEnd..][end - lastEnd..] == input[end..];
      AfterLiterals(result, errors, whole, input[lastEnd..start], Reference(v, ReadTemplate(input[end..])), ctx);
      result := result + input[lastEnd..start];
      var value := ValueOf(v, ctx);
      AfterReference(result, errors, whole, v, ReadTemplate(input[end..]), ctx);
      if value.Some? {
        result := result + value.value;
      } else {
        errors := errors + [NameOf(v)];
      }
      lastEnd := end;
    }
    NoMoreVariables(input[lastEnd..], lastEnd);
    AfterLiterals(result, errors, whole, input[lastEnd..], End, ctx);
    result := result + input[lastEnd..];
    AtEnd(result, errors, whole, ctx);
    if errors != [] {
      return Err(EnvVarNotFound(errors));
    }
    return Ok(result);
  }

  /** `result` and `errors` are what the whole template gives before the part still to come. */
  ghost predicate SoFar(result: string, errors: seq<string>, whole: Template, rest: Template, ctx: Context) {
    && FirstMalformed(whole) == FirstMalformed(rest)
    && Rendered(whole, ctx) == result + Rendered(rest, ctx)
    && Unresolved(whole, ctx) == errors + Unresolved(rest, ctx)
  }

  lemma {:induction false} LiteralsRender(text: string, t: Template, ctx: Context)
    ensures Rendered(Literals(text, t), ctx) == text + Rendered(t, ctx)
    ensures Unresolved(Literals(text, t), ctx) == Unresolved(t, ctx)
    ensures FirstMalformed(Literals(text, t)) == FirstMalformed(t)
    decreases |text|
  {
    if text == "" {
      assert text + Rendered(t, ctx) == Rendered(t, ctx);
    } else {
      LiteralsRender(text[1..], t, ctx);
      assert [text[0]] + (text[1..] + Rendered(t, ctx)) == text + Rendered(t, ctx);
    }
  }

  lemma AfterLiterals(result: string, errors: seq<string>, whole: Template, text: string, t: Template, ctx: Context)
    requires SoFar(result, errors, whole, Literals(text, t), ctx)
    ensures SoFar(result + text, errors, whole, t, ctx)
  {
    LiteralsRender(text, t, ctx);
    assert result + (text + Rendered(t, ctx)) == result + text + Rendered(t, ctx);
  }

  lemma AfterReference(result: string, errors: seq<string>, whole: Template, v: Variable, t: Template, ctx: Context)
    requires SoFar(result, errors, whole, Reference(v, t), ctx)
    ensures ValueOf(v, ctx).Some? ==> SoFar(result + ValueOf(v, ctx).value, errors, whole, t, ctx)
    ensures ValueOf(v, ctx).None? ==> SoFar(result, errors + [NameOf(v)], whole, t, ctx)
  {
    var value := ValueOf(v, ctx).GetOr("");
    assert result + (value + Rendered(t, ctx)) == result + value + Rendered(t, ctx);
    assert result + "" == result && [] + Unresolved(t, ctx) == Unresolved(t, ctx);
    assert errors + ([NameOf(v)] + Unresolved(t, ctx)) == errors + [NameOf(v)] + Unresolved(t, ctx);
  }

  lemma AtEnd(result: string, errors: seq<string>, whole: Template, ctx: Context)
    requires SoFar(result, errors, whole, End, ctx)
    ensures FirstMalformed(whole).None? && Rendered(whole, ctx) == result && Unresolved(whole, ctx) == errors
  {
  }

  lemma {:induction false} LiteralsAppend(a: string, b: string, t: Template)
    ensures Literals(a + b, t) == Literals(a, Literals(b, t))
    decreases |a|
  {
    if a == "" {
      assert a + b == b;
    } else {
      assert (a + b)[0] == a[0] && (a + b)[1..] == a[1..] + b;
      LiteralsAppend(a[1..], b, t);
    }
  }

  // ----- The scanner and the template -----

  /** Where no complete variable starts, the text is literal. */
  lemma {:induction false} LiteralPrefix(s: string, n: nat)
    requires n <= |s| && forall j :: 0 <= j < n ==> ParseVariable(s[j..]).None?
    ensures ReadTemplate(s) == Literals(s[..n], ReadTemplate(s[n..]))
    decreases n
  {
    hide ParseVariable;
    assert s[0..] == s;
    if n > 0 {
      forall j | 0 <= j < n - 1
        ensures ParseVariable(s[1..][j..]).None?
      {
        assert s[1..][j..] == s[j + 1..];
      }
      LiteralPrefix(s[1..], n - 1);
      assert s[1..][n - 1..] == s[n..];
      assert s[..n][0] == s[0] && s[..n][1..] == s[1..][..n - 1];
    }
  }

  lemma NotOpenNotVariable(s: string, j: nat)
    requires j <= |s| && !OpensAt(s, j)
    ensures ParseVariable(s[j..]).None?
  {
    assert !OpensAt(s[j..], 0);
  }

  /** An opening that is never closed is skipped as two literal characters. */
  lemma UnclosedPrefix(s: string, i: nat)
    requires FindOpen(s) == Some(i) && ParseVariable(s[i..]).None?
    ensures i + 2 <= |s| && ReadTemplate(s) == Literals(s[..i + 2], ReadTemplate(s[i + 2..]))
  {
    hide ParseVariable;
    forall j | 0 <= j < i + 2
      ensures ParseVariable(s[j..]).None?
    {
      if j != i {
        NotOpenNotVariable(s, j);
      }
    }
    LiteralPrefix(s, i + 2);
  }

  lemma OpenPrefix(s: string, i: nat)
    requires FindOpen(s) == Some(i)
    ensures ReadTemplate(s) == Literals(s[..i], ReadTemplate(s[i..]))
  {
    hide ParseVariable;
    forall j | 0 <= j < i
      ensures ParseVariable(s[j..]).None?
    {
      NotOpenNotVariable(s, j);
    }
    LiteralPrefix(s, i);
  }

  lemma NoOpenIsLiteral(s: string)
    requires FindOpen(s).None?
    ensures ReadTemplate(s) == Literals(s, End)
  {
    hide ParseVariable;
    forall j | 0 <= j < |s|
      ensures ParseVariable(s[j..]).None?
    {
      NotOpenNotVariable(s, j);
    }
    LiteralPrefix(s, |s|);
    assert s[..|s|] == s && s[|s|..] == "";
  }

  /** What a variable found in s, at offset pos of the whole text, says about s. */
  ghost predicate IsFirst(s: string, pos: nat, f: Found) {
    && pos <= f.start < f.end <= pos + |s|
    && ReadTemplate(s) == Literals(s[..f.start - pos], Reference(f.variable, ReadTemplate(s[f.end - pos..])))
    && s[f.start - pos..f.end - pos] == PrintVariable(f.variable) && WellFormed(f.variable)
  }

  /** What the scanner's first finding says about the text, and what it finds after that. */
  ghost predicate FirstFinding(s: string, pos: nat, found: seq<Finding>) {
    && found != []
    && (found[0].Err? ==> FirstMalformed(ReadTemplate(s)) == Some(found[0].error))
    && (found[0].Ok? ==> IsFirst(s, pos, found[0].value)
                         && found[1..] == Variables(s[found[0].value.end - pos..], found[0].value.end))
  }

  lemma {:induction false} FirstVariable(s: string, pos: nat)
    requires Variables(s, pos) != []
    ensures FirstFinding(s, pos, Variables(s, pos))
    decreases |s|
  {
    hide ParseVariable, ReadTemplate, Variables, FirstFinding;
    VariablesStep(s, pos);
    var i := FindOpen(s).value;
    if ParseVariable(s[i..]).None? {
      UnclosedPrefix(s, i);
      assert s[i..][2..] == s[i + 2..];
      FirstVariable(s[i + 2..], pos + i + 2);
      FirstFindingLater(s, pos, i + 2, Variables(s, pos));
    } else {
      FirstVariableHere(s, pos, i);
    }
  }

  lemma FirstVariableHere(s: string, pos: nat, i: nat)
    requires FindOpen(s) == Some(i) && ParseVariable(s[i..]).Some?
    ensures FirstFinding(s, pos, Variables(s, pos))
  {
    hide ParseVariable, ReadTemplate, Variables, PrintVariable, WellFormed, FindOpen, OpensAt, FirstMalformed, Literals;
    OpenInBounds(s);
    var (rest, parsed) := ParseVariable(s[i..]).value;
    VariablesStep(s, pos);
    OpenPrefix(s, i);
    CompleteVariable(s[i..]);
    ParsedSpan(s, i);
    if parsed.Err? {
      LiteralsRender(s[..i], Malformed(parsed.error, ReadTemplate(rest)), NewContext(map[]));
      MalformedIsFirst(parsed.error, ReadTemplate(rest));
    }
  }

  lemma MalformedIsFirst(e: ConfigError, t: Template)
    ensures FirstMalformed(Malformed(e, t)) == Some(e)
  {
  }

  /** A complete variable is one item of the template. */
  lemma CompleteVariable(s: string)
    requires ParseVariable(s).Some?
    ensures var (rest, parsed) := ParseVariable(s).value;
            ReadTemplate(s) ==
            if parsed.Ok? then Reference(parsed.value, ReadTemplate(rest))
            else Malformed(parsed.error, ReadTemplate(rest))
  {
    hide ParseVariable;
  }

  lemma SpanOf(s: string, i: nat, printed: string, rest: string)
    requires i <= |s| && s[i..] == printed + rest
    ensures s[i..|s| - |rest|] == printed && s[|s| - |rest|..] == rest
  {
    assert s == s[..i] + printed + rest;
  }

  lemma SlicesOfRest(s: string, n: nat, a: nat, b: nat)
    requires n <= a <= b <= |s|
    ensures s[n..][..a - n] == s[n..a] && s[n..][b - n..] == s[b..] && s[n..][a - n..b - n] == s[a..b]
    ensures s[..n] + s[n..a] == s[..a]
  {
  }

  lemma IsFirstLater(s: string, pos: nat, n: nat, f: Found)
    requires n <= |s| && IsFirst(s[n..], pos + n, f)
    requires ReadTemplate(s) == Literals(s[..n], ReadTemplate(s[n..]))
    ensures IsFirst(s, pos, f) && s[n..][f.end - (pos + n)..] == s[f.end - pos..]
  {
    hide ReadTemplate, PrintVariable, WellFormed, Literals;
    var a, b := f.start - pos, f.end - pos;
    SlicesOfRest(s, n, a, b);
    LiteralsAppend(s[..n], s[n..a], Reference(f.variable, ReadTemplate(s[b..])));
  }

  lemma FirstFindingLater(s: string, pos: nat, n: nat, found: seq<Finding>)
    requires n <= |s| && FirstFinding(s[n..], pos + n, found)
    requires ReadTemplate(s) == Literals(s[..n], ReadTemplate(s[n..]))
    ensures FirstFinding(s, pos, found)
  {
    hide Variables, ReadTemplate, FirstMalformed, Literals;
    match found[0] {
      case Err(e) => LiteralsRender(s[..n], ReadTemplate(s[n..]), NewContext(map[]));
      case Ok(f) => IsFirstLater(s, pos, n, f);
    }
  }

  lemma {:induction false} NoMoreVariables(s: string, pos: nat)
    requires Variables(s, pos) == []
    ensures ReadTemplate(s) == Literals(s, End)
    decreases |s|
  {
    hide ParseVariable, Variables, ReadTemplate, Literals;
    VariablesStep(s, pos);
    match FindOpen(s) {
      case None => NoOpenIsLiteral(s);
      case Some(i) =>
        UnclosedPrefix(s, i);
        assert s[i..][2..] == s[i + 2..];
        NoMoreVariables(s[i + 2..], pos + i + 2);
        assert s[..i + 2] + s[i + 2..] == s;
        LiteralsAppend(s[..i + 2], s[i + 2..], End);
    }
  }

  // ----- Spans -----

  /** A finding's span lies in the text and holds exactly the printed form of its well-formed variable. */
  ghost predicate IsSpan(s: string, pos: nat, f: Finding) {
    f.Ok? ==>
      var Found(start, end, v) := f.value;
      pos <= start < end <= pos + |s| && s[start - pos..end - pos] == PrintVariable(v) && WellFormed(v)
  }

  /** Spans are in order and disjoint, and start no earlier than `from`. */
  ghost predicate Ordered(found: seq<Finding>, from: nat) {
    found == [] ||
    if found[0].Err? then Ordered(found[1..], from)
    else from <= found[0].value.start < found[0].value.end && Ordered(found[1..], found[0].value.end)
  }

  lemma {:induction false} OrderedEarlier(found: seq<Finding>, from: nat, earlier: nat)
    requires Ordered(found, from) && earlier <= from
    ensures Ordered(found, earlier)
  {
    if found != [] && found[0].Err? {
      OrderedEarlier(found[1..], from, earlier);
    }
  }

  lemma IsSpanLater(s: string, pos: nat, n: nat, f: Finding)
    requires n <= |s| && IsSpan(s[n..], pos + n, f)
    ensures IsSpan(s, pos, f)
  {
    hide PrintVariable, WellFormed;
    if f.Ok? {
      SlicesOfRest(s, n, f.value.start - pos, f.value.end - pos);
    }
  }

  /** Every variable reported prints back to exactly its span; the spans are in order and disjoint. */
  lemma {:induction false} FindingsAreSpans(s: string, pos: nat)
    ensures Ordered(Variables(s, pos), pos)
    ensures forall f :: f in Variables(s, pos) ==> IsSpan(s, pos, f)
    decreases |s|
  {
    hide ParseVariable, Variables, PrintVariable, WellFormed, FindOpen, OpensAt;
    VariablesStep(s, pos);
    OpenInBounds(s);
    if FindOpen(s).Some? {
      var i := FindOpen(s).value;
      match ParseVariable(s[i..]) {
        case None =>
          assert s[i..][2..] == s[i + 2..];
          FindingsAreSpans(s[i + 2..], pos + i + 2);
          OrderedEarlier(Variables(s, pos), pos + i + 2, pos);
          forall f | f in Variables(s, pos)
            ensures IsSpan(s, pos, f)
          {
            IsSpanLater(s, pos, i + 2, f);
          }
        case Some((rest, parsed)) =>
          ParsedSpan(s, i);
          var end := |s| - |rest|;
          var tail := Variables(rest, pos + end);
          FindingsAreSpans(rest, pos + end);
          forall f | f in tail
            ensures IsSpan(s, pos, f)
          {
            IsSpanLater(s, pos, end, f);
          }
          assert Variables(s, pos)[1..] == tail;
          if parsed.Err? {
            OrderedEarlier(tail, pos + end, pos);
          }
      }
    }
  }

  lemma ParsedSpan(s: string, i: nat)
    requires i <= |s| && ParseVariable(s[i..]).Some?
    ensures var (rest, parsed) := ParseVariable(s[i..]).value;
            && i < |s| - |rest| <= |s| && rest == s[|s| - |rest|..]
            && (parsed.Ok? ==> s[i..|s| - |rest|] == PrintVariable(parsed.value) && WellFormed(parsed.value))
  {
    hide ParseVariable, PrintVariable, WellFormed;
    var (rest, parsed) := ParseVariable(s[i..]).value;
    if parsed.Ok? {
      VariableRoundTrip(s[i..], rest, parsed.value);
      SpanOf(s, i, PrintVariable(parsed.value), rest);
    }
  }

  // ----- Templates written out -----

  /** Literal texts and variables in turn, then a last literal text. */
  function WriteTemplate(pieces: seq<(string, Variable)>, tail: string): string {
    if pieces == [] then tail else pieces[0].0 + (PrintVariable(pieces[0].1) + WriteTemplate(pieces[1..], tail))
  }

  /** The variables of a written template, at their offsets. */
  function WrittenAt(pieces: seq<(string, Variable)>, pos: nat): seq<Finding> {
    if pieces == [] then []
    else
      var start := pos + |pieces[0].0|;
      var end := start + |PrintVariable(pieces[0].1)|;
      [Ok(Found(start, end, pieces[0].1))] + WrittenAt(pieces[1..], end)
  }

  /** Literal texts hold no `${`, and variables are well formed. */
  ghost predicate Writable(pieces: seq<(string, Variable)>, tail: string) {
    && FindOpen(tail).None?
    && forall i :: 0 <= i < |pieces| ==> FindOpen(pieces[i].0).None? && WellFormed(pieces[i].1)
  }

  lemma WritableTail(pieces: seq<(string, Variable)>, tail: string)
    requires pieces != [] && Writable(pieces, tail)
    ensures FindOpen(pieces[0].0).None? && WellFormed(pieces[0].1) && Writable(pieces[1..], tail)
  {
    hide FindOpen, WellFormed;
    assert forall i :: 0 <= i < |pieces[1..]| ==> pieces[1..][i] == pieces[i + 1];
  }

  lemma OpensAfterLiteral(text: string, rest: string)
    requires FindOpen(text).None? && OpensAt(rest, 0)
    ensures FindOpen(text + rest) == Some(|text|)
  {
    hide FindOpen;
    var s := text + rest;
    assert OpensAt(s, |text|);
    forall j: nat | j < |text|
      ensures !OpensAt(s, j)
    {
      assert !OpensAt(text, j);
    }
    if FindOpen(s).Some? {
      assert FindOpen(s).value >= |text|;
    }
  }

  /** The text of one written piece, read back. */
  lemma FirstPiece(text: string, v: Variable, rest: string)
    requires FindOpen(text).None? && WellFormed(v)
    ensures var s := text + (PrintVariable(v) + rest);
            FindOpen(s) == Some(|text|) && ParseVariable(s[|text|..]) == Some((rest, Ok(v)))
  {
    hide FindOpen, ParseVariable, WellFormed;
    var s := text + (PrintVariable(v) + rest);
    assert OpensAt(PrintVariable(v) + rest, 0);
    OpensAfterLiteral(text, PrintVariable(v) + rest);
    assert s[|text|..] == PrintVariable(v) + rest;
    VariableRoundTrip(s[|text|..], rest, v);
  }

  lemma FirstWritten(text: string, v: Variable, rest: string, pos: nat)
    requires FindOpen(text).None? && WellFormed(v)
    ensures var start := pos + |text|;
            var end := start + |PrintVariable(v)|;
            Variables(text + (PrintVariable(v) + rest), pos) == [Ok(Found(start, end, v))] + Variables(rest, end)
  {
    hide FindOpen, OpensAt, ParseVariable, WellFormed, PrintVariable, Variables;
    FirstPiece(text, v, rest);
    VariablesStep(text + (PrintVariable(v) + rest), pos);
  }

  /** Scanning a written template finds exactly its variables, at exactly their offsets. */
  lemma {:induction false} TemplateRoundTrip(pieces: seq<(string, Variable)>, tail: string, pos: nat)
    requires Writable(pieces, tail)
    ensures Variables(WriteTemplate(pieces, tail), pos) == WrittenAt(pieces, pos)
    decreases |pieces|
  {
    hide FindOpen, OpensAt, ParseVariable, WellFormed, PrintVariable, Variables, Writable;
    if pieces == [] {
      WritableNothing(pieces, tail);
      VariablesStep(tail, pos);
    } else {
      WritableTail(pieces, tail);
      var (text, v) := pieces[0];
      var rest := WriteTemplate(pieces[1..], tail);
      FirstWritten(text, v, rest, pos);
      TemplateRoundTrip(pieces[1..], tail, pos + |text| + |PrintVariable(v)|);
    }
  }

  lemma WritableNothing(pieces: seq<(string, Variable)>, tail: string)
    requires Writable(pieces, tail)
    ensures FindOpen(tail).None?
  {
    hide FindOpen;
  }

  /** The text a written template stands for: literal texts kept, each variable replaced by its value. */
  function Substituted(pieces: seq<(string, Variable)>, tail: string, ctx: Context): string {
    if pieces == [] then tail
    else pieces[0].0 + (ValueOf(pieces[0].1, ctx).GetOr("") + Substituted(pieces[1..], tail, ctx))
  }

  lemma {:induction false} WrittenTemplateReads(pieces: seq<(string, Variable)>, tail: string, ctx: Context)
    requires Writable(pieces, tail)
    ensures var t := ReadTemplate(WriteTemplate(pieces, tail));
            && FirstMalformed(t).None?
            && Rendered(t, ctx) == Substituted(pieces, tail, ctx)
            && (Unresolved(t, ctx) == [] <==> forall p :: p in pieces ==> ValueOf(p.1, ctx).Some?)
    decreases |pieces|
  {
    hide FindOpen, ParseVariable, WellFormed, PrintVariable, ReadTemplate, ValueOf, NameOf, Writable, Literals;
    var s := WriteTemplate(pieces, tail);
    if pieces == [] {
      WritableNothing(pieces, tail);
      NoOpenIsLiteral(tail);
      LiteralsRender(tail, End, ctx);
      assert tail + "" == tail;
    } else {
      WritableTail(pieces, tail);
      var (text, v) := pieces[0];
      var rest := WriteTemplate(pieces[1..], tail);
      FirstPiece(text, v, rest);
      OpenPrefix(s, |text|);
      assert s[..|text|] == text;
      CompleteVariable(s[|text|..]);
      LiteralsRender(text, Reference(v, ReadTemplate(rest)), ctx);
      WrittenTemplateReads(pieces[1..], tail, ctx);
      assert forall p :: p in pieces <==> p == pieces[0] || p in pieces[1..];
    }
  }

  /** Resolving a written template gives its text with every variable replaced, when each has a value. */
  lemma TemplateResolves(pieces: seq<(string, Variable)>, tail: string, ctx: Context)
    requires Writable(pieces, tail)
    ensures Resolved(WriteTemplate(pieces, tail), ctx).Ok? <==> forall p :: p in pieces ==> ValueOf(p.1, ctx).Some?
    ensures Resolved(WriteTemplate(pieces, tail), ctx).Ok? ==>
              Resolved(WriteTemplate(pieces, tail), ctx).value == Substituted(pieces, tail, ctx)
  {
    hide ReadTemplate, ValueOf, Writable, FirstMalformed, Unresolved, Rendered;
    WrittenTemplateReads(pieces, tail, ctx);
  }

  // ----- When resolution succeeds -----

  /** Every `${...}` that closes parses, and has a value. */
  ghost predicate AllResolve(found: seq<Finding>, ctx: Context) {
    forall i :: 0 <= i < |found| ==> found[i].Ok? && ValueOf(found[i].value.variable, ctx).Some?
  }

  lemma {:induction false} FindingsDecide(s: string, pos: nat, ctx: Context)
    ensures AllResolve(Variables(s, pos), ctx) <==>
            FirstMalformed(ReadTemplate(s)).None? && Unresolved(ReadTemplate(s), ctx) == []
    decreases |s|
  {
    hide Variables, ReadTemplate, ValueOf, NameOf, PrintVariable, WellFormed, Literals;
    var found := Variables(s, pos);
    if found == [] {
      NoMoreVariables(s, pos);
      LiteralsRender(s, End, ctx);
    } else {
      FirstVariable(s, pos);
      if found[0].Ok? {
        var Found(start, end, v) := found[0].value;
        var rest := s[end - pos..];
        LiteralsRender(s[..start - pos], Reference(v, ReadTemplate(rest)), ctx);
        FindingsDecide(rest, end, ctx);
        AllResolveTail(found, ctx);
      }
    }
  }

  lemma AllResolveTail(found: seq<Finding>, ctx: Context)
    requires found != []
    ensures AllResolve(found, ctx) <==>
            found[0].Ok? && ValueOf(found[0].value.variable, ctx).Some? && AllResolve(found[1..], ctx)
  {
    hide ValueOf;
    assert forall i :: 0 <= i < |found[1..]| ==> found[1..][i] == found[i + 1];
    assert forall i :: 1 <= i < |found| ==> found[i] == found[1..][i - 1];
  }

  /** Resolution succeeds exactly when every closed `${...}` parses and has a value. */
  lemma ResolvesExactlyWhen(s: string, ctx: Context)
    ensures Resolved(s, ctx).Ok? <==> AllResolve(Variables(s, 0), ctx)
  {
    hide Variables, ReadTemplate, FirstMalformed, Unresolved, Rendered, AllResolve;
    FindingsDecide(s, 0, ctx);
  }

  function FirstErr(found: seq<Finding>): Option<ConfigError> {
    if found == [] then None
    else if found[0].Err? then Some(found[0].error)
    else FirstErr(found[1..])
  }

  lemma {:induction false} FirstErrExactly(found: seq<Finding>, k: nat)
    requires k <= |found| && forall j :: 0 <= j < k ==> found[j].Ok?
    ensures k == |found| ==> FirstErr(found) == None
    ensures k < |found| && found[k].Err? ==> FirstErr(found) == Some(found[k].error)
  {
    if k > 0 {
      FirstErrExactly(found[1..], k - 1);
    }
  }

  lemma {:induction false} FindingsDecideError(s: string, pos: nat)
    ensures FirstMalformed(ReadTemplate(s)) == FirstErr(Variables(s, pos))
    decreases |s|
  {
    hide Variables, ReadTemplate, PrintVariable, WellFormed, Literals;
    var found := Variables(s, pos);
    if found == [] {
      NoMoreVariables(s, pos);
      LiteralsRender(s, End, NewContext(map[]));
    } else {
      FirstVariable(s, pos);
      if found[0].Ok? {
        var Found(start, end, v) := found[0].value;
        var rest := s[end - pos..];
        LiteralsRender(s[..start - pos], Reference(v, ReadTemplate(rest)), NewContext(map[]));
        FindingsDecideError(rest, end);
      }
    }
  }

  /**
   The first closed `${...}` that does not parse decides the error, whatever else is missing; when all parse,
   an error can only be that names are missing.
   */
  lemma FirstErrorDecides(s: string, ctx: Context, k: nat)
    requires k <= |Variables(s, 0)| && forall j :: 0 <= j < k ==> Variables(s, 0)[j].Ok?
    ensures k < |Variables(s, 0)| && Variables(s, 0)[k].Err? ==> Resolved(s, ctx) == Err(Variables(s, 0)[k].error)
    ensures k == |Variables(s, 0)| ==> Resolved(s, ctx).Ok? || Resolved(s, ctx).error.EnvVarNotFound?
  {
    hide Variables, ReadTemplate, FirstMalformed, Unresolved, Rendered;
    FindingsDecideError(s, 0);
    FirstErrExactly(Variables(s, 0), k);
  }

  /** The text holds no `${` with a `}` after it. */
  ghost predicate NoClosedReference(s: string) {
    forall i: nat :: OpensAt(s, i) ==> '}' !in s[i + 2..]
  }

  lemma NoClosedReferenceIsLiteral(s: string)
    requires NoClosedReference(s)
    ensures ReadTemplate(s) == Literals(s, End)
  {
    hide ParseVariable, ReadTemplate, Literals;
    forall j | 0 <= j < |s|
      ensures ParseVariable(s[j..]).None?
    {
      if OpensAt(s, j) {
        assert s[j..][2..] == s[j + 2..];
      } else {
        NotOpenNotVariable(s, j);
      }
    }
    LiteralPrefix(s, |s|);
    assert s[..|s|] == s && s[|s|..] == "" && ReadTemplate("") == End by {
      EmptyTemplate();
    }
  }

  lemma EmptyTemplate()
    ensures ReadTemplate("") == End
  {
  }

  /** Text without a closed reference resolves to itself. */
  lemma ResolvedIsIdentity(s: string, ctx: Context)
    requires NoClosedReference(s)
    ensures Resolved(s, ctx) == Ok(s)
  {
    NoClosedReferenceIsLiteral(s);
    LiteralsRender(s, End, ctx);
    assert s + "" == s;
  }
}
