/**
 Template variables in configuration values (crates/harness-config/src/resolver.rs): the grammar of
 `${NAME}`, `${NAME:-default}` and `${service.property}`, the scanner, and the substituter.
 Offsets count characters. Of an error only its kind and the missing names are kept.
 */
module Resolver {
  import opened Common

  datatype Variable =
    | EnvVar(name: string, default: Option<string>)
    | ServiceRef(service: string, property: string)

  datatype ConfigError =
    | InvalidServiceName
    | InvalidReferenceType
    | InvalidEnvVarName
    | EnvVarNotFound(names: seq<string>)
    | UnknownServiceReference
    | UnsupportedVersion
    | UnknownNetwork
    | UnknownDependencyName
    | ServiceNotFound

  // ----- Character classes and searching -----

  predicate IsUpper(c: char) { 'A' <= c <= 'Z' }

  predicate IsDigit(c: char) { '0' <= c <= '9' }

  predicate IsAlpha(c: char) { IsUpper(c) || 'a' <= c <= 'z' }

  predicate IsEnvChar(c: char) { IsUpper(c) || IsDigit(c) || c == '_' }

  predicate IsServiceChar(c: char) { IsAlpha(c) || IsDigit(c) || c == '_' || c == '-' }

  /** The length of the longest prefix of s whose characters satisfy p. */
  function Span(s: string, p: char -> bool): (n: nat)
    ensures n <= |s| && (forall i :: 0 <= i < n ==> p(s[i])) && (n < |s| ==> !p(s[n]))
  {
    if s == "" || !p(s[0]) then 0 else 1 + Span(s[1..], p)
  }

  predicate StartsWith(s: string, prefix: string) {
    |prefix| <= |s| && s[..|prefix|] == prefix
  }

  /** The first position of c in s. */
  function IndexOf(s: string, c: char): (r: Option<nat>)
    ensures match r
            case None => c !in s
            case Some(i) => i < |s| && s[i] == c && c !in s[..i]
  {
    var n := Span(s, (x: char) => x != c);
    if n < |s| then Some(n) else None
  }

  predicate OpensAt(s: string, i: nat) {
    i + 1 < |s| && s[i] == '$' && s[i + 1] == '{'
  }

  /** The first position of `${` in s. */
  function FindOpen(s: string): (r: Option<nat>)
    ensures match r
            case None => forall i: nat :: !OpensAt(s, i)
            case Some(i) => OpensAt(s, i) && forall j: nat :: j < i ==> !OpensAt(s, j)
  {
    if |s| < 2 then None
    else if OpensAt(s, 0) then Some(0)
    else match FindOpen(s[1..])
         case None => NoOpenFurther(s); None
         case Some(i) => NoOpenBefore(s, i); Some(i + 1)
  }

  lemma NoOpenFurther(s: string)
    requires s != "" && !OpensAt(s, 0) && forall i: nat :: !OpensAt(s[1..], i)
    ensures forall i: nat :: !OpensAt(s, i)
  {
    forall i: nat | OpensAt(s, i)
      ensures false
    {
      assert OpensAt(s[1..], i - 1);
    }
  }

  lemma NoOpenBefore(s: string, k: nat)
    requires s != "" && !OpensAt(s, 0) && OpensAt(s[1..], k) && forall j: nat :: j < k ==> !OpensAt(s[1..], j)
    ensures OpensAt(s, k + 1) && forall j: nat :: j < k + 1 ==> !OpensAt(s, j)
  {
    forall j: nat | j < k + 1 && OpensAt(s, j)
      ensures false
    {
      assert OpensAt(s[1..], j - 1);
    }
  }

  // ----- Grammar. A parser returns the rest of its input and a value. -----

  function EnvVarName(s: string): Option<(string, string)> {
    var n := Span(s, IsEnvChar);
    if n == 0 || !IsUpper(s[0]) then None else Some((s[n..], s[..n]))
  }

  function ServiceName(s: string): Option<(string, string)> {
    var m := Span(s, IsAlpha);
    var n := m + Span(s[m..], IsServiceChar);
    if m == 0 then None else Some((s[n..], s[..n]))
  }

  function ServiceProperty(s: string): Option<(string, string)> {
    if StartsWith(s, "ip") then Some((s[2..], "ip"))
    else if StartsWith(s, "port") then Some((s[4..], "port"))
    else if StartsWith(s, "host") then Some((s[4..], "host"))
    else None
  }

  function ParseEnvVar(s: string): Option<Variable> {
    match EnvVarName(s)
    case None => None
    case Some((rest, name)) =>
      if StartsWith(rest, ":-") then Some(EnvVar(name, Some(rest[2..])))
      else if rest == "" then Some(EnvVar(name, None))
      else None
  }

  function ParseServiceRef(s: string): Option<Variable> {
    match ServiceName(s)
    case None => None
    case Some((rest, service)) =>
      if !StartsWith(rest, ".") then None
      else match ServiceProperty(rest[1..])
           case None => None
           case Some((end, property)) => if end == "" then Some(ServiceRef(service, property)) else None
  }

  /** What stands between `${` and `}`: with a dot it must be a service reference. */
  function ParseVariableExpr(s: string): Result<Variable, ConfigError> {
    match IndexOf(s, '.')
    case Some(dot) =>
      (match ParseServiceRef(s)
       case Some(v) => Ok(v)
       case None => Err(if ServiceName(s[..dot]).None? then InvalidServiceName else InvalidReferenceType))
    case None =>
      match ParseEnvVar(s)
      case Some(v) => Ok(v)
      case None => Err(InvalidEnvVarName)
  }

  /** A complete variable at the start of s; None when s has no `${` there or no `}` after it. */
  function ParseVariable(s: string): (r: Option<(string, Result<Variable, ConfigError>)>)
    ensures r.Some? ==> |r.value.0| + 3 <= |s| && OpensAt(s, 0) && r.value.0 == s[|s| - |r.value.0|..]
    ensures r.Some? <==> OpensAt(s, 0) && '}' in s[2..]
  {
    if !StartsWith(s, "${") then None
    else match IndexOf(s[2..], '}')
         case None => None
         case Some(close) => Some((s[2..][close + 1..], ParseVariableExpr(s[2..][..close])))
  }

  // ----- Printing -----

  predicate IsEnvName(s: string) {
    s != "" && IsUpper(s[0]) && forall i :: 0 <= i < |s| ==> IsEnvChar(s[i])
  }

  predicate IsServiceName(s: string) {
    s != "" && IsAlpha(s[0]) && forall i :: 0 <= i < |s| ==> IsServiceChar(s[i])
  }

  predicate IsProperty(s: string) {
    s == "ip" || s == "port" || s == "host"
  }

  predicate WellFormed(v: Variable) {
    match v
    case EnvVar(name, default) =>
      IsEnvName(name) && (default.Some? ==> '}' !in default.value && '.' !in default.value)
    case ServiceRef(service, property) => IsServiceName(service) && IsProperty(property)
  }

  function PrintExpr(v: Variable): string {
    match v
    case EnvVar(name, None) => name
    case EnvVar(name, Some(default)) => name + ":-" + default
    case ServiceRef(service, property) => service + "." + property
  }

  function PrintVariable(v: Variable): string {
    "${" + PrintExpr(v) + "}"
  }

  // ----- What is read, spelled out -----

  /** What is read from a text without a dot, by its longest beginning of upper-case letters, digits and `_`. */
  lemma EnvironmentIsRead(name: string, rest: string)
    requires '.' !in name + rest
    requires forall c :: c in name ==> 'A' <= c <= 'Z' || '0' <= c <= '9' || c == '_'
    requires rest != "" ==> !('A' <= rest[0] <= 'Z' || '0' <= rest[0] <= '9' || rest[0] == '_')
    ensures ParseVariableExpr(name + rest) ==
            if name == "" || !('A' <= name[0] <= 'Z') then Err(InvalidEnvVarName)
            else if rest == "" then Ok(EnvVar(name, None))
            else if |rest| >= 2 && rest[0] == ':' && rest[1] == '-' then Ok(EnvVar(name, Some(rest[2..])))
            else Err(InvalidEnvVarName)
  {
    var s := name + rest;
    forall i | 0 <= i < |name|
      ensures IsEnvChar(s[i])
    {
      assert name[i] in name;
    }
    SpanIs(s, IsEnvChar, |name|);
    assert s[|name|..] == rest && s[..|name|] == name;
    assert |rest| >= 2 ==> rest[..2] == [rest[0], rest[1]];
  }

  /**
   What is read from a text with a dot, by its beginning up to the first one: a name that starts with a letter
   and goes on with letters, digits, `_` and `-`, and one of three properties.
   */
  lemma ReferenceIsRead(service: string, property: string)
    requires '.' !in service
    ensures var isLetter := (c: char) => 'a' <= c <= 'z' || 'A' <= c <= 'Z';
      ParseVariableExpr(service + "." + property) ==
      if service == "" || !isLetter(service[0]) then Err(InvalidServiceName)
      else if (forall c :: c in service ==> isLetter(c) || '0' <= c <= '9' || c == '_' || c == '-')
              && property in {"ip", "port", "host"}
           then Ok(ServiceRef(service, property))
      else Err(InvalidReferenceType)
  {
    hide Span, ServiceProperty, ParseServiceRef, IndexOf, IsServiceName;
    var s := service + "." + property;
    assert s[..|service|] == service && s[|service|] == '.';
    IndexOfIs(s, '.', |service|);
    NamesStartWithLetters(service);
    ReferenceParses(service, property);
    NameCharacters(service);
  }

  lemma NameCharacters(s: string)
    ensures var isLetter := (c: char) => 'a' <= c <= 'z' || 'A' <= c <= 'Z';
      IsServiceName(s) <==>
      s != "" && isLetter(s[0]) && forall c :: c in s ==> isLetter(c) || '0' <= c <= '9' || c == '_' || c == '-'
  {
    assert forall i :: 0 <= i < |s| ==> s[i] in s;
  }

  lemma ReferenceParses(service: string, property: string)
    requires '.' !in service
    ensures ParseServiceRef(service + "." + property) ==
            if IsServiceName(service) && IsProperty(property) then Some(ServiceRef(service, property)) else None
  {
    hide ParseServiceRef;
    var s := service + "." + property;
    if ParseServiceRef(s).Some? {
      var v := ParseServiceRef(s).value;
      ServiceRefIsPrinted(s, v);
      FirstDot(service, property, v.service, v.property);
    }
    if IsServiceName(service) && IsProperty(property) {
      PrintedServiceRefParses(ServiceRef(service, property));
    }
  }

  lemma FirstDot(a: string, b: string, c: string, d: string)
    requires '.' !in a && '.' !in c && a + "." + b == c + "." + d
    ensures a == c && b == d
  {
    var s := a + "." + b;
    assert s == c + "." + d;
    assert s[..|a|] == a && s[|a|] == '.' && s[..|c|] == c && s[|c|] == '.';
    assert s[|a| + 1..] == b && s[|c| + 1..] == d;
  }

  lemma NamesStartWithLetters(s: string)
    ensures ServiceName(s).None? <==> s == "" || !IsAlpha(s[0])
  {
  }

  // ----- Parsing and printing are inverse -----

  lemma {:induction false} SpanIs(s: string, p: char -> bool, n: nat)
    requires n <= |s| && (forall i :: 0 <= i < n ==> p(s[i])) && (n < |s| ==> !p(s[n]))
    ensures Span(s, p) == n
  {
  }

  lemma EnvVarNameReads(name: string, rest: string)
    requires IsEnvName(name) && (rest != "" ==> !IsEnvChar(rest[0]))
    ensures EnvVarName(name + rest) == Some((rest, name))
  {
    SpanIs(name + rest, IsEnvChar, |name|);
  }

  lemma ServiceNameReads(name: string, rest: string)
    requires IsServiceName(name) && (rest != "" ==> !IsServiceChar(rest[0]))
    ensures ServiceName(name + rest) == Some((rest, name))
  {
    var s := name + rest;
    var m := Span(s, IsAlpha);
    assert rest != "" ==> s[|name|] == rest[0] && !IsAlpha(s[|name|]);
    assert IsAlpha(s[0]);
    assert forall i :: 0 <= i < |name| - m ==> s[m..][i] == name[m + i];
    assert |name| - m < |s[m..]| ==> s[m..][|name| - m] == rest[0];
    SpanIs(s[m..], IsServiceChar, |name| - m);
  }

  lemma ServiceNameShape(s: string)
    ensures match ServiceName(s)
            case None => true
            case Some((rest, name)) => s == name + rest && IsServiceName(name)
  {
    var m := Span(s, IsAlpha);
    var k := Span(s[m..], IsServiceChar);
    forall i | 0 <= i < m + k
      ensures IsServiceChar(s[i])
    {
      if i >= m {
        assert IsServiceChar(s[m..][i - m]);
      }
    }
  }

  lemma EnvVarNameShape(s: string)
    ensures match EnvVarName(s)
            case None => true
            case Some((rest, name)) => s == name + rest && IsEnvName(name)
  {
  }

  lemma IndexOfIs(s: string, c: char, k: nat)
    requires k < |s| && s[k] == c && c !in s[..k]
    ensures IndexOf(s, c) == Some(k)
  {
  }

  lemma InConcat(c: char, a: string, b: string)
    ensures c in a + b <==> c in a || c in b
  {
    if c in a {
      var i :| 0 <= i < |a| && a[i] == c;
      assert (a + b)[i] == c;
    }
    if c in b {
      var i :| 0 <= i < |b| && b[i] == c;
      assert (a + b)[|a| + i] == c;
    }
  }

  lemma ServiceRefIsPrinted(s: string, v: Variable)
    requires ParseServiceRef(s) == Some(v)
    ensures v.ServiceRef? && WellFormed(v) && s == PrintExpr(v)
  {
    ServiceNameShape(s);
    var (rest, service) := ServiceName(s).value;
    PropertyShape(rest[1..]);
    assert rest == rest[..1] + rest[1..];
    assert s == service + ("." + v.property);
    assert service + ("." + v.property) == service + "." + v.property;
  }

  lemma PrintedServiceRefParses(v: Variable)
    requires v.ServiceRef? && WellFormed(v)
    ensures ParseServiceRef(PrintExpr(v)) == Some(v)
  {
    var tail := "." + v.property;
    assert PrintExpr(v) == v.service + tail;
    assert tail[0] == '.' && !IsServiceChar('.') && tail[..1] == "." && tail[1..] == v.property;
    ServiceNameReads(v.service, tail);
    PropertyShape(v.property);
  }

  lemma ServiceRefRoundTrip(s: string, v: Variable)
    ensures ParseServiceRef(s) == Some(v) <==> v.ServiceRef? && WellFormed(v) && s == PrintExpr(v)
  {
    if ParseServiceRef(s) == Some(v) {
      ServiceRefIsPrinted(s, v);
    }
    if v.ServiceRef? && WellFormed(v) {
      PrintedServiceRefParses(v);
    }
  }

  /** A property name, and nothing after it. */
  lemma PropertyShape(s: string)
    ensures IsProperty(s) ==> ServiceProperty(s) == Some(("", s))
    ensures ServiceProperty(s).Some? && ServiceProperty(s).value.0 == "" ==>
            s == ServiceProperty(s).value.1 && IsProperty(s)
  {
    assert StartsWith(s, "ip") ==> s == "ip" + s[2..];
    assert StartsWith(s, "port") ==> s == "port" + s[4..];
    assert StartsWith(s, "host") ==> s == "host" + s[4..];
    if s == "port" || s == "host" {
      assert s[..2][0] != "ip"[0];
      assert s[..4] == s && s[4..] == "";
    }
    if s == "host" {
      assert s[..4][0] != "port"[0];
    }
  }

  lemma EnvVarIsPrinted(s: string, v: Variable)
    requires '}' !in s && '.' !in s && ParseEnvVar(s) == Some(v)
    ensures v.EnvVar? && WellFormed(v) && s == PrintExpr(v)
  {
    EnvVarNameShape(s);
    hide EnvVarName, IsEnvName;
    var (rest, name) := EnvVarName(s).value;
    if v.default.Some? {
      var default := v.default.value;
      assert rest == ":-" + default && s == (name + ":-") + default;
      InConcat('}', name + ":-", default);
      InConcat('.', name + ":-", default);
    } else {
      assert name + "" == name;
    }
  }

  lemma PrintedEnvVarParses(v: Variable)
    requires v.EnvVar? && WellFormed(v)
    ensures ParseEnvVar(PrintExpr(v)) == Some(v)
  {
    var rest := if v.default.Some? then ":-" + v.default.value else "";
    assert PrintExpr(v) == v.name + rest;
    EnvVarNameReads(v.name, rest);
    hide EnvVarName, IsEnvName;
    if v.default.Some? {
      assert rest[..2] == ":-" && rest[2..] == v.default.value;
    }
  }

  lemma EnvVarRoundTrip(s: string, v: Variable)
    requires '}' !in s && '.' !in s
    ensures ParseEnvVar(s) == Some(v) <==> v.EnvVar? && WellFormed(v) && s == PrintExpr(v)
  {
    hide ParseEnvVar, WellFormed, PrintExpr;
    if ParseEnvVar(s) == Some(v) {
      EnvVarIsPrinted(s, v);
    }
    if v.EnvVar? && WellFormed(v) {
      PrintedEnvVarParses(v);
    }
  }

  lemma DotsInPrinted(v: Variable)
    requires WellFormed(v)
    ensures '.' in PrintExpr(v) <==> v.ServiceRef?
  {
    match v {
      case EnvVar(name, default) =>
        assert '.' !in name;
        if default.Some? {
          InConcat('.', name + ":-", default.value);
          InConcat('.', name, ":-");
        }
      case ServiceRef(service, property) =>
        assert PrintExpr(v)[|service|] == '.';
    }
  }

  /** An expression without `}` parses exactly when it is what the printer makes of a well-formed variable. */
  lemma ExprRoundTrip(s: string, v: Variable)
    requires '}' !in s
    ensures ParseVariableExpr(s) == Ok(v) <==> WellFormed(v) && s == PrintExpr(v)
  {
    ServiceRefRoundTrip(s, v);
    if '.' !in s {
      EnvVarRoundTrip(s, v);
    }
    if WellFormed(v) && s == PrintExpr(v) {
      DotsInPrinted(v);
    }
    if ParseServiceRef(s) == Some(v) {
      DotsInPrinted(v);
    }
  }

  lemma PrintedExprHasNoClose(v: Variable)
    requires WellFormed(v)
    ensures '}' !in PrintExpr(v)
  {
    forall i | 0 <= i < |PrintExpr(v)|
      ensures PrintExpr(v)[i] != '}'
    {
    }
  }

  /** Parser and printer are inverse, in both directions and for every text that follows. */
  lemma VariableRoundTrip(s: string, rest: string, v: Variable)
    ensures ParseVariable(s) == Some((rest, Ok(v))) <==> WellFormed(v) && s == PrintVariable(v) + rest
  {
    if WellFormed(v) && s == PrintVariable(v) + rest {
      PrintedExprHasNoClose(v);
      ClosedTextSplits(s, PrintExpr(v), rest);
      ExprRoundTrip(PrintExpr(v), v);
    }
    if ParseVariable(s) == Some((rest, Ok(v))) {
      var e := ClosedTextJoins(s);
      ExprRoundTrip(e, v);
    }
  }

  lemma ClosedTextJoins(s: string) returns (e: string)
    requires ParseVariable(s).Some?
    ensures '}' !in e && s == "${" + e + "}" + ParseVariable(s).value.0
    ensures ParseVariable(s).value.1 == ParseVariableExpr(e)
  {
    var close := IndexOf(s[2..], '}').value;
    e := s[2..][..close];
    SplitAtClose(s, close);
  }

  lemma SplitAtClose(s: string, close: nat)
    requires OpensAt(s, 0) && close + 2 < |s| && s[close + 2] == '}'
    ensures s == "${" + s[2..][..close] + "}" + s[2..][close + 1..]
  {
  }

  lemma ClosedTextSplits(s: string, e: string, rest: string)
    requires '}' !in e && s == "${" + e + "}" + rest
    ensures ParseVariable(s) == Some((rest, ParseVariableExpr(e)))
  {
    var inner := s[2..];
    assert s[..2] == "${" && inner == e + "}" + rest;
    assert inner[..|e|] == e;
    IndexOfIs(inner, '}', |e|);
    assert inner[|e| + 1..] == rest;
  }
}
