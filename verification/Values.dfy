/**
 What the references of a configuration value resolve to (crates/harness-config/src/resolver.rs,
 `resolve_string`), stated of the texts themselves.
 */
module Values {
  import opened Common
  import opened Resolver
  import opened Substitution

  /** A text that is one variable resolves to the variable's value, or names it in the error. */
  lemma OneReference(v: Variable, ctx: Context)
    requires WellFormed(v)
    ensures Resolved(PrintVariable(v), ctx) ==
            if ValueOf(v, ctx).Some? then Ok(ValueOf(v, ctx).value) else Err(EnvVarNotFound([NameOf(v)]))
  {
    hide ParseVariable, WellFormed, PrintVariable, ReadTemplate, ValueOf, NameOf;
    var s := PrintVariable(v);
    assert s + "" == s;
    VariableRoundTrip(s, "", v);
    CompleteVariable(s);
    EmptyTemplate();
    var t := Reference(v, End);
    assert ReadTemplate(s) == t && FirstMalformed(t) == FirstMalformed(End) == None;
    assert Rendered(End, ctx) == "" && Rendered(t, ctx) == ValueOf(v, ctx).GetOr("") + "";
    assert Unresolved(End, ctx) == [] && ValueOf(v, ctx).None? ==> Unresolved(t, ctx) == [NameOf(v)] + [];
    assert ValueOf(v, ctx).GetOr("") + "" == ValueOf(v, ctx).GetOr("");
    assert [NameOf(v)] + [] == [NameOf(v)];
  }

  // ----- Services -----

  lemma ReferenceText(s: string, property: string)
    ensures PrintVariable(ServiceRef(s, property)) == "${" + s + "." + property + "}"
  {
    assert "${" + (s + "." + property) + "}" == "${" + s + "." + property + "}";
  }

  /** After a service has been added, `${s.ip}`, `${s.host}` and `${s.port}` resolve to what it was added with. */
  lemma AddedServiceResolves(ctx: Context, s: string, ip: string, port: Option<nat>, host: string)
    requires IsServiceName(s)
    ensures var after := AddService(ctx, s, ip, port, host);
      && Resolved("${" + s + "." + "ip" + "}", after) == Ok(ip)
      && Resolved("${" + s + "." + "host" + "}", after) == Ok(host)
      && (port.None? ==> Resolved("${" + s + "." + "port" + "}", after) == Resolved("${" + s + "." + "port" + "}", ctx))
      && (port.Some? ==> Resolved("${" + s + "." + "port" + "}", after).Ok?
                         && ReadDecimal(Resolved("${" + s + "." + "port" + "}", after).value) == port.value)
  {
    hide PrintVariable, Resolved, Decimal, ReadDecimal;
    var after := AddService(ctx, s, ip, port, host);
    OneReference(ServiceRef(s, "ip"), after);
    OneReference(ServiceRef(s, "host"), after);
    OneReference(ServiceRef(s, "port"), after);
    OneReference(ServiceRef(s, "port"), ctx);
    ReferenceText(s, "ip");
    ReferenceText(s, "host");
    ReferenceText(s, "port");
    if port.Some? {
      DecimalReadsBack(port.value);
    }
  }

  /** Before any service has been added, a reference is an error that names it. */
  lemma UnknownServiceIsNamed(processEnv: map<string, string>, s: string, property: string)
    requires IsServiceName(s) && IsProperty(property)
    ensures Resolved("${" + s + "." + property + "}", NewContext(processEnv)) ==
            Err(EnvVarNotFound([s + "." + property]))
  {
    hide PrintVariable, Resolved;
    OneReference(ServiceRef(s, property), NewContext(processEnv));
    ReferenceText(s, property);
  }

  /** Adding a service leaves a reference to another service as it was. */
  lemma OtherReferenceUnaffected(ctx: Context, s: string, property: string, other: string, ip: string,
                                 port: Option<nat>, host: string)
    requires IsServiceName(s) && IsProperty(property) && s != other
    ensures var text := "${" + s + "." + property + "}";
      Resolved(text, AddService(ctx, other, ip, port, host)) == Resolved(text, ctx)
  {
    hide PrintVariable, Resolved, Decimal;
    OneReference(ServiceRef(s, property), ctx);
    OneReference(ServiceRef(s, property), AddService(ctx, other, ip, port, host));
    ReferenceText(s, property);
  }

  /** Adding a service changes no text that does not refer to it. */
  lemma OtherTextsUnaffected(ctx: Context, s: string, ip: string, port: Option<nat>, host: string, text: string)
    requires forall f :: f in Variables(text, 0) && f.Ok? ==>
               !(f.value.variable.ServiceRef? && f.value.variable.service == s)
    ensures Resolved(text, AddService(ctx, s, ip, port, host)) == Resolved(text, ctx)
  {
    hide Variables, ReadTemplate, Decimal, Rendered, Unresolved, FirstMalformed;
    var after := AddService(ctx, s, ip, port, host);
    assert forall f :: f in Variables(text, 0) && f.Ok? ==>
             ValueOf(f.value.variable, after) == ValueOf(f.value.variable, ctx);
    if FirstMalformed(ReadTemplate(text)).None? {
      SameValues(text, 0, after, ctx);
    }
  }

  /** Where every variable has the same value, a text resolves alike. */
  lemma {:induction false} SameValues(s: string, pos: nat, a: Context, b: Context)
    requires FirstMalformed(ReadTemplate(s)).None?
    requires forall f :: f in Variables(s, pos) && f.Ok? ==>
             ValueOf(f.value.variable, a) == ValueOf(f.value.variable, b)
    ensures Rendered(ReadTemplate(s), a) == Rendered(ReadTemplate(s), b)
    ensures Unresolved(ReadTemplate(s), a) == Unresolved(ReadTemplate(s), b)
    decreases |s|
  {
    hide Variables, ReadTemplate, ValueOf, NameOf, PrintVariable, WellFormed, Literals;
    var found := Variables(s, pos);
    if found == [] {
      NoMoreVariables(s, pos);
      LiteralsRender(s, End, a);
      LiteralsRender(s, End, b);
    } else {
      FirstVariable(s, pos);
      var Found(start, end, v) := found[0].value;
      var text, rest := s[..start - pos], s[end - pos..];
      LiteralsRender(text, Reference(v, ReadTemplate(rest)), a);
      LiteralsRender(text, Reference(v, ReadTemplate(rest)), b);
      assert found[0] in found && forall f :: f in found[1..] ==> f in found;
      SameValues(rest, end, a, b);
    }
  }

  // ----- Environment variables -----

  lemma VariableText(name: string, default: string)
    ensures PrintVariable(EnvVar(name, None)) == "${" + name + "}"
    ensures PrintVariable(EnvVar(name, Some(default))) == "${" + name + ":-" + default + "}"
  {
    assert "${" + (name + ":-" + default) + "}" == "${" + name + ":-" + default + "}";
  }

  /** A variable given to the context comes before the process environment and the default. */
  lemma GivenVariableFirst(ctx: Context, name: string, value: string, default: string)
    requires IsEnvName(name) && '}' !in default && '.' !in default
    ensures Resolved("${" + name + "}", SetEnv(ctx, name, value)) == Ok(value)
    ensures Resolved("${" + name + ":-" + default + "}", SetEnv(ctx, name, value)) == Ok(value)
  {
    hide PrintVariable, Resolved;
    VariableText(name, default);
    OneReference(EnvVar(name, None), SetEnv(ctx, name, value));
    OneReference(EnvVar(name, Some(default)), SetEnv(ctx, name, value));
  }

  /** The process environment comes before the default; with neither, the error names the variable. */
  lemma EnvironmentBeforeDefault(processEnv: map<string, string>, name: string, default: string)
    requires IsEnvName(name) && '}' !in default && '.' !in default
    ensures Resolved("${" + name + "}", NewContext(processEnv)) ==
            if name in processEnv then Ok(processEnv[name]) else Err(EnvVarNotFound([name]))
    ensures Resolved("${" + name + ":-" + default + "}", NewContext(processEnv)) ==
            Ok(if name in processEnv then processEnv[name] else default)
  {
    hide PrintVariable, Resolved;
    VariableText(name, default);
    OneReference(EnvVar(name, None), NewContext(processEnv));
    OneReference(EnvVar(name, Some(default)), NewContext(processEnv));
  }

  /** A variable that enters the process environment later counts only where the context was not given one. */
  lemma LaterEnvironment(ctx: Context, later: map<string, string>, name: string, default: string)
    requires IsEnvName(name) && '}' !in default && '.' !in default
    ensures Resolved("${" + name + ":-" + default + "}", ctx.(processEnv := later)) ==
            Ok(if name in ctx.envVars then ctx.envVars[name] else if name in later then later[name] else default)
  {
    hide PrintVariable, Resolved;
    VariableText(name, default);
    OneReference(EnvVar(name, Some(default)), ctx.(processEnv := later));
  }

  // ----- Several variables -----

  /** The variables of a written template that do not resolve alone, as they are named, in order. */
  function Missing(pieces: seq<(string, Variable)>, ctx: Context): seq<string> {
    if pieces == [] then []
    else
      (match Resolved(PrintVariable(pieces[0].1), ctx) case Err(EnvVarNotFound(names)) => names case _ => [])
      + Missing(pieces[1..], ctx)
  }

  /** A template's error lists every variable that does not resolve, in order. */
  lemma {:induction false} ErrorsInOrder(pieces: seq<(string, Variable)>, tail: string, ctx: Context)
    requires Writable(pieces, tail)
    ensures Unresolved(ReadTemplate(WriteTemplate(pieces, tail)), ctx) == Missing(pieces, ctx)
    decreases |pieces|
  {
    hide FindOpen, ParseVariable, WellFormed, PrintVariable, ReadTemplate;
    hide ValueOf, NameOf, Writable, Literals, Resolved;
    if pieces == [] {
      WritableNothing(pieces, tail);
      NoOpenIsLiteral(tail);
      LiteralsRender(tail, End, ctx);
    } else {
      WritableTail(pieces, tail);
      var (text, v) := pieces[0];
      var rest := WriteTemplate(pieces[1..], tail);
      var s := WriteTemplate(pieces, tail);
      FirstPiece(text, v, rest);
      OpenPrefix(s, |text|);
      assert s[..|text|] == text;
      CompleteVariable(s[|text|..]);
      LiteralsRender(text, Reference(v, ReadTemplate(rest)), ctx);
      OneReference(v, ctx);
      ErrorsInOrder(pieces[1..], tail, ctx);
    }
  }

  lemma TemplateErrors(pieces: seq<(string, Variable)>, tail: string, ctx: Context)
    requires Writable(pieces, tail) && Missing(pieces, ctx) != []
    ensures Resolved(WriteTemplate(pieces, tail), ctx) == Err(EnvVarNotFound(Missing(pieces, ctx)))
  {
    hide ReadTemplate, Writable, Missing;
    WrittenTemplateReads(pieces, tail, ctx);
    ErrorsInOrder(pieces, tail, ctx);
  }
}
