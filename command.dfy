/** `#[klipper_command]`: the command a handler function declares, read off its
    signature, and the names and descriptor derived from it. */
module Commands {
  import opened Types
  import opened Syn
  import opened Text
  import MsgDesc

  datatype Arg = Arg(name: string, ty: string)

  datatype Command = Command(
    name: string,
    id: Option<u8>,
    handlerName: string,
    modulePath: Option<seq<string>>,
    hasContext: bool,
    args: seq<Arg>)

  /** Why `Command::parse` gives up: a `syn` error it returns with `?`, or an
      `abort!`, which ends the build script with a panic. */
  datatype CommandError = Syntax(e: ParseError) | Aborted(msg: string)

  /** A function parameter pattern: a plain identifier or anything else. */
  datatype Pat = PatIdent(ident: string) | PatOther

  /** A parameter of the handler: `self` or `pattern: Type` (the type by its
      printed form). */
  datatype FnArg = Receiver | Typed(pat: Pat, ty: string)

  /** The parts of the parsed `fn` item the command is built from. */
  datatype ItemFn = ItemFn(name: string, inputs: seq<FnArg>)

  /** `name.strip_prefix('_').unwrap_or(name)`. */
  function StripUnderscore(s: string): (r: string)
    ensures s == r || s == "_" + r
    ensures |s| > 0 && s[0] == '_' ==> s == "_" + r
  {
    if |s| > 0 && s[0] == '_' then s[1..] else s
  }

  /** `Arg::new`: one leading underscore is dropped, and what is left must
      parse as an identifier. */
  function NewArg(name: string, ty: string): (r: Result<Arg, ParseError>)
    ensures r.Ok? <==> IsIdentText(StripUnderscore(name))
    ensures r.Ok? ==> r.value == Arg(StripUnderscore(name), ty)
  {
    var n := StripUnderscore(name);
    if IsIdentText(n) then Ok(Arg(n, ty)) else Err(ParseError("expected identifier"))
  }

  /** `parse_has_context_param`: the first parameter is the context when it is a
      plain identifier named `context` or `ctx`, with at most one leading
      underscore. */
  function HasContextParam(inputs: seq<FnArg>): (r: bool)
    ensures r <==> (|inputs| > 0 && inputs[0].Typed? && inputs[0].pat.PatIdent?
      && inputs[0].pat.ident in {"context", "ctx", "_context", "_ctx"})
  {
    if |inputs| > 0 && inputs[0].Typed? && inputs[0].pat.PatIdent? then
      var n := StripUnderscore(inputs[0].pat.ident);
      ContextNames(inputs[0].pat.ident);
      n == "context" || n == "ctx"
    else false
  }

  lemma ContextNames(s: string)
    ensures StripUnderscore(s) in {"context", "ctx"} <==> s in {"context", "ctx", "_context", "_ctx"}
  {
    if s == "_context" {
      assert s[1..] == "context";
    } else if s == "_ctx" {
      assert s[1..] == "ctx";
    }
  }

  /** One remaining parameter, at position `idx` of the signature. */
  function ArgOf(a: FnArg, idx: nat): (r: Result<Arg, CommandError>)
    ensures r.Ok? <==> PlainParam(a)
    ensures r.Ok? ==> r.value == Arg(StripUnderscore(a.pat.ident), a.ty)
    ensures r.Err? ==> (r.error.Syntax? <==> a.Typed? && a.pat.PatIdent?)
  {
    match a
    case Typed(PatIdent(id), ty) =>
      (match NewArg(id, ty)
       case Ok(arg) => Ok(arg)
       case Err(e) => Err(Syntax(e)))
    case Typed(PatOther, _) => Err(Aborted("Argument " + Decimal(idx) + " has non-identifier name"))
    case Receiver => Err(Aborted("Could not understand argument " + Decimal(idx)))
  }

  /** The arguments of the parameters from position `idx` on, or the error of
      the first one that is refused. */
  function ArgsFrom(inputs: seq<FnArg>, idx: nat): Result<seq<Arg>, CommandError>
    decreases |inputs|
  {
    if inputs == [] then Ok([])
    else
      var a :- ArgOf(inputs[0], idx);
      var rest :- ArgsFrom(inputs[1..], idx + 1);
      Ok([a] + rest)
  }

  /** The position of the first parameter that is not the context. */
  function FirstArg(f: ItemFn): nat
  {
    if HasContextParam(f.inputs) then 1 else 0
  }

  /** The parameters after the context. */
  function ArgParams(f: ItemFn): seq<FnArg>
  {
    if HasContextParam(f.inputs) then f.inputs[1..] else f.inputs
  }

  /** A typed parameter with a plain identifier name that survives `Arg::new`. */
  predicate PlainParam(a: FnArg)
  {
    a.Typed? && a.pat.PatIdent? && IsIdentText(StripUnderscore(a.pat.ident))
  }

  /** The command `Command::parse` builds: no ID and no module yet, handled by
      the function of its own name, taking every parameter after the context,
      in order; refused exactly when one of those is not a plain parameter. */
  function CommandOf(f: ItemFn): (r: Result<Command, CommandError>)
    ensures r.Ok? <==> forall i :: 0 <= i < |ArgParams(f)| ==> PlainParam(ArgParams(f)[i])
    ensures r.Ok? ==> var c := r.value;
      && c.id.None? && c.modulePath.None? && c.name == f.name && c.handlerName == f.name
      && c.hasContext == HasContextParam(f.inputs)
      && |c.args| == |ArgParams(f)|
      && forall i :: 0 <= i < |c.args| ==>
        c.args[i] == Arg(StripUnderscore(ArgParams(f)[i].pat.ident), ArgParams(f)[i].ty)
  {
    ArgsFromOk(ArgParams(f), FirstArg(f));
    var args :- ArgsFrom(ArgParams(f), FirstArg(f));
    Ok(Command(f.name, None, f.name, None, HasContextParam(f.inputs), args))
  }

  /** An accepted result extended in front; errors pass through. */
  function PrependArgs(done: seq<Arg>, r: Result<seq<Arg>, CommandError>): Result<seq<Arg>, CommandError>
  {
    match r
    case Ok(rest) => Ok(done + rest)
    case Err(e) => Err(e)
  }

  /** `Command::parse`: peek for the context parameter, then push one argument
      per remaining parameter, aborting at the first that is not a plain
      identifier parameter. */
  method ParseCommand(f: ItemFn) returns (r: Result<Command, CommandError>)
    ensures r == CommandOf(f)
  {
    var hasContext := HasContextParam(f.inputs);
    var idx := if hasContext then 1 else 0;
    assert ArgParams(f) == f.inputs[idx..];
    var args: seq<Arg> := [];
    ghost var all := ArgsFrom(ArgParams(f), idx);
    PrependNothing(all);
    while idx < |f.inputs|
      invariant FirstArg(f) <= idx <= |f.inputs|
      invariant PrependArgs(args, ArgsFrom(f.inputs[idx..], idx)) == all
    {
      var a := ArgOf(f.inputs[idx], idx);
      ArgsStep(f.inputs, idx, args);
      if a.Err? {
        return Err(a.error);
      }
      args := args + [a.value];
      idx := idx + 1;
    }
    assert f.inputs[idx..] == [];
    assert args + [] == args;
    r := Ok(Command(f.name, None, f.name, None, hasContext, args));
  }

  lemma PrependNothing(r: Result<seq<Arg>, CommandError>)
    ensures PrependArgs([], r) == r
  {
    if r.Ok? {
      assert [] + r.value == r.value;
    }
  }

  /** One turn of the loop: the parameter at `idx` either ends the parse with
      its error or moves its argument to the accepted ones. */
  lemma ArgsStep(inputs: seq<FnArg>, idx: nat, args: seq<Arg>)
    requires idx < |inputs|
    ensures ArgOf(inputs[idx], idx).Err? ==>
      PrependArgs(args, ArgsFrom(inputs[idx..], idx)) == Err(ArgOf(inputs[idx], idx).error)
    ensures ArgOf(inputs[idx], idx).Ok? ==>
      PrependArgs(args, ArgsFrom(inputs[idx..], idx))
        == PrependArgs(args + [ArgOf(inputs[idx], idx).value], ArgsFrom(inputs[idx + 1..], idx + 1))
  {
    var rest := inputs[idx..];
    assert rest[0] == inputs[idx] && rest[1..] == inputs[idx + 1..];
    var a := ArgOf(inputs[idx], idx);
    var tail := ArgsFrom(inputs[idx + 1..], idx + 1);
    if a.Ok? && tail.Ok? {
      assert args + ([a.value] + tail.value) == (args + [a.value]) + tail.value;
    }
  }

  /** Every parameter from `idx` on is accepted exactly when each is a typed
      identifier pattern whose name, less one underscore, is an identifier; the
      arguments are those names and types, in order. */
  lemma {:induction false} ArgsFromOk(inputs: seq<FnArg>, idx: nat)
    ensures ArgsFrom(inputs, idx).Ok? <==> forall i :: 0 <= i < |inputs| ==> PlainParam(inputs[i])
    ensures ArgsFrom(inputs, idx).Ok? ==> (|ArgsFrom(inputs, idx).value| == |inputs|
      && forall i :: 0 <= i < |inputs| ==>
        ArgsFrom(inputs, idx).value[i] == Arg(StripUnderscore(inputs[i].pat.ident), inputs[i].ty))
    decreases |inputs|
  {
    if inputs != [] {
      ArgsFromOk(inputs[1..], idx + 1);
      assert forall i :: 1 <= i < |inputs| ==> inputs[i] == inputs[1..][i - 1];
    }
  }

  /** A non-identifier parameter aborts the parse, reported by its position in
      the signature. */
  lemma {:induction false} FirstRefusedReported(inputs: seq<FnArg>, idx: nat, k: nat)
    requires k < |inputs| && inputs[k].Typed? && inputs[k].pat.PatOther?
    requires forall i :: 0 <= i < k ==> PlainParam(inputs[i])
    ensures ArgsFrom(inputs, idx) == Err(Aborted("Argument " + Decimal(idx + k) + " has non-identifier name"))
    decreases k
  {
    if k > 0 {
      FirstRefusedReported(inputs[1..], idx + 1, k - 1);
    }
  }

  /** `handler_fn_name`. */
  function HandlerFnName(name: string): (r: string)
    ensures |r| == 8 + |name| + 8
    ensures r[..8] == "_anchor_" && r[8..8 + |name|] == name && r[8 + |name|..] == "_handler"
  {
    "_anchor_" + name + "_handler"
  }

  /** Distinct commands get distinct handler functions. */
  lemma HandlerFnNameInjective(a: string, b: string)
    requires HandlerFnName(a) == HandlerFnName(b)
    ensures a == b
  {
    assert |a| == |b|;
    assert HandlerFnName(a)[8..8 + |a|] == a;
  }

  /** The `#(#mp::)*` part of `target`: each module segment followed by `::`,
      in order. */
  function ModulePath(mp: seq<string>): string
  {
    if mp == [] then "" else mp[0] + "::" + ModulePath(mp[1..])
  }

  /** Entering a submodule appends its segment and `::` to the path. */
  lemma {:induction false} ModulePathAppend(mp: seq<string>, seg: string)
    ensures ModulePath(mp + [seg]) == ModulePath(mp) + seg + "::"
  {
    if mp == [] {
      assert [seg][1..] == [];
    } else {
      assert (mp + [seg])[1..] == mp[1..] + [seg];
      ModulePathAppend(mp[1..], seg);
    }
  }

  predicate NoColon(s: string) { MsgDesc.NoChar(s, ':') }

  lemma IdentHasNoColon(s: string)
    requires IsIdentText(s)
    ensures NoColon(s)
  {
    assert forall i :: 1 <= i < |s| ==> IdentContinue(s[i]);
  }

  lemma ColonAfterSegment(mp: seq<string>, h: string)
    requires mp != []
    ensures !NoColon(ModulePath(mp) + h)
  {
    assert (ModulePath(mp) + h)[|mp[0]|] == ':';
  }

  lemma ShorterSegmentDiffers(a: string, x: string, b: string, y: string)
    requires NoColon(b) && |a| < |b|
    ensures a + "::" + x != b + "::" + y
  {
    assert (a + "::" + x)[|a|] == ':';
    assert (b + "::" + y)[|a|] == b[|a|];
  }

  /** The first `::` ends the first segment. */
  lemma FirstSegmentAgrees(a: string, x: string, b: string, y: string)
    requires NoColon(a) && NoColon(b)
    requires a + "::" + x == b + "::" + y
    ensures a == b && x == y
  {
    var s := a + "::" + x;
    if |a| < |b| {
      ShorterSegmentDiffers(a, x, b, y);
      assert false;
    } else if |b| < |a| {
      ShorterSegmentDiffers(b, y, a, x);
      assert false;
    } else {
      assert a == s[..|a|] == b;
      assert x == s[|a| + 2..] == y;
    }
  }

  /** With segments and handler names free of `:`, the text a module path and
      a handler name give determines both. */
  lemma {:induction false} ModulePathUnambiguous(mp1: seq<string>, h1: string, mp2: seq<string>, h2: string)
    requires forall i :: 0 <= i < |mp1| ==> NoColon(mp1[i])
    requires forall i :: 0 <= i < |mp2| ==> NoColon(mp2[i])
    requires NoColon(h1) && NoColon(h2)
    requires ModulePath(mp1) + h1 == ModulePath(mp2) + h2
    ensures mp1 == mp2 && h1 == h2
    decreases |mp1|
  {
    var s := ModulePath(mp1) + h1;
    if mp1 == [] && mp2 == [] {
      assert ModulePath(mp1) + h1 == h1 && ModulePath(mp2) + h2 == h2;
    } else if mp1 == [] {
      ColonAfterSegment(mp2, h2);
      assert false;
    } else if mp2 == [] {
      ColonAfterSegment(mp1, h1);
      assert false;
    } else {
      var a, b := mp1[0], mp2[0];
      assert s == a + "::" + (ModulePath(mp1[1..]) + h1);
      assert s == b + "::" + (ModulePath(mp2[1..]) + h2);
      FirstSegmentAgrees(a, ModulePath(mp1[1..]) + h1, b, ModulePath(mp2[1..]) + h2);
      ModulePathUnambiguous(mp1[1..], h1, mp2[1..], h2);
      assert mp1 == [a] + mp1[1..] && mp2 == [b] + mp2[1..];
    }
  }

  /** `target`, as the path text it emits: the bare handler without a module,
      else the handler inside `crate::` and the module path. */
  function Target(c: Command): (r: string)
    ensures c.modulePath.None? ==> r == c.handlerName
    ensures c.modulePath.Some? ==> |r| >= 7 + |c.handlerName| && r[..7] == "crate::" && r[|r| - |c.handlerName|..] == c.handlerName
  {
    match c.modulePath
    case None => c.handlerName
    case Some(mp) => "crate::" + ModulePath(mp) + c.handlerName
  }

  lemma QualifiedTargetHasColon(c: Command)
    requires c.modulePath.Some?
    ensures !NoColon(Target(c))
  {
    assert Target(c)[5] == ':';
  }

  lemma SegmentsHaveNoColon(mp: seq<string>)
    requires forall i :: 0 <= i < |mp| ==> IsIdentText(mp[i])
    ensures forall i :: 0 <= i < |mp| ==> NoColon(mp[i])
  {
    forall i | 0 <= i < |mp| ensures NoColon(mp[i]) { IdentHasNoColon(mp[i]); }
  }

  lemma PrefixCancels(p: string, a: string, b: string, c: string, d: string)
    requires p + a + b == p + c + d
    ensures a + b == c + d
  {
    assert a + b == (p + a + b)[|p|..];
    assert c + d == (p + c + d)[|p|..];
  }

  lemma CratePathUnambiguous(mp1: seq<string>, h1: string, mp2: seq<string>, h2: string)
    requires forall i :: 0 <= i < |mp1| ==> NoColon(mp1[i])
    requires forall i :: 0 <= i < |mp2| ==> NoColon(mp2[i])
    requires NoColon(h1) && NoColon(h2)
    requires "crate::" + ModulePath(mp1) + h1 == "crate::" + ModulePath(mp2) + h2
    ensures mp1 == mp2 && h1 == h2
  {
    PrefixCancels("crate::", ModulePath(mp1), h1, ModulePath(mp2), h2);
    ModulePathUnambiguous(mp1, h1, mp2, h2);
  }

  predicate IdentSegments(mp: Option<seq<string>>)
  {
    mp.Some? ==> forall i :: 0 <= i < |mp.value| ==> IsIdentText(mp.value[i])
  }

  /** Two handlers of identifier segments and names get the same `target`
      only when they sit in the same module under the same name. */
  lemma TargetInjective(c1: Command, c2: Command)
    requires IsIdentText(c1.handlerName) && IsIdentText(c2.handlerName)
    requires IdentSegments(c1.modulePath) && IdentSegments(c2.modulePath)
    requires Target(c1) == Target(c2)
    ensures c1.modulePath == c2.modulePath && c1.handlerName == c2.handlerName
  {
    IdentHasNoColon(c1.handlerName);
    IdentHasNoColon(c2.handlerName);
    match (c1.modulePath, c2.modulePath)
    case (None, None) =>
    case (None, Some(_)) =>
      QualifiedTargetHasColon(c2);
      assert false;
    case (Some(_), None) =>
      QualifiedTargetHasColon(c1);
      assert false;
    case (Some(mp1), Some(mp2)) =>
      SegmentsHaveNoColon(mp1);
      SegmentsHaveNoColon(mp2);
      CratePathUnambiguous(mp1, c1.handlerName, mp2, c2.handlerName);
  }

  function DescArgs(args: seq<Arg>): (r: seq<MsgDesc.DescArg>)
    ensures |r| == |args| && forall i :: 0 <= i < |args| ==> r[i] == MsgDesc.DescArg(args[i].name, args[i].ty)
  {
    seq(|args|, i requires 0 <= i < |args| => MsgDesc.DescArg(args[i].name, args[i].ty))
  }

  /** `get_desc_string`: the descriptor of the name and the arguments in order,
      refused exactly when some argument type has no format. */
  function GetDescString(c: Command): (r: Result<string, string>)
    ensures r.Ok? <==> forall i :: 0 <= i < |c.args| ==> MsgDesc.TypeFormat(c.args[i].ty).Some?
  {
    MsgDesc.DescriptorOkIff(c.name, DescArgs(c.args));
    MsgDesc.Descriptor(c.name, DescArgs(c.args))
  }

  lemma IdentHasNoSpace(s: string)
    requires IsIdentText(s)
    ensures MsgDesc.NoChar(s, ' ')
  {
    assert forall i :: 1 <= i < |s| ==> IdentContinue(s[i]);
  }

  /** The descriptor of a parsed command lists the command name and then one
      `name=fmt` word per parameter after the context, the parameter names with
      one leading underscore dropped. */
  lemma ParsedCommandDescriptor(f: ItemFn)
    requires IsIdentText(f.name) && CommandOf(f).Ok?
    requires forall i :: 0 <= i < |CommandOf(f).value.args| ==> MsgDesc.TypeFormat(CommandOf(f).value.args[i].ty).Some?
    ensures GetDescString(CommandOf(f).value).Ok?
    ensures var c := CommandOf(f).value;
      MsgDesc.Words(GetDescString(c).value) == [f.name] + MsgDesc.FieldWords(DescArgs(c.args))
  {
    var c := CommandOf(f).value;
    var skip := if c.hasContext then 1 else 0;
    IdentHasNoSpace(f.name);
    var d := DescArgs(c.args);
    forall i | 0 <= i < |d|
      ensures MsgDesc.NoChar(d[i].name, ' ') && MsgDesc.TypeFormat(d[i].ty).Some?
    {
      ArgsFromOk(f.inputs[skip..], skip);
      assert f.inputs[skip..][i] == f.inputs[skip + i];
      IdentHasNoSpace(d[i].name);
    }
    MsgDesc.DescriptorWords(f.name, d);
  }
}
