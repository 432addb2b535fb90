/** `klipper_output!`: the argument types inferred from a printf-style format
    string, the comma-separated values the macro requires, and the name of the
    generated sender. */
module OutputFormat {
  import opened Types
  import opened Syn
  import StaticStrings

  datatype OutArg = OutArg(ty: string, value: Option<Expr>)

  datatype Output = Output(id: Option<u8>, format: string, args: seq<OutArg>)

  /** `TYPE_MAP` in the order a `BTreeMap` iterates it (by key, bytewise). */
  const TYPE_MAP: seq<(string, string)> :=
    [("*s", "&str"), (".*s", "&[u8]"), ("c", "u8"), ("hi", "i16"), ("hu", "u16"), ("i", "i32"), ("u", "u32")]

  predicate StartsWith(s: string, p: string)
  {
    |p| <= |s| && s[..|p|] == p
  }

  /** The type of the first key in `keys` that the text starts with. */
  function FirstKey(keys: seq<(string, string)>, fmt: string): (r: Option<string>)
    ensures r.Some? <==> exists k :: 0 <= k < |keys| && StartsWith(fmt, keys[k].0)
  {
    if keys == [] then None
    else if StartsWith(fmt, keys[0].0) then Some(keys[0].1)
    else FirstKey(keys[1..], fmt)
  }

  /** The type a conversion contributes; the text is what follows the `%`. */
  function KindAt(fmt: string): Option<string>
  {
    FirstKey(TYPE_MAP, fmt)
  }

  /** No key is a prefix of another, so at most one key matches and the
      iteration order of the map does not matter. */
  lemma AtMostOneKeyMatches(fmt: string, j: nat, k: nat)
    requires j < |TYPE_MAP| && k < |TYPE_MAP|
    requires StartsWith(fmt, TYPE_MAP[j].0) && StartsWith(fmt, TYPE_MAP[k].0)
    ensures j == k
  {
    var a, b := TYPE_MAP[j].0, TYPE_MAP[k].0;
    assert a[0] == fmt[0] && b[0] == fmt[0];
    if a[0] == 'h' {
      assert a[1] == fmt[1] && b[1] == fmt[1];
    }
  }

  /** The first position of `c` in `s`. */
  function IndexOf(s: string, c: char): (r: Option<nat>)
    ensures r.Some? ==> r.value < |s| && s[r.value] == c && forall i :: 0 <= i < r.value ==> s[i] != c
    ensures r.None? ==> forall i :: 0 <= i < |s| ==> s[i] != c
  {
    if s == [] then None
    else if s[0] == c then Some(0)
    else match IndexOf(s[1..], c)
      case None => None
      case Some(i) => Some(i + 1)
  }

  /** `parse_args`: jump past each `%` and add the type of the key, if any, that
      the following text starts with. */
  function ParseArgs(fmt: string): seq<string>
    decreases |fmt|
  {
    match IndexOf(fmt, '%')
    case None => []
    case Some(pos) => Contribution(fmt[pos + 1..]) + ParseArgs(fmt[pos + 1..])
  }

  /** What one conversion adds: its type, or nothing when no key matches. */
  function Contribution(rest: string): (r: seq<string>)
    ensures |r| <= 1
  {
    match KindAt(rest) case Some(t) => [t] case None => []
  }

  lemma ParseArgsStep(fmt: string, pos: nat)
    requires IndexOf(fmt, '%') == Some(pos)
    ensures ParseArgs(fmt) == Contribution(fmt[pos + 1..]) + ParseArgs(fmt[pos + 1..])
  {
  }

  /** The key search of `parse_args`: the map in order, stopping at the first key
      the text starts with. */
  method MatchKey(fmt: string) returns (r: Option<string>)
    ensures r == KindAt(fmt)
  {
    var k := 0;
    while k < |TYPE_MAP|
      invariant 0 <= k <= |TYPE_MAP|
      invariant FirstKey(TYPE_MAP[k..], fmt) == KindAt(fmt)
    {
      assert TYPE_MAP[k..][1..] == TYPE_MAP[k + 1..];
      var (kind, ty) := TYPE_MAP[k];
      if StartsWith(fmt, kind) {
        return Some(ty);
      }
      k := k + 1;
    }
    r := None;
  }

  /** The `while let Some(pos) = fmt.find('%')` loop of `parse_args`. */
  method ParseArgsLoop(format: string) returns (args: seq<OutArg>)
    ensures |args| == |ParseArgs(format)|
    ensures forall i :: 0 <= i < |args| ==> args[i] == OutArg(ParseArgs(format)[i], None)
  {
    var fmt := format;
    ghost var types: seq<string> := [];
    args := [];
    while IndexOf(fmt, '%').Some?
      invariant types + ParseArgs(fmt) == ParseArgs(format)
      invariant |args| == |types| && forall i :: 0 <= i < |args| ==> args[i] == OutArg(types[i], None)
      decreases |fmt|
    {
      ghost var before := fmt;
      var pos := IndexOf(fmt, '%').value;
      fmt := fmt[pos + 1..];
      var kind := MatchKey(fmt);
      ParseArgsStep(before, pos);
      AppendContribution(types, fmt, kind);
      if kind.Some? {
        types := types + [kind.value];
        args := args + [OutArg(kind.value, None)];
      }
    }
  }

  /** The types found so far, then what one conversion adds, then the rest. */
  lemma AppendContribution(types: seq<string>, fmt: string, kind: Option<string>)
    requires kind == KindAt(fmt)
    ensures kind.Some? ==> types + (Contribution(fmt) + ParseArgs(fmt)) == (types + [kind.value]) + ParseArgs(fmt)
    ensures kind.None? ==> types + (Contribution(fmt) + ParseArgs(fmt)) == types + ParseArgs(fmt)
  {
    if kind.None? {
      assert Contribution(fmt) == [];
      assert [] + ParseArgs(fmt) == ParseArgs(fmt);
    }
  }

  // ---------------------------------------------------------------------------
  // The count of arguments

  function CountChar(s: string, c: char): nat
  {
    if s == [] then 0 else (if s[0] == c then 1 else 0) + CountChar(s[1..], c)
  }

  /** The characters before the first `c` hold none of it. */
  lemma {:induction false} CountFromFirst(s: string, c: char, p: nat)
    requires IndexOf(s, c) == Some(p)
    ensures CountChar(s, c) == 1 + CountChar(s[p + 1..], c)
    decreases |s|
  {
    if s[0] != c {
      CountFromFirst(s[1..], c, p - 1);
      assert s[1..][p..] == s[p + 1..];
    }
  }

  /** Each `%` contributes at most one argument. */
  lemma {:induction false} ArityBound(fmt: string)
    ensures |ParseArgs(fmt)| <= CountChar(fmt, '%')
    decreases |fmt|
  {
    match IndexOf(fmt, '%')
    case None =>
      NoneCounted(fmt, '%');
    case Some(pos) =>
      ArityBound(fmt[pos + 1..]);
      CountFromFirst(fmt, '%', pos);
  }

  lemma {:induction false} NoneCounted(s: string, c: char)
    requires forall i :: 0 <= i < |s| ==> s[i] != c
    ensures CountChar(s, c) == 0
  {
    if s != [] {
      NoneCounted(s[1..], c);
    }
  }

  /** The reference reading: every `%` in the text, left to right, contributes
      the type of the key right after it, if one matches. */
  function ConversionTypes(fmt: string): seq<string>
  {
    if fmt == [] then []
    else if fmt[0] == '%' then Contribution(fmt[1..]) + ConversionTypes(fmt[1..])
    else ConversionTypes(fmt[1..])
  }

  lemma {:induction false} ConversionTypesSkip(fmt: string, p: nat)
    requires p <= |fmt| && forall i :: 0 <= i < p ==> fmt[i] != '%'
    ensures ConversionTypes(fmt) == ConversionTypes(fmt[p..])
    decreases p
  {
    if p > 0 {
      ConversionTypesSkip(fmt[1..], p - 1);
      assert fmt[1..][p - 1..] == fmt[p..];
    }
  }

  /** Jumping from `%` to `%` with `find` visits every `%` exactly once. */
  lemma {:induction false} ParseArgsVisitsEveryPercent(fmt: string)
    ensures ParseArgs(fmt) == ConversionTypes(fmt)
    decreases |fmt|
  {
    match IndexOf(fmt, '%')
    case None =>
      ConversionTypesSkip(fmt, |fmt|);
    case Some(pos) =>
      ConversionTypesSkip(fmt, pos);
      assert fmt[pos..][1..] == fmt[pos + 1..];
      ParseArgsVisitsEveryPercent(fmt[pos + 1..]);
  }

  /** Text without a `%` contributes nothing. */
  lemma SkipPlain(x: string, y: string)
    requires '%' !in x
    ensures ConversionTypes(x + y) == ConversionTypes(y)
  {
    assert forall i :: 0 <= i < |x| ==> x[i] != '%';
    ConversionTypesSkip(x + y, |x|);
    assert (x + y)[|x|..] == y;
  }

  lemma AtPercent(y: string)
    ensures ConversionTypes("%" + y) == Contribution(y) + ConversionTypes(y)
  {
    assert ("%" + y)[1..] == y;
  }

  /** Keys the text does not start with are passed over. */
  lemma {:induction false} FirstKeySkip(keys: seq<(string, string)>, s: string, k: nat)
    requires k <= |keys| && forall j :: 0 <= j < k ==> !StartsWith(s, keys[j].0)
    ensures FirstKey(keys, s) == FirstKey(keys[k..], s)
    decreases k
  {
    if k > 0 {
      FirstKeySkip(keys[1..], s, k - 1);
      assert keys[1..][k - 1..] == keys[k..];
    }
  }

  lemma FirstCharDiffers(s: string, p: string)
    requires |s| > 0 && |p| > 0 && s[0] != p[0]
    ensures !StartsWith(s, p)
  {
    if |p| <= |s| {
      assert s[..|p|][0] == s[0];
    }
  }

  /** `%u` is an unsigned 32-bit argument, whatever follows it. */
  lemma KindU(y: string)
    ensures KindAt("u" + y) == Some("u32")
  {
    var s := "u" + y;
    assert s[0] == 'u' && s[..1] == "u";
    forall k | 0 <= k < 6
      ensures !StartsWith(s, TYPE_MAP[k].0)
    {
      FirstCharDiffers(s, TYPE_MAP[k].0);
    }
    FirstKeySkip(TYPE_MAP, s, 6);
    assert TYPE_MAP[6..] == [("u", "u32")];
  }

  /** `%*s` is a string argument, whatever follows it. */
  lemma KindStar(y: string)
    ensures KindAt("*s" + y) == Some("&str")
  {
    var s := "*s" + y;
    assert s[..2] == "*s";
  }

  lemma ExamplePlainParts()
    ensures '%' !in "This the " && '%' !in "u" && '%' !in "th test! " && '%' !in "*s?"
  {
  }

  /** The format of the test program. */
  lemma FormatExample()
    ensures ParseArgs("This the %uth test! %*s?") == ["u32", "&str"]
  {
    var f := "This the " + ("%" + ("u" + ("th test! " + ("%" + ("*s" + "?")))));
    assert f == "This the %uth test! %*s?";
    ParseArgsVisitsEveryPercent(f);
    ExampleWhole();
  }

  lemma ExampleWhole()
    ensures ConversionTypes("This the " + ("%" + ("u" + ("th test! " + ("%" + ("*s" + "?")))))) == ["u32", "&str"]
  {
    var rest := "th test! " + ("%" + ("*s" + "?"));
    var mid := "u" + rest;
    ExamplePlainParts();
    SkipPlain("This the ", "%" + mid);
    AtPercent(mid);
    KindU(rest);
    SkipPlain("u", rest);
    ExampleRest();
  }

  /** The second half of the test program's format: one string argument. */
  lemma ExampleRest()
    ensures ConversionTypes("th test! " + ("%" + ("*s" + "?"))) == ["&str"]
  {
    var tail := "*s" + "?";
    ExamplePlainParts();
    SkipPlain("th test! ", "%" + tail);
    AtPercent(tail);
    KindStar("?");
    SkipPlain(tail, []);
    assert tail + [] == tail;
  }

  // ---------------------------------------------------------------------------
  // Parsing the macro

  /** A result with `pre` placed before the parsed values. */
  function Prepend(pre: seq<OutArg>, r: PResult<seq<OutArg>>): PResult<seq<OutArg>>
  {
    match r
    case Err(e) => Err(e)
    case Ok(c) => Ok(Consumed(pre + c.value, c.rest))
  }

  /** One `, value` per inferred argument. */
  function ParseValues(ts: seq<Token>, types: seq<string>): PResult<seq<OutArg>>
    decreases |types|
  {
    if types == [] then Ok(Consumed([], ts))
    else
      var afterComma :- ParsePunct(ts, ',');
      var e :- ParseExpr(afterComma);
      Prepend([OutArg(types[0], Some(e.value))], ParseValues(e.rest, types[1..]))
  }

  /** `Output::parse`. */
  function ParseOutputSpec(ts: seq<Token>): Result<Output, ParseError>
  {
    var f :- ParseLitStr(ts);
    var vs :- ParseValues(f.rest, ParseArgs(f.value));
    if vs.rest != [] then Err(ParseError("Unexpected extra arguments"))
    else Ok(Output(None, f.value, vs.value))
  }

  lemma PrependNil(r: PResult<seq<OutArg>>)
    ensures Prepend([], r) == r
  {
    if r.Ok? {
      assert [] + r.value.value == r.value.value;
    }
  }

  lemma PrependAssoc(a: seq<OutArg>, b: seq<OutArg>, r: PResult<seq<OutArg>>)
    ensures Prepend(a, Prepend(b, r)) == Prepend(a + b, r)
  {
    if r.Ok? {
      assert a + (b + r.value.value) == (a + b) + r.value.value;
    }
  }

  /** `Output::parse` as the code runs it: the format, then a loop giving each
      inferred argument its value, then the check for leftovers. */
  method ParseOutput(ts: seq<Token>) returns (r: Result<Output, ParseError>)
    ensures r == ParseOutputSpec(ts)
  {
    var f := ParseLitStr(ts);
    if f.Err? {
      return Err(f.error);
    }
    var format := f.value.value;
    var args := ParseArgsLoop(format);
    var vs := ReadValues(f.value.rest, args, ParseArgs(format));
    if vs.Err? {
      return Err(vs.error);
    }
    if vs.value.rest != [] {
      return Err(ParseError("Unexpected extra arguments"));
    }
    r := Ok(Output(None, format, vs.value.value));
  }

  /** The `for arg in args.iter_mut()` loop: a comma and a value for each argument. */
  method ReadValues(ts: seq<Token>, args: seq<OutArg>, ghost types: seq<string>) returns (r: PResult<seq<OutArg>>)
    requires |args| == |types| && forall i :: 0 <= i < |args| ==> args[i].ty == types[i]
    ensures r == ParseValues(ts, types)
  {
    var input := ts;
    ghost var goal := ParseValues(input, types);
    var done: seq<OutArg> := [];
    var i := 0;
    assert types[0..] == types;
    PrependNil(goal);
    while i < |args|
      invariant 0 <= i <= |args| && |done| == i
      invariant Prepend(done, ParseValues(input, types[i..])) == goal
    {
      var comma := ParsePunct(input, ',');
      if comma.Err? {
        ValuesFail(done, input, types, i);
        return Err(comma.error);
      }
      var e := ParseExpr(comma.value);
      if e.Err? {
        ValuesFail(done, input, types, i);
        return Err(e.error);
      }
      ValuesOne(done, input, types, i);
      done := done + [args[i].(value := Some(e.value.value))];
      input := e.value.rest;
      i := i + 1;
    }
    ValuesDone(done, input, types);
    r := Ok(Consumed(done, input));
  }

  /** A missing comma or value ends the loop with that error. */
  lemma ValuesFail(done: seq<OutArg>, input: seq<Token>, types: seq<string>, i: nat)
    requires i < |types|
    ensures ParsePunct(input, ',').Err? ==>
      Prepend(done, ParseValues(input, types[i..])) == Err(ParsePunct(input, ',').error)
    ensures ParsePunct(input, ',').Ok? && ParseExpr(ParsePunct(input, ',').value).Err? ==>
      Prepend(done, ParseValues(input, types[i..])) == Err(ParseExpr(ParsePunct(input, ',').value).error)
  {
    assert types[i..] != [];
  }

  /** A comma and a value give argument `i` its value. */
  lemma ValuesOne(done: seq<OutArg>, input: seq<Token>, types: seq<string>, i: nat)
    requires i < |types| && ParsePunct(input, ',').Ok? && ParseExpr(ParsePunct(input, ',').value).Ok?
    ensures var e := ParseExpr(ParsePunct(input, ',').value).value;
      Prepend(done, ParseValues(input, types[i..]))
        == Prepend(done + [OutArg(types[i], Some(e.value))], ParseValues(e.rest, types[i + 1..]))
  {
    var e := ParseExpr(ParsePunct(input, ',').value).value;
    assert types[i..][0] == types[i] && types[i..][1..] == types[i + 1..];
    PrependAssoc(done, [OutArg(types[i], Some(e.value))], ParseValues(e.rest, types[i + 1..]));
  }

  /** With every argument given a value, the rest is whatever follows. */
  lemma ValuesDone(done: seq<OutArg>, input: seq<Token>, types: seq<string>)
    ensures Prepend(done, ParseValues(input, types[|types|..])) == Ok(Consumed(done, input))
  {
    assert types[|types|..] == [];
    assert done + [] == done;
  }

  /** `n` pairs of a comma and an expression, and nothing else. */
  predicate ValuePairs(ts: seq<Token>, n: nat)
    decreases n
  {
    if n == 0 then ts == []
    else |ts| >= 2 && ts[0] == Punct(',') && IsExprToken(ts[1]) && ValuePairs(ts[2..], n - 1)
  }

  lemma {:induction false} ParseValuesShape(ts: seq<Token>, types: seq<string>)
    ensures (ParseValues(ts, types).Ok? && ParseValues(ts, types).value.rest == [])
      <==> ValuePairs(ts, |types|)
    ensures ParseValues(ts, types).Ok? ==>
      |ParseValues(ts, types).value.value| == |types|
      && forall i :: 0 <= i < |types| ==> ParseValues(ts, types).value.value[i].ty == types[i]
    decreases |types|
  {
    if types != [] && |ts| >= 2 && ts[0] == Punct(',') && IsExprToken(ts[1]) {
      ParseValuesShape(ts[2..], types[1..]);
      assert ts[1..][1..] == ts[2..];
    }
  }

  /** The arity check: a format literal followed by exactly one `, value` per
      inferred argument parses, anything else is an error; the arguments get the
      inferred types in order and the ID is left for later. */
  lemma ParseOutputShape(ts: seq<Token>)
    ensures ParseOutputSpec(ts).Ok? <==>
      |ts| > 0 && ts[0].LitStr? && ValuePairs(ts[1..], |ParseArgs(ts[0].text)|)
    ensures ParseOutputSpec(ts).Ok? ==>
      var o := ParseOutputSpec(ts).value;
      o.id == None && o.format == ts[0].text && |o.args| == |ParseArgs(o.format)|
      && forall i :: 0 <= i < |o.args| ==> o.args[i].ty == ParseArgs(o.format)[i] && o.args[i].value.Some?
  {
    if |ts| > 0 && ts[0].LitStr? {
      ParseValuesShape(ts[1..], ParseArgs(ts[0].text));
      ParseValuesHaveValues(ts[1..], ParseArgs(ts[0].text));
    }
  }

  lemma {:induction false} ParseValuesHaveValues(ts: seq<Token>, types: seq<string>)
    ensures ParseValues(ts, types).Ok? ==> forall i :: 0 <= i < |ParseValues(ts, types).value.value| ==>
      ParseValues(ts, types).value.value[i].value.Some?
    decreases |types|
  {
    if types != [] && |ts| >= 2 && ts[0] == Punct(',') && IsExprToken(ts[1]) {
      ParseValuesHaveValues(ts[2..], types[1..]);
      assert ts[1..][1..] == ts[2..];
    }
  }

  // ---------------------------------------------------------------------------
  // After parsing

  /** The arguments with their values dropped. */
  function Cleared(args: seq<OutArg>): (r: seq<OutArg>)
  {
    seq(|args|, i requires 0 <= i < |args| => OutArg(args[i].ty, None))
  }

  /** `clear_arg_values`: every value set to `None` in place. */
  method ClearArgValues(o: Output) returns (r: Output)
    ensures r == o.(args := Cleared(o.args))
  {
    var args := o.args;
    var i := 0;
    while i < |args|
      invariant 0 <= i <= |args| && |args| == |o.args|
      invariant forall j :: 0 <= j < |args| ==> args[j].ty == o.args[j].ty
      invariant forall j :: 0 <= j < i ==> args[j].value == None
      invariant forall j :: i <= j < |args| ==> args[j] == o.args[j]
    {
      args := args[i := args[i].(value := None)];
      i := i + 1;
    }
    r := o.(args := args);
  }

  /** Clearing keeps the count and the types, and two outputs that differ only in
      their values become equal. */
  lemma ClearedSameShape(a: seq<OutArg>, b: seq<OutArg>)
    requires |a| == |b| && forall i :: 0 <= i < |a| ==> a[i].ty == b[i].ty
    ensures Cleared(a) == Cleared(b)
    ensures |Cleared(a)| == |a| && forall i :: 0 <= i < |a| ==> Cleared(a)[i].ty == a[i].ty && Cleared(a)[i].value.None?
  {
  }

  /** Clearing twice is clearing once. */
  lemma ClearedIdempotent(a: seq<OutArg>)
    ensures Cleared(Cleared(a)) == Cleared(a)
  {
  }

  const SEND_OUTPUT_PREFIX: string := "send_output_"

  /** `sender_fn_name`: the prefix, then two lower-case letters `a`..`p` per
      byte of the format's UTF-8 encoding. */
  function SenderFnName(o: Output): (r: string)
    ensures |r| >= |SEND_OUTPUT_PREFIX| && r[..|SEND_OUTPUT_PREFIX|] == SEND_OUTPUT_PREFIX
    ensures |r| == |SEND_OUTPUT_PREFIX| + 2 * |StaticStrings.Utf8(o.format)|
    ensures r[|SEND_OUTPUT_PREFIX|..] == StaticStrings.HexName(o.format, false)
    ensures forall i :: |SEND_OUTPUT_PREFIX| <= i < |r| ==> 'a' <= r[i] <= 'p'
  {
    SEND_OUTPUT_PREFIX + StaticStrings.HexName(o.format, false)
  }

  /** Outputs with different formats get different senders. */
  lemma SenderFnNameInjective(a: Output, b: Output)
    requires SenderFnName(a) == SenderFnName(b)
    ensures a.format == b.format
  {
    assert SenderFnName(a)[|SEND_OUTPUT_PREFIX|..] == StaticStrings.HexName(a.format, false);
    assert SenderFnName(b)[|SEND_OUTPUT_PREFIX|..] == StaticStrings.HexName(b.format, false);
    StaticStrings.HexNameInjective(a.format, b.format, false);
  }
}
