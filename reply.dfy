/** `klipper_reply!(name [id = N], arg: Type = value, ...)`: the reply a
    firmware sends, its parse, its sender name and its descriptor. */
module Replies {
  import opened Types
  import opened Syn
  import MsgDesc

  datatype ReplyArg = ReplyArg(name: string, ty: string, value: Option<Expr>)

  datatype Reply = Reply(name: string, id: Option<u8>, args: seq<ReplyArg>)

  /** `sender_fn_name`. */
  function SenderFnName(name: string): (r: string)
    ensures |r| == 11 + |name| && r[..11] == "send_reply_" && r[11..] == name
  {
    "send_reply_" + name
  }

  lemma SenderFnNameInjective(a: string, b: string)
    requires SenderFnName(a) == SenderFnName(b)
    ensures a == b
  {
    assert SenderFnName(a)[11..] == a;
  }

  function DescArgs(args: seq<ReplyArg>): (r: seq<MsgDesc.DescArg>)
    ensures |r| == |args| && forall i :: 0 <= i < |args| ==> r[i] == MsgDesc.DescArg(args[i].name, args[i].ty)
  {
    seq(|args|, i requires 0 <= i < |args| => MsgDesc.DescArg(args[i].name, args[i].ty))
  }

  /** `get_desc_string`: the descriptor of the name and the arguments in order,
      refused exactly when some argument type has no format. */
  function GetDescString(r: Reply): (d: Result<string, string>)
    ensures d.Ok? <==> forall i :: 0 <= i < |r.args| ==> MsgDesc.TypeFormat(r.args[i].ty).Some?
  {
    MsgDesc.DescriptorOkIff(r.name, DescArgs(r.args));
    MsgDesc.Descriptor(r.name, DescArgs(r.args))
  }

  function Cleared(args: seq<ReplyArg>): (r: seq<ReplyArg>)
    ensures |r| == |args| && forall i :: 0 <= i < |args| ==> r[i] == args[i].(value := None)
  {
    seq(|args|, i requires 0 <= i < |args| => args[i].(value := None))
  }

  /** `clear_arg_values`: the `iter_mut` loop setting every value to `None`. */
  method ClearArgValues(rep: Reply) returns (r: Reply)
    ensures r == rep.(args := Cleared(rep.args))
  {
    var args := rep.args;
    var i := 0;
    while i < |args|
      invariant 0 <= i <= |args| && |args| == |rep.args|
      invariant forall k :: 0 <= k < i ==> args[k] == rep.args[k].(value := None)
      invariant forall k :: i <= k < |args| ==> args[k] == rep.args[k]
    {
      args := args[i := args[i].(value := None)];
      i := i + 1;
    }
    r := rep.(args := args);
  }

  /** Clearing keeps the names, types and order, and so the descriptor. */
  lemma ClearedKeepsDescriptor(rep: Reply)
    ensures |Cleared(rep.args)| == |rep.args|
    ensures forall i :: 0 <= i < |rep.args| ==>
      Cleared(rep.args)[i].name == rep.args[i].name && Cleared(rep.args)[i].ty == rep.args[i].ty
    ensures GetDescString(rep.(args := Cleared(rep.args))) == GetDescString(rep)
  {
    assert DescArgs(Cleared(rep.args)) == DescArgs(rep.args);
  }

  /** Two replies that differ only in the argument values are equal once cleared. */
  lemma ClearedForgetsValues(a: Reply, b: Reply)
    requires a.name == b.name && a.id == b.id && |a.args| == |b.args|
    requires forall i :: 0 <= i < |a.args| ==> a.args[i].name == b.args[i].name && a.args[i].ty == b.args[i].ty
    ensures a.(args := Cleared(a.args)) == b.(args := Cleared(b.args))
  {
    assert Cleared(a.args) == Cleared(b.args);
  }

  // ---------------------------------------------------------------------------
  // Parsing

  /** One `id = N` item of the bracketed attribute list; the comma before every
      item but the first is read by the caller. */
  function OneAttr(content: seq<Token>): (r: PResult<u8>)
    ensures r.Ok? ==> |r.value.rest| < |content|
  {
    var n :- ParseIdent(content);
    var afterEq :- ParsePunct(n.rest, '=');
    if n.value == "id" then ParseLitU8(afterEq)
    else Err(ParseError("Unknown attribute '" + n.value + "'"))
  }

  /** The attribute loop read as intended: items separated by commas inside the
      brackets; the last `id` wins. */
  function AttrList(content: seq<Token>, first: bool, id: Option<u8>): Result<Option<u8>, ParseError>
    decreases |content|
  {
    if content == [] then Ok(id)
    else
      var c :- if first then Ok(content) else ParsePunct(content, ',');
      var a :- OneAttr(c);
      AttrList(a.rest, false, Some(a.value))
  }

  /** The attribute loop as written: the comma between items is read from the
      tokens after the brackets rather than from inside them. */
  function AttrListAsWritten(content: seq<Token>, input: seq<Token>, first: bool, id: Option<u8>)
    : Result<(Option<u8>, seq<Token>), ParseError>
    decreases |content|
  {
    if content == [] then Ok((id, input))
    else
      var i :- if first then Ok(input) else ParsePunct(input, ',');
      var a :- OneAttr(content);
      AttrListAsWritten(a.rest, i, false, Some(a.value))
  }

  predicate StartsBracket(ts: seq<Token>)
  {
    |ts| > 0 && ts[0].Group? && ts[0].delim == Bracket
  }

  /** One `, name: Type` or `, name: Type = value`. */
  function OneArg(input: seq<Token>): (r: PResult<ReplyArg>)
    ensures r.Ok? ==> |r.value.rest| < |input|
  {
    var afterComma :- ParsePunct(input, ',');
    var name :- ParseIdent(afterComma);
    var afterColon :- ParsePunct(name.rest, ':');
    var ty :- ParseType(afterColon);
    if |ty.rest| > 0 && ty.rest[0] == Punct('=') then
      var value :- ParseExpr(ty.rest[1..]);
      Ok(Consumed(ReplyArg(name.value, ty.value, Some(value.value)), value.rest))
    else Ok(Consumed(ReplyArg(name.value, ty.value, None), ty.rest))
  }

  /** The argument loop: arguments until the input is empty. */
  function ArgList(input: seq<Token>): Result<seq<ReplyArg>, ParseError>
    decreases |input|
  {
    if input == [] then Ok([])
    else
      var a :- OneArg(input);
      var rest :- ArgList(a.rest);
      Ok([a.value] + rest)
  }

  /** `Reply::parse`, with the attribute list read as intended. */
  function ReplyOf(ts: seq<Token>): Result<Reply, ParseError>
  {
    var name :- ParseIdent(ts);
    var input := name.rest;
    if StartsBracket(input) then
      var id :- AttrList(input[0].inner, true, None);
      var args :- ArgList(input[1..]);
      Ok(Reply(name.value, id, args))
    else
      var args :- ArgList(input);
      Ok(Reply(name.value, None, args))
  }

  /** `Reply::parse` as written. It differs from the intended parse only in a
      bracketed attribute list after the name, and names the reply after its
      leading identifier. */
  function ReplyOfAsWritten(ts: seq<Token>): (r: Result<Reply, ParseError>)
    ensures !(ParseIdent(ts).Ok? && StartsBracket(ParseIdent(ts).value.rest)) ==> r == ReplyOf(ts)
    ensures r.Ok? ==> ParseIdent(ts).Ok? && r.value.name == ParseIdent(ts).value.value
  {
    var name :- ParseIdent(ts);
    var input := name.rest;
    if StartsBracket(input) then
      var attrs :- AttrListAsWritten(input[0].inner, input[1..], true, None);
      var args :- ArgList(attrs.1);
      Ok(Reply(name.value, attrs.0, args))
    else
      var args :- ArgList(input);
      Ok(Reply(name.value, None, args))
  }

  function PrependArgs(done: seq<ReplyArg>, r: Result<seq<ReplyArg>, ParseError>): Result<seq<ReplyArg>, ParseError>
  {
    match r
    case Ok(rest) => Ok(done + rest)
    case Err(e) => Err(e)
  }

  lemma PrependNothing(r: Result<seq<ReplyArg>, ParseError>)
    ensures PrependArgs([], r) == r
  {
    if r.Ok? {
      assert [] + r.value == r.value;
    }
  }

  lemma ArgListStep(input: seq<Token>, args: seq<ReplyArg>)
    requires input != [] && OneArg(input).Ok?
    ensures PrependArgs(args, ArgList(input))
      == PrependArgs(args + [OneArg(input).value.value], ArgList(OneArg(input).value.rest))
  {
    var a := OneArg(input).value;
    var tail := ArgList(a.rest);
    if tail.Ok? {
      assert args + ([a.value] + tail.value) == (args + [a.value]) + tail.value;
    }
  }

  /** `Reply::parse`: the name, the optional attribute loop over the bracket's
      contents, then the argument loop. As the code is written, the comma before
      every attribute but the first is read from the tokens after the brackets. */
  method ParseReply(ts: seq<Token>) returns (r: Result<Reply, ParseError>)
    ensures r == ReplyOfAsWritten(ts)
  {
    var name := ParseIdent(ts);
    if name.Err? {
      return Err(name.error);
    }
    var input := name.value.rest;
    var id: Option<u8> := None;
    if StartsBracket(input) {
      var content := input[0].inner;
      input := input[1..];
      ghost var whole := AttrListAsWritten(content, input, true, None);
      var first := true;
      while content != []
        invariant AttrListAsWritten(content, input, first, id) == whole
        decreases |content|
      {
        if !first {
          var c := ParsePunct(input, ',');
          if c.Err? {
            return Err(c.error);
          }
          input := c.value;
        }
        first := false;
        var a := OneAttr(content);
        if a.Err? {
          return Err(a.error);
        }
        id := Some(a.value.value);
        content := a.value.rest;
      }
      assert whole == Ok((id, input));
    }
    ghost var all := ArgList(input);
    PrependNothing(all);
    var args: seq<ReplyArg> := [];
    while input != []
      invariant PrependArgs(args, ArgList(input)) == all
      decreases |input|
    {
      var a := OneArg(input);
      if a.Err? {
        return Err(a.error);
      }
      ArgListStep(input, args);
      args := args + [a.value.value];
      input := a.value.rest;
    }
    assert args + [] == args;
    r := Ok(Reply(name.value.value, id, args));
  }

  // ---------------------------------------------------------------------------
  // Properties of the grammar

  /** Only `id` is accepted inside the brackets. */
  lemma UnknownAttribute(n: string, rest: seq<Token>)
    requires IsIdentText(n) && n != "id"
    ensures AttrList([Ident(n), Punct('=')] + rest, true, None) == Err(ParseError("Unknown attribute '" + n + "'"))
  {
    var c := [Ident(n), Punct('=')] + rest;
    assert c[1..][1..] == rest;
  }

  /** The tokens an argument is written as. */
  function TypeToken(ty: string): Token
  {
    if IsIdentText(ty) then Ident(ty) else TypeTokens(ty)
  }

  function ExprToken(e: Expr): Token
  {
    match e
    case EPath(n) => Ident(n)
    case EInt(v) => LitInt(v)
    case EStr(s) => LitStr(s)
    case EOther(t) => ExprTokens(t)
  }

  function ArgTokens(a: ReplyArg): seq<Token>
  {
    [Punct(','), Ident(a.name), Punct(':'), TypeToken(a.ty)]
      + (match a.value case Some(e) => [Punct('='), ExprToken(e)] case None => [])
  }

  function AllArgTokens(args: seq<ReplyArg>): seq<Token>
  {
    if args == [] then [] else ArgTokens(args[0]) + AllArgTokens(args[1..])
  }

  /** Written arguments start with the comma of the first one. */
  lemma AllArgTokensStart(args: seq<ReplyArg>)
    ensures AllArgTokens(args) != [] ==> AllArgTokens(args)[0] == Punct(',')
  {
    if args != [] {
      assert AllArgTokens(args)[0] == ArgTokens(args[0])[0];
    }
  }

  lemma OneArgReads(a: ReplyArg, rest: seq<Token>)
    requires IsIdentText(a.name)
    requires |rest| > 0 ==> rest[0] != Punct('=')
    ensures OneArg(ArgTokens(a) + rest) == Ok(Consumed(a, rest))
  {
    match a.value
    case None => OneArgReadsBare(a.name, a.ty, rest);
    case Some(e) => OneArgReadsValue(a.name, a.ty, e, rest);
  }

  lemma OneArgReadsBare(name: string, ty: string, rest: seq<Token>)
    requires IsIdentText(name)
    requires |rest| > 0 ==> rest[0] != Punct('=')
    ensures OneArg(ArgTokens(ReplyArg(name, ty, None)) + rest) == Ok(Consumed(ReplyArg(name, ty, None), rest))
  {
    assert ArgTokens(ReplyArg(name, ty, None)) == [Punct(','), Ident(name), Punct(':'), TypeToken(ty)];
    OneArgHead(name, ty, rest);
  }

  lemma OneArgReadsValue(name: string, ty: string, e: Expr, rest: seq<Token>)
    requires IsIdentText(name)
    ensures OneArg(ArgTokens(ReplyArg(name, ty, Some(e))) + rest) == Ok(Consumed(ReplyArg(name, ty, Some(e)), rest))
  {
    var head := [Punct(','), Ident(name), Punct(':'), TypeToken(ty)];
    var after := [ExprToken(e)] + rest;
    var tail := [Punct('=')] + after;
    assert ArgTokens(ReplyArg(name, ty, Some(e))) == head + [Punct('='), ExprToken(e)];
    assert ArgTokens(ReplyArg(name, ty, Some(e))) + rest == head + tail;
    DropFirst(Punct('='), after);
    OneArgHead(name, ty, tail);
    ExprTokenReads(e, rest);
  }

  lemma DropFirst(x: Token, s: seq<Token>)
    ensures |[x] + s| > 0 && ([x] + s)[0] == x && ([x] + s)[1..] == s
  {
  }

  /** An argument's comma, name, colon and type read as such; what follows
      decides whether it has a value. */
  lemma OneArgHead(name: string, ty: string, tail: seq<Token>)
    requires IsIdentText(name)
    ensures var r := OneArg([Punct(','), Ident(name), Punct(':'), TypeToken(ty)] + tail);
      if |tail| > 0 && tail[0] == Punct('=') then
        (ParseExpr(tail[1..]).Ok? ==> r == Ok(Consumed(ReplyArg(name, ty, Some(ParseExpr(tail[1..]).value.value)), ParseExpr(tail[1..]).value.rest)))
      else r == Ok(Consumed(ReplyArg(name, ty, None), tail))
  {
    var t3 := [TypeToken(ty)] + tail;
    var t2 := [Punct(':')] + t3;
    var t1 := [Ident(name)] + t2;
    var t := [Punct(',')] + t1;
    assert [Punct(','), Ident(name), Punct(':'), TypeToken(ty)] + tail == t;
    assert t[1..] == t1 && t1[1..] == t2 && t2[1..] == t3;
    assert ParsePunct(t, ',') == Ok(t1);
    assert ParseIdent(t1) == Ok(Consumed(name, t2));
    assert ParsePunct(t2, ':') == Ok(t3);
    TypeTokenReads(ty, tail);
    if |tail| > 0 && tail[0] == Punct('=') {
      var v := ParseExpr(tail[1..]);
      if v.Ok? {
        assert OneArg(t) == Ok(Consumed(ReplyArg(name, ty, Some(v.value.value)), v.value.rest));
      }
    } else {
      assert OneArg(t) == Ok(Consumed(ReplyArg(name, ty, None), tail));
    }
  }

  lemma TypeTokenReads(ty: string, rest: seq<Token>)
    ensures ParseType([TypeToken(ty)] + rest) == Ok(Consumed(ty, rest))
  {
    assert ([TypeToken(ty)] + rest)[1..] == rest;
  }

  lemma ExprTokenReads(e: Expr, rest: seq<Token>)
    ensures ParseExpr([ExprToken(e)] + rest) == Ok(Consumed(e, rest))
  {
    assert ([ExprToken(e)] + rest)[1..] == rest;
  }

  /** Writing the arguments out and parsing them back gives the same arguments,
      values included, in order. */
  lemma {:induction false} ArgListRoundTrip(args: seq<ReplyArg>)
    requires forall i :: 0 <= i < |args| ==> IsIdentText(args[i].name)
    ensures ArgList(AllArgTokens(args)) == Ok(args)
    decreases |args|
  {
    if args != [] {
      var rest := AllArgTokens(args[1..]);
      ArgListRoundTrip(args[1..]);
      AllArgTokensStart(args[1..]);
      OneArgReads(args[0], rest);
      assert args == [args[0]] + args[1..];
    }
  }

  /** A name followed directly by an argument list reads as a reply without id. */
  lemma NameThenArgs(name: string, rest: seq<Token>)
    requires IsIdentText(name)
    requires ArgList(rest).Ok?
    requires rest != [] ==> rest[0] == Punct(',')
    ensures ReplyOf([Ident(name)] + rest) == Ok(Reply(name, None, ArgList(rest).value))
  {
    assert ([Ident(name)] + rest)[1..] == rest;
  }

  /** A name, one `[id = N]` attribute and an argument list. */
  lemma NameIdThenArgs(name: string, id: u8, rest: seq<Token>)
    requires IsIdentText(name)
    requires ArgList(rest).Ok?
    ensures ReplyOf([Ident(name), Group(Bracket, IdTokens(id))] + rest)
      == Ok(Reply(name, Some(id), ArgList(rest).value))
  {
    IdAttrReads(id, []);
    assert IdTokens(id) + [] == IdTokens(id);
    assert AttrList(IdTokens(id), true, None) == Ok(Some(id));
    var ts := [Ident(name), Group(Bracket, IdTokens(id))] + rest;
    assert ts[1..][0] == Group(Bracket, IdTokens(id));
    assert ts[1..][1..] == rest;
  }

  /** A reply written with one `[id = N]` attribute and its arguments parses back. */
  lemma ReplyRoundTrip(name: string, id: u8, args: seq<ReplyArg>)
    requires IsIdentText(name)
    requires forall i :: 0 <= i < |args| ==> IsIdentText(args[i].name)
    ensures ReplyOf([Ident(name), Group(Bracket, IdTokens(id))] + AllArgTokens(args))
      == Ok(Reply(name, Some(id), args))
  {
    ArgListRoundTrip(args);
    NameIdThenArgs(name, id, AllArgTokens(args));
  }

  /** A reply written without attributes parses back with no id. */
  lemma ReplyRoundTripNoId(name: string, args: seq<ReplyArg>)
    requires IsIdentText(name)
    requires forall i :: 0 <= i < |args| ==> IsIdentText(args[i].name)
    ensures ReplyOf([Ident(name)] + AllArgTokens(args)) == Ok(Reply(name, None, args))
  {
    ArgListRoundTrip(args);
    AllArgTokensStart(args);
    NameThenArgs(name, AllArgTokens(args));
  }

  /** With a single attribute the code as written and as intended agree. */
  lemma AsWrittenAgreesOnOneAttribute(name: string, id: u8, rest: seq<Token>)
    requires IsIdentText(name)
    ensures var ts := [Ident(name), Group(Bracket, [Ident("id"), Punct('='), LitInt(id)])] + rest;
      ReplyOfAsWritten(ts) == ReplyOf(ts)
  {
    var item := [Ident("id"), Punct('='), LitInt(id)];
    assert item[1..][1..] == [LitInt(id)];
    assert OneAttr(item) == Ok(Consumed(id, []));
    assert AttrList(item, true, None) == Ok(Some(id));
    assert AttrListAsWritten(item, rest, true, None) == Ok((Some(id), rest));
    var ts := [Ident(name), Group(Bracket, item)] + rest;
    assert ts[1..][0] == Group(Bracket, item);
    assert ts[1..][1..] == rest;
  }

  /** The tokens of one `id = v` attribute. */
  function IdTokens(v: u8): seq<Token>
  {
    [Ident("id"), Punct('='), LitInt(v)]
  }

  lemma IdAttrReads(v: u8, rest: seq<Token>)
    ensures OneAttr(IdTokens(v) + rest) == Ok(Consumed(v, rest))
  {
    var t := IdTokens(v) + rest;
    assert t[1..][1..] == [LitInt(v)] + rest;
    assert t[1..][1..][1..] == rest;
  }

  /** `r [id = 1, id = 2]`. */
  function TwoIdAttributes(): seq<Token>
  {
    [Ident("r"), Group(Bracket, IdTokens(1) + ([Punct(',')] + IdTokens(2)))]
  }

  /** The code as written looks for the comma between the two attributes after
      the brackets, finds none, and fails. */
  lemma TwoAttributesRejected()
    ensures ReplyOfAsWritten(TwoIdAttributes()).Err?
  {
    var tail := [Punct(',')] + IdTokens(2);
    IdAttrReads(1, tail);
    assert AttrListAsWritten(tail, [], false, Some(1)).Err?;
    var ts := TwoIdAttributes();
    assert ts[1..][1..] == [];
  }

  /** Read as intended, the comma is found inside the brackets and the last
      `id` is taken. */
  lemma TwoAttributesIntended()
    ensures ReplyOf(TwoIdAttributes()) == Ok(Reply("r", Some(2), []))
  {
    TwoIdAttrList();
    IdentR();
    NameAttrsThenArgs("r", IdTokens(1) + ([Punct(',')] + IdTokens(2)), []);
    assert TwoIdAttributes() == [Ident("r"), Group(Bracket, IdTokens(1) + ([Punct(',')] + IdTokens(2)))] + [];
  }

  lemma IdentR()
    ensures IsIdentText("r")
  {
    assert "r"[0] == 'r';
  }

  /** A name, a bracket group whose attributes read, and no arguments. */
  lemma NameAttrsThenArgs(name: string, content: seq<Token>, rest: seq<Token>)
    requires IsIdentText(name) && AttrList(content, true, None).Ok? && ArgList(rest).Ok?
    ensures ReplyOf([Ident(name), Group(Bracket, content)] + rest)
      == Ok(Reply(name, AttrList(content, true, None).value, ArgList(rest).value))
  {
    var ts := [Ident(name), Group(Bracket, content)] + rest;
    assert ts[1..][0] == Group(Bracket, content);
    assert ts[1..][1..] == rest;
  }

  /** Read as intended, the bracket content of `r [id = 1, id = 2]` keeps the second id. */
  lemma TwoIdAttrList()
    ensures AttrList(IdTokens(1) + ([Punct(',')] + IdTokens(2)), true, None) == Ok(Some(2))
  {
    var tail := [Punct(',')] + IdTokens(2);
    IdAttrReads(1, tail);
    IdAttrReads(2, []);
    assert IdTokens(2) + [] == IdTokens(2);
    assert tail[1..] == IdTokens(2);
    assert AttrList([], false, Some(2)) == Ok(Some(2));
    assert AttrList(tail, false, Some(1)) == Ok(Some(2));
  }
}
