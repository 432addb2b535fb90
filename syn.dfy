/** What the build step observes of `syn`: token streams in which a type or an
    expression is a single token, attribute metadata, and the identifier check
    `parse_str::<Ident>` performs. */
module Syn {
  import opened Types

  datatype Delimiter = Paren | Bracket | Brace

  datatype Token =
    | Ident(name: string)
    | Punct(ch: char)
    | LitInt(value: nat)
    | LitStr(text: string)
    | Group(delim: Delimiter, inner: seq<Token>)
    /** A type that is not a plain path, by its printed form (`& [u8]`). */
    | TypeTokens(printed: string)
    /** A compound expression, by its text. */
    | ExprTokens(text: string)

  /** A `syn::Error`; only its presence is observed. */
  datatype ParseError = ParseError(msg: string)

  /** A parsed value and the tokens after it. */
  datatype Consumed<T> = Consumed(value: T, rest: seq<Token>)

  type PResult<T> = Result<Consumed<T>, ParseError>

  /** An expression, as far as the generated code and the message comparison see it. */
  datatype Expr = EPath(name: string) | EInt(value: nat) | EStr(text: string) | EOther(text: string)

  /** The reserved words `syn` refuses as an `Ident`. */
  predicate IsKeyword(s: string)
  {
    s in {"_", "abstract", "as", "async", "await", "become", "box", "break", "const", "continue",
     "crate", "do", "dyn", "else", "enum", "extern", "false", "final", "fn", "for", "if",
     "impl", "in", "let", "loop", "macro", "match", "mod", "move", "mut", "override", "priv",
     "pub", "ref", "return", "Self", "self", "static", "struct", "super", "trait", "true",
     "try", "type", "typeof", "unsafe", "unsized", "use", "virtual", "where", "while", "yield"}
  }

  predicate IdentStart(c: char) { ('a' <= c <= 'z') || ('A' <= c <= 'Z') || c == '_' }
  predicate IdentContinue(c: char) { IdentStart(c) || ('0' <= c <= '9') }

  /** `parse_str::<Ident>(s).is_ok()`: one identifier token that is not a keyword. */
  predicate IsIdentText(s: string)
  {
    && |s| > 0 && IdentStart(s[0])
    && (forall i :: 1 <= i < |s| ==> IdentContinue(s[i]))
    && !IsKeyword(s)
  }

  /** `input.parse::<Ident>()`. */
  function ParseIdent(ts: seq<Token>): (r: PResult<string>)
    ensures r.Ok? <==> (|ts| > 0 && ts[0].Ident? && IsIdentText(ts[0].name))
    ensures r.Ok? ==> r.value == Consumed(ts[0].name, ts[1..])
  {
    if |ts| > 0 && ts[0].Ident? && IsIdentText(ts[0].name) then Ok(Consumed(ts[0].name, ts[1..]))
    else Err(ParseError("expected identifier"))
  }

  /** `input.parse::<Token![c]>()` for a one-character punctuation. */
  function ParsePunct(ts: seq<Token>, c: char): (r: Result<seq<Token>, ParseError>)
    ensures r.Ok? <==> (|ts| > 0 && ts[0] == Punct(c))
    ensures r.Ok? ==> r.value == ts[1..]
  {
    if |ts| > 0 && ts[0] == Punct(c) then Ok(ts[1..]) else Err(ParseError("expected punctuation"))
  }

  /** `input.parse::<LitStr>()?.value()`. */
  function ParseLitStr(ts: seq<Token>): (r: PResult<string>)
    ensures r.Ok? <==> (|ts| > 0 && ts[0].LitStr?)
    ensures r.Ok? ==> r.value == Consumed(ts[0].text, ts[1..])
  {
    if |ts| > 0 && ts[0].LitStr? then Ok(Consumed(ts[0].text, ts[1..]))
    else Err(ParseError("expected string literal"))
  }

  /** `input.parse::<LitInt>()?.base10_parse::<u8>()`: the literal must fit. */
  function ParseLitU8(ts: seq<Token>): (r: PResult<u8>)
    ensures r.Ok? <==> (|ts| > 0 && ts[0].LitInt? && ts[0].value < U8_LIMIT)
    ensures r.Ok? ==> r.value.value == ts[0].value && r.value.rest == ts[1..]
  {
    if |ts| > 0 && ts[0].LitInt? && ts[0].value < U8_LIMIT then Ok(Consumed(ts[0].value as u8, ts[1..]))
    else Err(ParseError("expected u8 literal"))
  }

  /** `input.parse::<Type>()`, the type given by its printed form. */
  function ParseType(ts: seq<Token>): (r: PResult<string>)
    ensures r.Ok? <==> (|ts| > 0 && ((ts[0].Ident? && IsIdentText(ts[0].name)) || ts[0].TypeTokens?))
    ensures r.Ok? ==> r.value.rest == ts[1..]
  {
    if |ts| > 0 && ts[0].Ident? && IsIdentText(ts[0].name) then Ok(Consumed(ts[0].name, ts[1..]))
    else if |ts| > 0 && ts[0].TypeTokens? then Ok(Consumed(ts[0].printed, ts[1..]))
    else Err(ParseError("expected type"))
  }

  /** The tokens that start (and here, make up) an expression. */
  predicate IsExprToken(t: Token)
  {
    t.Ident? || t.LitInt? || t.LitStr? || t.ExprTokens?
  }

  /** `input.parse::<Expr>()`. */
  function ParseExpr(ts: seq<Token>): (r: PResult<Expr>)
    ensures r.Ok? <==> (|ts| > 0 && IsExprToken(ts[0]))
    ensures r.Ok? ==> r.value.rest == ts[1..]
  {
    if |ts| == 0 then Err(ParseError("expected expression"))
    else match ts[0]
      case Ident(n) => Ok(Consumed(EPath(n), ts[1..]))
      case LitInt(v) => Ok(Consumed(EInt(v), ts[1..]))
      case LitStr(s) => Ok(Consumed(EStr(s), ts[1..]))
      case ExprTokens(t) => Ok(Consumed(EOther(t), ts[1..]))
      case _ => Err(ParseError("expected expression"))
  }

  // ---------------------------------------------------------------------------
  // Attributes

  datatype Lit = LStr(value: string) | LOther

  /** `syn::Meta`: a path, `path(items, ...)` or `path = lit`. */
  datatype Meta =
    | MPath(path: seq<string>)
    | MList(path: seq<string>, nested: seq<NestedMeta>)
    | MNameValue(path: seq<string>, lit: Lit)

  datatype NestedMeta = NMeta(meta: Meta) | NLit(lit: Lit)

  /** What follows an attribute's path: `(...)`, `= lit`, nothing, or tokens that
      `parse_meta` rejects. */
  datatype AttrBody = BList(nested: seq<NestedMeta>) | BNameValue(lit: Lit) | BPath | BUnparsable

  datatype Attribute = Attribute(path: seq<string>, body: AttrBody)

  /** `path.is_ident(name)` (also `path.get_ident() == Some(name)`). */
  predicate IsIdentPath(path: seq<string>, name: string)
  {
    path == [name]
  }

  /** `attr.parse_meta()`. */
  function ParseMeta(a: Attribute): (r: Result<Meta, ParseError>)
    ensures r.Ok? <==> !a.body.BUnparsable?
    ensures r.Ok? ==> r.value.path == a.path
  {
    match a.body
    case BList(n) => Ok(MList(a.path, n))
    case BNameValue(l) => Ok(MNameValue(a.path, l))
    case BPath => Ok(MPath(a.path))
    case BUnparsable => Err(ParseError("malformed attribute"))
  }
}
