/** The attribute helpers of the build step: visiting `#[name(...)]` items,
    evaluating `#[cfg(...)]` against the enabled Cargo features, and string
    literal extraction. The environment is the set of defined variable names. */
module Utils {
  import opened Types
  import opened Syn
  import opened Text

  /** The callback's state after a visit, and the error that ended it, if any. */
  datatype Visited<S> = Visited(state: S, error: Option<ParseError>)

  /** Feed `items` to `cb` in order, stopping at its first error. */
  function VisitItems<S>(items: seq<NestedMeta>, cb: (S, NestedMeta) -> Result<S, ParseError>, s: S): Visited<S>
  {
    if items == [] then Visited(s, None)
    else match cb(s, items[0])
      case Err(e) => Visited(s, Some(e))
      case Ok(s') => VisitItems(items[1..], cb, s')
  }

  /** `visit_attribs(attrs, ident, cb)`: every nested item of every `#[ident(...)]`
      attribute, in order; an attribute named `ident` that is not a list (or does
      not parse) ends the visit with an error, as does the callback's first error.
      Attributes with other names are skipped. */
  function VisitAttribs<S>(attrs: seq<Attribute>, ident: string, cb: (S, NestedMeta) -> Result<S, ParseError>, s: S): (r: Visited<S>)
    ensures (forall i :: 0 <= i < |attrs| ==> !IsIdentPath(attrs[i].path, ident)) ==> r == Visited(s, None)
    ensures r.error.None? ==> forall i :: 0 <= i < |attrs| && IsIdentPath(attrs[i].path, ident) ==> attrs[i].body.BList?
    decreases |attrs|
  {
    assert forall i :: 1 <= i < |attrs| ==> attrs[i] == attrs[1..][i - 1];
    if attrs == [] then Visited(s, None)
    else if !IsIdentPath(attrs[0].path, ident) then VisitAttribs(attrs[1..], ident, cb, s)
    else match ParseMeta(attrs[0])
      case Err(e) => Visited(s, Some(e))
      case Ok(m) =>
        if !m.MList? then Visited(s, Some(ParseError("expected #[" + ident + "(...)]")))
        else
          var v := VisitItems(m.nested, cb, s);
          if v.error.Some? then v else VisitAttribs(attrs[1..], ident, cb, v.state)
  }

  /** `visit_attribs` as the code runs it: a loop over the attributes and, inside
      it, over each list's items, returning at the first error. */
  method RunVisitAttribs<S>(attrs: seq<Attribute>, ident: string, cb: (S, NestedMeta) -> Result<S, ParseError>, s0: S)
    returns (r: Visited<S>)
    ensures r == VisitAttribs(attrs, ident, cb, s0)
  {
    var s := s0;
    var i := 0;
    while i < |attrs|
      invariant 0 <= i <= |attrs|
      invariant VisitAttribs(attrs[i..], ident, cb, s) == VisitAttribs(attrs, ident, cb, s0)
    {
      assert attrs[i..][1..] == attrs[i + 1..];
      if IsIdentPath(attrs[i].path, ident) {
        var m := ParseMeta(attrs[i]);
        if m.Err? {
          return Visited(s, Some(m.error));
        }
        if !m.value.MList? {
          return Visited(s, Some(ParseError("expected #[" + ident + "(...)]")));
        }
        var items := m.value.nested;
        ghost var start := s;
        var j := 0;
        while j < |items|
          invariant 0 <= j <= |items|
          invariant VisitItems(items[j..], cb, s) == VisitItems(items, cb, start)
        {
          assert items[j..][1..] == items[j + 1..];
          var c := cb(s, items[j]);
          if c.Err? {
            return Visited(s, Some(c.error));
          }
          s := c.value;
          j := j + 1;
        }
      }
      i := i + 1;
    }
    r := Visited(s, None);
  }

  /** The items a visit reaches when the callback never fails. */
  function ReachedItems(attrs: seq<Attribute>, ident: string): seq<NestedMeta>
  {
    if attrs == [] then []
    else if !IsIdentPath(attrs[0].path, ident) then ReachedItems(attrs[1..], ident)
    else match attrs[0].body
      case BList(n) => n + ReachedItems(attrs[1..], ident)
      case _ => []
  }

  /** Folding an infallible callback over a sequence, for comparison with a visit. */
  function Fold<S>(items: seq<NestedMeta>, f: (S, NestedMeta) -> S, s: S): S
  {
    if items == [] then s else Fold(items[1..], f, f(s, items[0]))
  }

  lemma {:induction false} FoldAppend<S>(a: seq<NestedMeta>, b: seq<NestedMeta>, f: (S, NestedMeta) -> S, s: S)
    ensures Fold(a + b, f, s) == Fold(b, f, Fold(a, f, s))
    decreases |a|
  {
    if a != [] {
      assert (a + b)[1..] == a[1..] + b;
      FoldAppend(a[1..], b, f, f(s, a[0]));
    } else {
      assert a + b == b;
    }
  }

  lemma {:induction false} VisitItemsInfallible<S>(items: seq<NestedMeta>, cb: (S, NestedMeta) -> Result<S, ParseError>, f: (S, NestedMeta) -> S, s: S)
    requires forall t, m :: cb(t, m) == Ok(f(t, m))
    ensures VisitItems(items, cb, s) == Visited(Fold(items, f, s), None)
    decreases |items|
  {
    if items != [] {
      VisitItemsInfallible(items[1..], cb, f, f(s, items[0]));
    }
  }

  /** With a callback that never fails, a visit is a fold over exactly the nested items
      of the matching attributes read before the first malformed one. */
  lemma {:induction false} VisitInfallible<S>(attrs: seq<Attribute>, ident: string, cb: (S, NestedMeta) -> Result<S, ParseError>, f: (S, NestedMeta) -> S, s: S)
    requires forall t, m :: cb(t, m) == Ok(f(t, m))
    ensures VisitAttribs(attrs, ident, cb, s).state
      == Fold(ReachedItems(attrs, ident), f, s)
    decreases |attrs|
  {
    if attrs != [] {
      if !IsIdentPath(attrs[0].path, ident) {
        VisitInfallible(attrs[1..], ident, cb, f, s);
      } else if attrs[0].body.BList? {
        var n := attrs[0].body.nested;
        VisitItemsInfallible(n, cb, f, s);
        VisitInfallible(attrs[1..], ident, cb, f, Fold(n, f, s));
        FoldAppend(n, ReachedItems(attrs[1..], ident), f, s);
      }
    }
  }

  /** A visit never looks at attributes with another name. */
  lemma {:induction false} VisitSkipsOthers<S>(attrs: seq<Attribute>, a: Attribute, ident: string, cb: (S, NestedMeta) -> Result<S, ParseError>, s: S)
    requires !IsIdentPath(a.path, ident)
    ensures VisitAttribs([a] + attrs, ident, cb, s) == VisitAttribs(attrs, ident, cb, s)
  {
    assert ([a] + attrs)[1..] == attrs;
  }

  // ---------------------------------------------------------------------------
  // cfg evaluation

  /** `format!("CARGO_FEATURE_{}", feature.to_uppercase().replace('-', "_"))`. */
  function FeatureEnvName(feature: string): (r: string)
    ensures |r| == 14 + |feature| && r[..14] == "CARGO_FEATURE_"
    ensures forall i :: 0 <= i < |feature| ==>
      r[14 + i] == (if ToUpperChar(feature[i]) == '-' then '_' else ToUpperChar(feature[i]))
  {
    "CARGO_FEATURE_" + ReplaceChar(ToUpper(feature), '-', '_')
  }

  /** `get_lit_str`: only a string literal is accepted. */
  function GetLitStr(lit: Lit): (r: Result<string, ParseError>)
    ensures r.Ok? <==> lit.LStr?
    ensures lit.LStr? ==> r == Ok(lit.value)
  {
    match lit
    case LStr(s) => Ok(s)
    case LOther => Err(ParseError("expected attribute to be a string"))
  }

  /** `check_expr`: the value of one cfg predicate. `feature = "x"` asks the
      environment; `not` negates its first item only; `all`/`any` fold their items;
      anything else (including a non-string feature) counts as true. */
  function CheckExpr(env: set<string>, m: NestedMeta): (r: bool)
    ensures m.NMeta? && m.meta.MNameValue? && IsIdentPath(m.meta.path, "feature") && m.meta.lit.LStr? ==>
      (r <==> FeatureEnvName(m.meta.lit.value) in env)
    ensures !r ==> m.NMeta? && (m.meta.MNameValue? || m.meta.MList?)
    ensures !r && m.meta.MNameValue? ==> IsIdentPath(m.meta.path, "feature") && m.meta.lit.LStr?
    ensures !r && m.meta.MList? ==>
      IsIdentPath(m.meta.path, "not") || IsIdentPath(m.meta.path, "all") || IsIdentPath(m.meta.path, "any")
    decreases m, 1
  {
    match m
    case NMeta(MNameValue(p, lit)) =>
      if !IsIdentPath(p, "feature") then true
      else (match GetLitStr(lit)
        case Ok(f) => FeatureEnvName(f) in env
        case Err(_) => true)
    case NMeta(MList(p, nested)) =>
      if IsIdentPath(p, "not") then !(|nested| > 0 && CheckExpr(env, nested[0]))
      else if IsIdentPath(p, "all") then CheckAll(env, nested, m)
      else if IsIdentPath(p, "any") then CheckAny(env, nested, m)
      else true
    case _ => true
  }

  /** `nested.iter().all(check_expr)`. */
  function CheckAll(env: set<string>, items: seq<NestedMeta>, ghost parent: NestedMeta): (r: bool)
    requires forall i :: 0 <= i < |items| ==> items[i] < parent
    ensures r <==> forall i :: 0 <= i < |items| ==> CheckExpr(env, items[i])
    decreases parent, 0, |items|
  {
    if items == [] then true else CheckExpr(env, items[0]) && CheckAll(env, items[1..], parent)
  }

  /** `nested.iter().any(check_expr)`. */
  function CheckAny(env: set<string>, items: seq<NestedMeta>, ghost parent: NestedMeta): (r: bool)
    requires forall i :: 0 <= i < |items| ==> items[i] < parent
    ensures r <==> exists i :: 0 <= i < |items| && CheckExpr(env, items[i])
    decreases parent, 0, |items|
  {
    if items == [] then false else CheckExpr(env, items[0]) || CheckAny(env, items[1..], parent)
  }

  /** The callback `check_is_disabled` passes: clear `v` at the first false item. */
  function CfgCallback(env: set<string>): (bool, NestedMeta) -> Result<bool, ParseError>
  {
    (v: bool, m: NestedMeta) => Ok(v && CheckExpr(env, m))
  }

  /** The items of the `#[cfg(...)]` attributes that `check_is_disabled` evaluates. */
  function CfgItems(attrs: seq<Attribute>): seq<NestedMeta>
  {
    ReachedItems(attrs, "cfg")
  }

  lemma {:induction false} FoldAnd(env: set<string>, items: seq<NestedMeta>, v: bool)
    ensures Fold(items, (v: bool, m: NestedMeta) => v && CheckExpr(env, m), v)
      <==> v && forall i :: 0 <= i < |items| ==> CheckExpr(env, items[i])
    decreases |items|
  {
    if items != [] {
      FoldAnd(env, items[1..], v && CheckExpr(env, items[0]));
      assert forall i :: 1 <= i < |items| ==> items[i] == items[1..][i - 1];
    }
  }

  /** `check_is_disabled`: the visit with the callback above, its error ignored. */
  method CheckIsDisabled(env: set<string>, attrs: seq<Attribute>) returns (disabled: bool)
    ensures disabled == !VisitAttribs(attrs, "cfg", CfgCallback(env), true).state
  {
    var visit := RunVisitAttribs(attrs, "cfg", CfgCallback(env), true);
    disabled := !visit.state;
  }

  /** An item is disabled exactly when one of the cfg items reached evaluates false;
      with no cfg attribute it is enabled. */
  lemma DisabledIffSomeCfgFalse(env: set<string>, attrs: seq<Attribute>)
    ensures !VisitAttribs(attrs, "cfg", CfgCallback(env), true).state
      <==> exists i :: 0 <= i < |CfgItems(attrs)| && !CheckExpr(env, CfgItems(attrs)[i])
  {
    var f := (v: bool, m: NestedMeta) => v && CheckExpr(env, m);
    VisitInfallible(attrs, "cfg", CfgCallback(env), f, true);
    FoldAnd(env, CfgItems(attrs), true);
  }

  /** `check_is_enabled`: the exact negation. */
  method CheckIsEnabled(env: set<string>, attrs: seq<Attribute>) returns (enabled: bool)
    ensures enabled <==> forall i :: 0 <= i < |CfgItems(attrs)| ==> CheckExpr(env, CfgItems(attrs)[i])
  {
    var disabled := CheckIsDisabled(env, attrs);
    DisabledIffSomeCfgFalse(env, attrs);
    enabled := !disabled;
  }
}
