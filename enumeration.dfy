/** `#[klipper_enumeration]`: numbering the variants of an enumeration, the
    names it is listed under in the data dictionary, and the number/variant
    conversions generated for it. Counts and numbers are `usize` in the code;
    here they are unbounded naturals. */
module Enumerations {
  import opened Types
  import opened Syn
  import opened Text

  datatype RenameFormat = Verbatim | LowerCase | UpperCase | SnakeCase

  datatype VariantOpts = VariantOpts(disabled: bool, rename: Option<string>, attrs: seq<Attribute>)

  /** A plain variant, or `Range(prefix, identStart, count)`, which declares the
      variants `prefix{identStart}` .. `prefix{identStart + count - 1}`. */
  datatype EnumVariant =
    | Single(opts: VariantOpts, ident: string)
    | Range(opts: VariantOpts, prefix: string, identStart: nat, count: nat)

  datatype EnumOptions = EnumOptions(name: Option<string>, renameAll: RenameFormat)

  datatype Enumeration = Enumeration(opts: EnumOptions, ident: string, variants: seq<EnumVariant>)

  datatype DictItem = Number(n: int) | DRange(start: int, count: int)

  /** A variant with its first number and its count, as `numbered_variants` yields it. */
  datatype Numbered = Numbered(variant: EnumVariant, start: nat, count: nat)

  /** `EnumVariant::count`. */
  function Count(v: EnumVariant): (r: nat)
    ensures v.Single? ==> r == 1
    ensures v.Range? ==> r == v.count
  {
    match v
    case Single(_, _) => 1
    case Range(_, _, _, cnt) => cnt
  }

  /** The total count of a list of variants. */
  function SumCounts(vs: seq<EnumVariant>): nat
  {
    if vs == [] then 0 else Count(vs[0]) + SumCounts(vs[1..])
  }

  lemma {:induction false} SumCountsSnoc(vs: seq<EnumVariant>, v: EnumVariant)
    ensures SumCounts(vs + [v]) == SumCounts(vs) + Count(v)
    decreases |vs|
  {
    if vs == [] {
      assert [] + [v] == [v];
    } else {
      assert (vs + [v])[1..] == vs[1..] + [v];
      SumCountsSnoc(vs[1..], v);
    }
  }

  /** The numbering with the running total starting at `start`. */
  function NumberedFrom(vs: seq<EnumVariant>, start: nat): (r: seq<Numbered>)
    ensures |r| == |vs|
  {
    if vs == [] then [] else [Numbered(vs[0], start, Count(vs[0]))] + NumberedFrom(vs[1..], start + Count(vs[0]))
  }

  function NumberVariants(vs: seq<EnumVariant>): seq<Numbered>
  {
    NumberedFrom(vs, 0)
  }

  /** Variant `k` starts at the total count of the variants before it, whether
      or not they are disabled. */
  lemma {:induction false} NumberedFromAt(vs: seq<EnumVariant>, start: nat, k: nat)
    requires k < |vs|
    ensures NumberedFrom(vs, start)[k] == Numbered(vs[k], start + SumCounts(vs[..k]), Count(vs[k]))
    decreases k
  {
    if k == 0 {
      assert vs[..0] == [];
    } else {
      NumberedFromAt(vs[1..], start + Count(vs[0]), k - 1);
      assert vs[1..][..k - 1] == vs[..k][1..];
    }
  }

  lemma NumberedAt(vs: seq<EnumVariant>, k: nat)
    requires k < |vs|
    ensures NumberVariants(vs)[k] == Numbered(vs[k], SumCounts(vs[..k]), Count(vs[k]))
  {
    NumberedFromAt(vs, 0, k);
  }

  /** Consecutive variants are contiguous: each starts where the last ended. */
  lemma Contiguous(vs: seq<EnumVariant>, k: nat)
    requires k + 1 < |vs|
    ensures NumberVariants(vs)[k + 1].start == NumberVariants(vs)[k].start + NumberVariants(vs)[k].count
  {
    NumberedAt(vs, k);
    NumberedAt(vs, k + 1);
    assert vs[..k + 1] == vs[..k] + [vs[k]];
    SumCountsSnoc(vs[..k], vs[k]);
  }

  /** `numbered_variants`: the `scan` with its running total. */
  method NumberedVariants(vs: seq<EnumVariant>) returns (r: seq<Numbered>)
    ensures |r| == |vs|
    ensures forall k :: 0 <= k < |vs| ==> r[k] == Numbered(vs[k], SumCounts(vs[..k]), Count(vs[k]))
  {
    r := [];
    var state := 0;
    var i := 0;
    while i < |vs|
      invariant 0 <= i <= |vs|
      invariant state == SumCounts(vs[..i])
      invariant |r| == i && forall k :: 0 <= k < i ==> r[k] == Numbered(vs[k], SumCounts(vs[..k]), Count(vs[k]))
    {
      var cnt := Count(vs[i]);
      r := r + [Numbered(vs[i], state, cnt)];
      assert vs[..i + 1] == vs[..i] + [vs[i]];
      SumCountsSnoc(vs[..i], vs[i]);
      state := state + cnt;
      i := i + 1;
    }
  }

  /** The last variant ends where the total count does. */
  lemma LastEndsAtTotal(vs: seq<EnumVariant>)
    requires vs != []
    ensures NumberVariants(vs)[|vs| - 1].start + NumberVariants(vs)[|vs| - 1].count == SumCounts(vs)
  {
    var k := |vs| - 1;
    NumberedAt(vs, k);
    assert vs == vs[..k] + [vs[k]];
    SumCountsSnoc(vs[..k], vs[k]);
  }

  /** `max_variant`, with the code's `s + c - 1` on `usize`: the total count
      minus one, 0 without variants, and an overflow panic only when every
      variant is an empty range. */
  function MaxVariant(vs: seq<EnumVariant>): (r: Result<nat, string>)
    ensures vs == [] ==> r == Ok(0)
    ensures r.Err? <==> vs != [] && SumCounts(vs) == 0
    ensures r.Ok? && vs != [] ==> r.value + 1 == SumCounts(vs)
  {
    if vs == [] then Ok(0)
    else
      var last := NumberVariants(vs)[|vs| - 1];
      LastEndsAtTotal(vs);
      if last.start + last.count == 0 then Err("attempt to subtract with overflow")
      else Ok(last.start + last.count - 1)
  }

  /** The widest value each integer type of `valid_input_types` can hold. */
  function TypeMax(ty: string): nat
  {
    if ty == "u8" then 0xFF
    else if ty == "u16" then 0xFFFF
    else if ty == "u32" then 0xFFFF_FFFF
    else 0xFFFF_FFFF_FFFF_FFFF
  }

  /** `valid_input_types`: the integer types conversions are generated for. */
  function ValidInputTypes(max: nat): (r: seq<string>)
    ensures ("u8" in r <==> max <= 255) && ("u16" in r <==> max <= 65535)
    ensures "u32" in r && "u64" in r && "usize" in r
    ensures forall i :: 0 <= i < |r| ==> r[i] in {"u8", "u16", "u32", "u64", "usize"}
    ensures max <= 0xFFFF_FFFF ==> forall i :: 0 <= i < |r| ==> max <= TypeMax(r[i])
  {
    if max <= 255 then ["u8", "u16", "u32", "u64", "usize"]
    else if max <= 65535 then ["u16", "u32", "u64", "usize"]
    else ["u32", "u64", "usize"]
  }

  /** `dictionary_name`. */
  function DictionaryName(e: Enumeration): (r: string)
    ensures e.opts.name.Some? ==> r == e.opts.name.value
    ensures e.opts.name.None? ==> r == e.ident
  {
    e.opts.name.GetOr(e.ident)
  }

  // ---------------------------------------------------------------------------
  // Renaming

  predicate IsUpper(c: char) { 'A' <= c <= 'Z' }

  predicate NoUpper(s: string) { forall i :: 0 <= i < |s| ==> !IsUpper(s[i]) }

  /** What the `snake_case` loop pushes for the character at index `i`. */
  function SnakePiece(i: nat, c: char): string
  {
    (if i > 0 && IsUpper(c) then "_" else "") + [ToLowerChar(c)]
  }

  /** `snake_case` of a string: `_` before every upper-case character after the
      first, and every character lower-cased. */
  function Snake(s: string): string
    decreases |s|
  {
    if s == [] then [] else Snake(s[..|s| - 1]) + SnakePiece(|s| - 1, s[|s| - 1])
  }

  /** The `SnakeCase` arm of `apply`: the push loop over `char_indices`. */
  method SnakeCaseLoop(s: string) returns (out: string)
    ensures out == Snake(s)
  {
    out := "";
    var i := 0;
    while i < |s|
      invariant 0 <= i <= |s|
      invariant out == Snake(s[..i])
    {
      assert s[..i + 1][..i] == s[..i];
      if i > 0 && IsUpper(s[i]) {
        out := out + "_";
      }
      out := out + [ToLowerChar(s[i])];
      i := i + 1;
    }
    assert s[..i] == s;
  }

  /** Upper-case characters after the first, each of which gains a `_`. */
  function Humps(s: string): nat
    decreases |s|
  {
    if s == [] then 0 else Humps(s[..|s| - 1]) + (if |s| > 1 && IsUpper(s[|s| - 1]) then 1 else 0)
  }

  /** The result has no upper-case character, and one more character per hump. */
  lemma {:induction false} SnakeShape(s: string)
    ensures NoUpper(Snake(s))
    ensures |Snake(s)| == |s| + Humps(s)
    decreases |s|
  {
    if s != [] {
      SnakeShape(s[..|s| - 1]);
    }
  }

  /** On text with nothing upper-case, `snake_case` changes nothing. */
  lemma {:induction false} SnakeOfLower(s: string)
    requires NoUpper(s)
    ensures Snake(s) == s
    decreases |s|
  {
    if s != [] {
      SnakeOfLower(s[..|s| - 1]);
      assert s == s[..|s| - 1] + [s[|s| - 1]];
    }
  }

  /** Applying `snake_case` twice is applying it once. */
  lemma SnakeIdempotent(s: string)
    ensures Snake(Snake(s)) == Snake(s)
  {
    SnakeShape(s);
    SnakeOfLower(Snake(s));
  }

  /** Without humps, `snake_case` is plain lower-casing. */
  lemma SnakeWithoutHumps(s: string)
    requires forall i :: 0 < i < |s| ==> !IsUpper(s[i])
    ensures Snake(s) == ToLower(s)
  {
    SnakeLowersEach(s);
    ToLowerIs(s, Snake(s));
  }

  lemma {:induction false} SnakeLowersEach(s: string)
    requires forall i :: 0 < i < |s| ==> !IsUpper(s[i])
    ensures |Snake(s)| == |s| && forall i :: 0 <= i < |s| ==> Snake(s)[i] == ToLowerChar(s[i])
    decreases |s|
  {
    if s != [] {
      var n := |s| - 1;
      var init := s[..n];
      assert forall i :: 0 <= i < |init| ==> init[i] == s[i];
      SnakeLowersEach(init);
      PieceWithoutHump(n, s[n]);
      var c := ToLowerChar(s[n]);
      assert Snake(s) == Snake(init) + [c];
      assert Snake(s)[n] == c;
    }
  }

  lemma ToLowerIs(s: string, u: string)
    requires |u| == |s| && forall i :: 0 <= i < |s| ==> u[i] == ToLowerChar(s[i])
    ensures ToLower(s) == u
  {
  }

  lemma PieceWithoutHump(i: nat, c: char)
    requires !(i > 0 && IsUpper(c))
    ensures SnakePiece(i, c) == [ToLowerChar(c)]
  {
    assert "" + [ToLowerChar(c)] == [ToLowerChar(c)];
  }

  /** `RenameFormat::apply`, for ASCII identifiers. */
  method Apply(format: RenameFormat, s: string) returns (r: string)
    ensures r == Renamed(format, s)
  {
    match format
    case Verbatim => r := s;
    case LowerCase => r := ToLower(s);
    case UpperCase => r := ToUpper(s);
    case SnakeCase => r := SnakeCaseLoop(s);
  }

  function Renamed(format: RenameFormat, s: string): string
  {
    match format
    case Verbatim => s
    case LowerCase => ToLower(s)
    case UpperCase => ToUpper(s)
    case SnakeCase => Snake(s)
  }

  /** The attribute spelling of each rename format. */
  function FormatName(f: RenameFormat): string
  {
    match f
    case Verbatim => ""
    case LowerCase => "lowercase"
    case UpperCase => "UPPERCASE"
    case SnakeCase => "snake_case"
  }

  /** `RenameFormat::from_str`: only the three spellings are accepted, each
      naming the format whose spelling it is. */
  function FromStr(s: string): (r: Result<RenameFormat, ()>)
    ensures r.Ok? <==> s in {"lowercase", "UPPERCASE", "snake_case"}
    ensures r.Ok? ==> FormatName(r.value) == s && r.value != Verbatim
  {
    if s == "lowercase" then Ok(LowerCase)
    else if s == "UPPERCASE" then Ok(UpperCase)
    else if s == "snake_case" then Ok(SnakeCase)
    else Err(())
  }

  /** Every format but the default is reached from its spelling. */
  lemma FromStrRoundTrip(f: RenameFormat)
    requires f != Verbatim
    ensures FromStr(FormatName(f)) == Ok(f)
  {
  }

  /** `EnumVariant::ident`: a range answers with its prefix. */
  function BaseIdent(v: EnumVariant): string
  {
    match v
    case Single(_, ident) => ident
    case Range(_, prefix, _, _) => prefix
  }

  /** `EnumVariant::name`: the explicit rename, else the enumeration's format
      applied to the identifier. */
  function Name(v: EnumVariant, format: RenameFormat): (r: string)
    ensures v.opts.rename.Some? ==> r == v.opts.rename.value
    ensures v.opts.rename.None? ==> r == Renamed(format, BaseIdent(v))
  {
    match v.opts.rename
    case Some(n) => n
    case None => Renamed(format, BaseIdent(v))
  }

  // ---------------------------------------------------------------------------
  // The dictionary entry

  function Item(n: Numbered): DictItem
  {
    if n.variant.Single? then Number(n.start) else DRange(n.start, n.count)
  }

  /** The map `to_dictionary` has built after the variants `ns`. */
  function DictionaryOf(ns: seq<Numbered>, format: RenameFormat): map<string, DictItem>
    decreases |ns|
  {
    if ns == [] then map[]
    else
      var d := DictionaryOf(ns[..|ns| - 1], format);
      var n := ns[|ns| - 1];
      if n.variant.opts.disabled then d else d[Name(n.variant, format) := Item(n)]
  }

  /** One more variant: skipped when disabled, otherwise its entry is set. */
  lemma DictionaryOfStep(ns: seq<Numbered>, i: nat, format: RenameFormat)
    requires i < |ns|
    ensures DictionaryOf(ns[..i + 1], format) ==
      if ns[i].variant.opts.disabled then DictionaryOf(ns[..i], format)
      else DictionaryOf(ns[..i], format)[Name(ns[i].variant, format) := Item(ns[i])]
  {
    assert ns[..i + 1][..i] == ns[..i];
  }

  /** `to_dictionary`: a loop over the numbered variants, skipping disabled ones
      and inserting `name -> Number(start)` or `name -> Range(start, count)`. */
  method ToDictionary(e: Enumeration) returns (out: map<string, DictItem>)
    ensures out == DictionaryOf(NumberVariants(e.variants), e.opts.renameAll)
  {
    var ns := NumberedVariants(e.variants);
    forall k | 0 <= k < |e.variants|
      ensures ns[k] == NumberVariants(e.variants)[k]
    {
      NumberedAt(e.variants, k);
    }
    assert ns == NumberVariants(e.variants);
    out := map[];
    var i := 0;
    while i < |ns|
      invariant 0 <= i <= |ns|
      invariant out == DictionaryOf(ns[..i], e.opts.renameAll)
    {
      DictionaryOfStep(ns, i, e.opts.renameAll);
      var n := ns[i];
      if !n.variant.opts.disabled {
        var name := Name(n.variant, e.opts.renameAll);
        if n.variant.Single? {
          out := out[name := Number(n.start)];
        } else {
          out := out[name := DRange(n.start, n.count)];
        }
      }
      i := i + 1;
    }
    assert ns[..i] == ns;
  }

  /** A name is listed exactly when some enabled variant has it, and it is
      listed with the entry of the last such variant. */
  lemma {:induction false} DictionaryEntries(ns: seq<Numbered>, format: RenameFormat, name: string)
    ensures name in DictionaryOf(ns, format) <==> exists k :: 0 <= k < |ns| && NamedAt(ns, k, format, name)
    ensures name in DictionaryOf(ns, format) ==>
      exists k :: 0 <= k < |ns| && NamedAt(ns, k, format, name)
        && DictionaryOf(ns, format)[name] == Item(ns[k])
        && forall j :: k < j < |ns| ==> !NamedAt(ns, j, format, name)
    decreases |ns|
  {
    if ns != [] {
      var init := ns[..|ns| - 1];
      var last := |ns| - 1;
      DictionaryEntries(init, format, name);
      NamedAtPrefix(ns, format, name);
      if NamedAt(ns, last, format, name) {
        assert DictionaryOf(ns, format)[name] == Item(ns[last]);
      } else {
        DictionaryOfSkip(ns, format, name);
        if exists k :: 0 <= k < |ns| && NamedAt(ns, k, format, name) {
          var k :| 0 <= k < |ns| && NamedAt(ns, k, format, name);
          assert NamedAt(init, k, format, name);
        }
        if name in DictionaryOf(init, format) {
          var k :| 0 <= k < |init| && NamedAt(init, k, format, name)
            && DictionaryOf(init, format)[name] == Item(init[k])
            && forall j :: k < j < |init| ==> !NamedAt(init, j, format, name);
          assert NamedAt(ns, k, format, name);
        }
      }
    }
  }

  /** A last variant not listed under `name` leaves the entry for `name` alone. */
  lemma DictionaryOfSkip(ns: seq<Numbered>, format: RenameFormat, name: string)
    requires ns != [] && !NamedAt(ns, |ns| - 1, format, name)
    ensures name in DictionaryOf(ns, format) <==> name in DictionaryOf(ns[..|ns| - 1], format)
    ensures name in DictionaryOf(ns, format) ==> DictionaryOf(ns, format)[name] == DictionaryOf(ns[..|ns| - 1], format)[name]
  {
  }

  /** The `k`-th variant is enabled and listed under `name`. */
  predicate NamedAt(ns: seq<Numbered>, k: nat, format: RenameFormat, name: string)
    requires k < |ns|
  {
    !ns[k].variant.opts.disabled && Name(ns[k].variant, format) == name
  }

  lemma NamedAtPrefix(ns: seq<Numbered>, format: RenameFormat, name: string)
    requires ns != []
    ensures forall k :: 0 <= k < |ns| - 1 ==> (NamedAt(ns[..|ns| - 1], k, format, name) <==> NamedAt(ns, k, format, name))
    ensures forall k :: 0 <= k < |ns| - 1 ==> ns[..|ns| - 1][k] == ns[k]
  {
  }

  // ---------------------------------------------------------------------------
  // The generated conversions

  /** One arm of a generated `match`: a number and a variant identifier. */
  datatype Arm = Arm(number: nat, ident: string)

  /** The identifier of the `k`-th variant a range declares. */
  function RangeIdent(prefix: string, identStart: nat, k: nat): string
  {
    prefix + Decimal(identStart + k)
  }

  /** The arms `variant_matches` writes for one numbered variant: number
      `start + k` selects `prefix{identStart + k}`. The arms carry the variant's
      `cfg` attributes, so a disabled variant has none in the compiled code. */
  function TryArms(n: Numbered): (r: seq<Arm>)
    ensures !n.variant.opts.disabled ==> |r| == (if n.variant.Single? then 1 else n.count)
    ensures forall i :: 0 <= i < |r| ==> r[i].number == n.start + i
  {
    if n.variant.opts.disabled then []
    else match n.variant
      case Single(_, ident) => [Arm(n.start, ident)]
      case Range(_, prefix, identStart, _) =>
        seq(n.count, k requires 0 <= k < n.count => Arm(n.start + k, RangeIdent(prefix, identStart, k)))
  }

  /** The arms `variant_to_matches` writes, as the code stands: `prefix{i}` for
      `i` in `identStart..identStart + count` maps to `i + start`. */
  function ToArmsAsWritten(n: Numbered): (r: seq<Arm>)
    ensures |r| == |TryArms(n)|
    ensures forall i :: 0 <= i < |r| ==>
      r[i].ident == TryArms(n)[i].ident
      && r[i].number == n.start + i + (if n.variant.Range? then n.variant.identStart else 0)
    ensures r == ToArms(n) <==> n.variant.opts.disabled || n.variant.Single? || n.count == 0 || n.variant.identStart == 0
  {
    if n.variant.opts.disabled then []
    else match n.variant
      case Single(_, ident) => [Arm(n.start, ident)]
      case Range(_, prefix, identStart, _) =>
        var r := seq(n.count, k requires 0 <= k < n.count => Arm(identStart + k + n.start, RangeIdent(prefix, identStart, k)));
        assert identStart > 0 && n.count > 0 ==> r[0] != ToArms(n)[0];
        assert identStart == 0 ==> forall k :: 0 <= k < n.count ==> r[k] == ToArms(n)[k];
        r
  }

  /** The arms `variant_to_matches` is meant to write: `prefix{i}` maps to
      `i - identStart + start`, the number `variant_matches` gives it. */
  function ToArms(n: Numbered): (r: seq<Arm>)
    ensures r == TryArms(n)
  {
    if n.variant.opts.disabled then []
    else match n.variant
      case Single(_, ident) => [Arm(n.start, ident)]
      case Range(_, prefix, identStart, _) =>
        seq(n.count, k requires 0 <= k < n.count =>
          var i := identStart + k;
          Arm(i - identStart + n.start, RangeIdent(prefix, identStart, k)))
  }

  /** The arms of one generated `match`, in variant order. */
  function AllArms(ns: seq<Numbered>, arms: Numbered -> seq<Arm>): seq<Arm>
  {
    if ns == [] then [] else arms(ns[0]) + AllArms(ns[1..], arms)
  }

  /** The generated `TryFrom<int>`: the first arm with the number, else `Err(())`. */
  function LookupNumber(arms: seq<Arm>, x: nat): Option<string>
  {
    if arms == [] then None
    else if arms[0].number == x then Some(arms[0].ident)
    else LookupNumber(arms[1..], x)
  }

  /** The generated `From<enum>`: the number of the first arm naming the variant. */
  function LookupIdent(arms: seq<Arm>, id: string): Option<nat>
  {
    if arms == [] then None
    else if arms[0].ident == id then Some(arms[0].number)
    else LookupIdent(arms[1..], id)
  }

  function TryFromArms(e: Enumeration): seq<Arm> { AllArms(NumberVariants(e.variants), TryArms) }

  function FromArmsAsWritten(e: Enumeration): seq<Arm> { AllArms(NumberVariants(e.variants), ToArmsAsWritten) }

  function FromArms(e: Enumeration): seq<Arm> { AllArms(NumberVariants(e.variants), ToArms) }

  predicate DistinctIdents(arms: seq<Arm>)
  {
    forall i, j :: 0 <= i < j < |arms| ==> arms[i].ident != arms[j].ident
  }

  predicate DistinctNumbers(arms: seq<Arm>)
  {
    forall i, j :: 0 <= i < j < |arms| ==> arms[i].number != arms[j].number
  }

  /** Every number a list of variants gets lies in `start .. start + total`. */
  lemma {:induction false} ArmBounds(vs: seq<EnumVariant>, start: nat)
    ensures forall i :: 0 <= i < |AllArms(NumberedFrom(vs, start), TryArms)| ==>
      start <= AllArms(NumberedFrom(vs, start), TryArms)[i].number < start + SumCounts(vs)
    decreases |vs|
  {
    if vs != [] {
      var ns := NumberedFrom(vs, start);
      assert ns[1..] == NumberedFrom(vs[1..], start + Count(vs[0]));
      ArmBounds(vs[1..], start + Count(vs[0]));
    }
  }

  /** Variants are numbered apart, so no two arms share a number. */
  lemma {:induction false} ArmNumbersDistinct(vs: seq<EnumVariant>, start: nat)
    ensures DistinctNumbers(AllArms(NumberedFrom(vs, start), TryArms))
    decreases |vs|
  {
    if vs != [] {
      var ns := NumberedFrom(vs, start);
      var next := start + Count(vs[0]);
      assert ns[1..] == NumberedFrom(vs[1..], next);
      ArmNumbersDistinct(vs[1..], next);
      ArmBounds(vs[1..], next);
      var head := TryArms(ns[0]);
      var tail := AllArms(ns[1..], TryArms);
      assert forall i :: 0 <= i < |head| ==> head[i].number < next;
      assert forall j :: 0 <= j < |tail| ==> next <= tail[j].number;
    }
  }

  lemma {:induction false} LookupNumberAt(arms: seq<Arm>, i: nat)
    requires i < |arms| && DistinctNumbers(arms)
    ensures LookupNumber(arms, arms[i].number) == Some(arms[i].ident)
    decreases i
  {
    if i > 0 {
      LookupNumberAt(arms[1..], i - 1);
    }
  }

  lemma {:induction false} LookupIdentAt(arms: seq<Arm>, i: nat)
    requires i < |arms| && DistinctIdents(arms)
    ensures LookupIdent(arms, arms[i].ident) == Some(arms[i].number)
    decreases i
  {
    if i > 0 {
      LookupIdentAt(arms[1..], i - 1);
    }
  }

  lemma {:induction false} LookupNumberFound(arms: seq<Arm>, x: nat)
    requires LookupNumber(arms, x).Some?
    ensures exists i :: 0 <= i < |arms| && arms[i].number == x && arms[i].ident == LookupNumber(arms, x).value
  {
    if arms[0].number != x {
      LookupNumberFound(arms[1..], x);
      var i :| 0 <= i < |arms[1..]| && arms[1..][i].number == x && arms[1..][i].ident == LookupNumber(arms, x).value;
      assert arms[i + 1] == arms[1..][i];
    }
  }

  lemma {:induction false} LookupIdentFound(arms: seq<Arm>, id: string)
    requires LookupIdent(arms, id).Some?
    ensures exists i :: 0 <= i < |arms| && arms[i].ident == id && arms[i].number == LookupIdent(arms, id).value
  {
    if arms[0].ident != id {
      LookupIdentFound(arms[1..], id);
      var i :| 0 <= i < |arms[1..]| && arms[1..][i].ident == id && arms[1..][i].number == LookupIdent(arms, id).value;
      assert arms[i + 1] == arms[1..][i];
    }
  }

  lemma {:induction false} SameArms(ns: seq<Numbered>)
    ensures AllArms(ns, ToArms) == AllArms(ns, TryArms)
    decreases |ns|
  {
    if ns != [] {
      SameArms(ns[1..]);
    }
  }

  /** Number to variant to number: every number `TryFrom` accepts comes back
      unchanged from `From`, and every variant `From` numbers comes back from
      `TryFrom`, given that the enumeration declares each identifier once (as
      Rust requires of an enum). */
  lemma ConversionsRoundTrip(e: Enumeration)
    requires DistinctIdents(TryFromArms(e))
    ensures forall x: nat :: LookupNumber(TryFromArms(e), x).Some? ==>
      LookupIdent(FromArms(e), LookupNumber(TryFromArms(e), x).value) == Some(x)
    ensures forall id :: LookupIdent(FromArms(e), id).Some? ==>
      LookupNumber(TryFromArms(e), LookupIdent(FromArms(e), id).value) == Some(id)
  {
    var arms := TryFromArms(e);
    SameArms(NumberVariants(e.variants));
    ArmNumbersDistinct(e.variants, 0);
    forall x: nat | LookupNumber(arms, x).Some?
      ensures LookupIdent(arms, LookupNumber(arms, x).value) == Some(x)
    {
      LookupNumberFound(arms, x);
      var i :| 0 <= i < |arms| && arms[i].number == x && arms[i].ident == LookupNumber(arms, x).value;
      LookupIdentAt(arms, i);
    }
    forall id | LookupIdent(arms, id).Some?
      ensures LookupNumber(arms, LookupIdent(arms, id).value) == Some(id)
    {
      LookupIdentFound(arms, id);
      var i :| 0 <= i < |arms| && arms[i].ident == id && arms[i].number == LookupIdent(arms, id).value;
      LookupNumberAt(arms, i);
    }
  }

  /** The numbers accepted by `TryFrom` are below the total count, so at most
      `max_variant`. */
  lemma AcceptedWithinMax(e: Enumeration, x: nat)
    requires LookupNumber(TryFromArms(e), x).Some?
    ensures MaxVariant(e.variants) == Ok(SumCounts(e.variants) - 1) && x <= MaxVariant(e.variants).value
  {
    var arms := TryFromArms(e);
    LookupNumberFound(arms, x);
    ArmBounds(e.variants, 0);
  }

  /** A lookup finds a number exactly when some arm carries it. */
  lemma {:induction false} LookupNumberSome(arms: seq<Arm>, x: nat)
    ensures LookupNumber(arms, x).Some? <==> exists i :: 0 <= i < |arms| && arms[i].number == x
  {
    if arms != [] && arms[0].number != x {
      LookupNumberSome(arms[1..], x);
      if exists i :: 0 <= i < |arms| && arms[i].number == x {
        var i :| 0 <= i < |arms| && arms[i].number == x;
        assert arms[1..][i - 1] == arms[i];
      }
    }
  }

  /** Searching two runs of arms in a row finds a number in either. */
  lemma {:induction false} LookupNumberAppend(a: seq<Arm>, b: seq<Arm>, x: nat)
    ensures LookupNumber(a + b, x).Some? <==> LookupNumber(a, x).Some? || LookupNumber(b, x).Some?
  {
    if a == [] {
      assert a + b == b;
    } else {
      assert (a + b)[0] == a[0] && (a + b)[1..] == a[1..] + b;
      LookupNumberAppend(a[1..], b, x);
    }
  }

  /** `x` lies in the range of the numbered variant `n`, and `n` is enabled. */
  predicate Accepts(n: Numbered, x: nat)
  {
    !n.variant.opts.disabled && n.start <= x < n.start + n.count
  }

  /** The arms of one variant accept exactly the numbers of its range, and none
      when it is disabled. */
  lemma TryArmsAccept(v: EnumVariant, start: nat, x: nat)
    ensures LookupNumber(TryArms(Numbered(v, start, Count(v))), x).Some? <==> Accepts(Numbered(v, start, Count(v)), x)
  {
    var r := TryArms(Numbered(v, start, Count(v)));
    LookupNumberSome(r, x);
    if Accepts(Numbered(v, start, Count(v)), x) {
      assert r[x - start].number == x;
    }
  }

  /** The numbers the arms of a run of variants accept: exactly those in the
      range of some enabled variant, numbered from `start`. */
  lemma {:induction false} AcceptedFrom(vs: seq<EnumVariant>, start: nat, x: nat)
    ensures var ns := NumberedFrom(vs, start);
      LookupNumber(AllArms(ns, TryArms), x).Some? <==> exists k :: 0 <= k < |ns| && Accepts(ns[k], x)
    decreases |vs|
  {
    if vs != [] {
      var ns := NumberedFrom(vs, start);
      var tail := NumberedFrom(vs[1..], start + Count(vs[0]));
      assert ns[1..] == tail;
      AcceptedFrom(vs[1..], start + Count(vs[0]), x);
      TryArmsAccept(vs[0], start, x);
      LookupNumberAppend(TryArms(ns[0]), AllArms(tail, TryArms), x);
      if exists j :: 0 <= j < |tail| && Accepts(tail[j], x) {
        var j :| 0 <= j < |tail| && Accepts(tail[j], x);
        assert ns[j + 1] == tail[j];
      }
      if exists k :: 0 <= k < |ns| && Accepts(ns[k], x) {
        var k :| 0 <= k < |ns| && Accepts(ns[k], x);
        if k > 0 {
          assert tail[k - 1] == ns[k];
        }
      }
    }
  }

  /** The generated `TryFrom` accepts a number exactly when it lies in the range
      of an enabled variant. */
  lemma TryFromAccepts(e: Enumeration, x: nat)
    ensures var ns := NumberVariants(e.variants);
      LookupNumber(TryFromArms(e), x).Some? <==> exists k :: 0 <= k < |ns| && Accepts(ns[k], x)
  {
    AcceptedFrom(e.variants, 0, x);
  }

  /** With no variant disabled, the arms from `start` accept exactly the
      numbers `start .. start + total`. */
  lemma {:induction false} AllEnabledAcceptFrom(vs: seq<EnumVariant>, start: nat, x: nat)
    requires forall k :: 0 <= k < |vs| ==> !vs[k].opts.disabled
    ensures LookupNumber(AllArms(NumberedFrom(vs, start), TryArms), x).Some? <==> start <= x < start + SumCounts(vs)
    decreases |vs|
  {
    if vs != [] {
      var ns := NumberedFrom(vs, start);
      var next := start + Count(vs[0]);
      assert ns[1..] == NumberedFrom(vs[1..], next);
      assert forall k :: 0 <= k < |vs[1..]| ==> vs[1..][k] == vs[k + 1];
      AllEnabledAcceptFrom(vs[1..], next, x);
      TryArmsAccept(vs[0], start, x);
      LookupNumberAppend(TryArms(ns[0]), AllArms(ns[1..], TryArms), x);
    }
  }

  /** With no variant disabled, `TryFrom` accepts exactly `0..=max_variant`,
      and each of those numbers comes back unchanged from `From`: the check the
      test jig makes over every pin number. */
  lemma AllEnabledRoundTrip(e: Enumeration, x: nat)
    requires forall k :: 0 <= k < |e.variants| ==> !e.variants[k].opts.disabled
    requires DistinctIdents(TryFromArms(e))
    ensures LookupNumber(TryFromArms(e), x).Some? <==> x < SumCounts(e.variants)
    ensures SumCounts(e.variants) > 0 ==>
      MaxVariant(e.variants).Ok? && (LookupNumber(TryFromArms(e), x).Some? <==> x <= MaxVariant(e.variants).value)
    ensures LookupNumber(TryFromArms(e), x).Some? ==>
      LookupIdent(FromArms(e), LookupNumber(TryFromArms(e), x).value) == Some(x)
  {
    AllEnabledAcceptFrom(e.variants, 0, x);
    ConversionsRoundTrip(e);
  }

  /** The one-variant enumeration `Range(P, 1, 1)`: `TryFrom(0)` gives `P1`, but
      the `From` conversion as written maps `P1` to 1. */
  lemma RangeOffsetBreaksRoundTrip()
    ensures var e := Enumeration(EnumOptions(None, Verbatim), "E", [Range(VariantOpts(false, None, []), "P", 1, 1)]);
      LookupNumber(TryFromArms(e), 0) == Some("P1")
      && LookupIdent(FromArmsAsWritten(e), "P1") == Some(1)
  {
    var v := Range(VariantOpts(false, None, []), "P", 1, 1);
    var e := Enumeration(EnumOptions(None, Verbatim), "E", [v]);
    var n := Numbered(v, 0, 1);
    assert NumberVariants(e.variants) == [n];
    assert Decimal(1) == "1";
    assert RangeIdent("P", 1, 0) == "P1";
    assert |TryArms(n)| == 1 && TryArms(n)[0] == Arm(0, "P1");
    assert TryArms(n) == [Arm(0, "P1")];
    assert |ToArmsAsWritten(n)| == 1 && ToArmsAsWritten(n)[0] == Arm(1, "P1");
    assert ToArmsAsWritten(n) == [Arm(1, "P1")];
    assert AllArms([n], TryArms) == TryArms(n) + AllArms([], TryArms);
    assert AllArms([n], ToArmsAsWritten) == ToArmsAsWritten(n) + AllArms([], ToArmsAsWritten);
  }

  /** When every range starts its identifiers at 0, the arms as written are the
      intended ones. */
  lemma {:induction false} AsWrittenAgreesFromZero(ns: seq<Numbered>)
    requires forall k :: 0 <= k < |ns| ==> ns[k].variant.Range? ==> ns[k].variant.identStart == 0
    ensures AllArms(ns, ToArmsAsWritten) == AllArms(ns, ToArms)
    decreases |ns|
  {
    if ns != [] {
      AsWrittenAgreesFromZero(ns[1..]);
      assert ToArmsAsWritten(ns[0]) == ToArms(ns[0]);
    }
  }
}
