/** Message descriptors: the `"name arg=%fmt ..."` strings under which commands
    and replies are listed in the data dictionary. */
module MsgDesc {
  import opened Types

  /** `TYPE_MAP`: the Klipper format of an argument type, by the type's printed
      form; `None` for a type the map lacks. */
  function TypeFormat(ty: string): Option<string>
  {
    if ty == "u32" then Some("%u")
    else if ty == "i32" then Some("%i")
    else if ty == "& [u8]" then Some("%*s")
    else if ty == "bool" then Some("%c")
    else if ty == "u8" then Some("%c")
    else if ty == "u16" then Some("%hu")
    else if ty == "i16" then Some("%hi")
    else None
  }

  /** The seven mapped types, and the Klipper formats they map to. */
  lemma TypeFormatDomain(ty: string)
    ensures TypeFormat(ty).Some? <==> ty in {"u32", "i32", "& [u8]", "bool", "u8", "u16", "i16"}
    ensures TypeFormat(ty).Some? ==> TypeFormat(ty).value in {"%u", "%i", "%*s", "%c", "%hu", "%hi"}
  {
  }

  /** Only `bool` and `u8` share a format; every other format names one type. */
  lemma TypeFormatSharedOnlyByBytes(a: string, b: string)
    requires TypeFormat(a).Some? && TypeFormat(a) == TypeFormat(b) && a != b
    ensures {a, b} == {"bool", "u8"}
  {
  }

  datatype DescArg = DescArg(name: string, ty: string)

  /** The message for the panic on an unmapped type. */
  function UnmappedType(ty: string): string
  {
    "Can't map type '" + ty + "' to a klipper data type"
  }

  /** `name=fmt`. */
  function Word(name: string, fmt: string): string
  {
    name + "=" + fmt
  }

  /** What one argument appends: a space and its word. */
  function FieldText(name: string, fmt: string): string
  {
    " " + Word(name, fmt)
  }

  lemma Assoc<T>(a: seq<T>, b: seq<T>, c: seq<T>)
    ensures a + (b + c) == (a + b) + c
  {
  }

  /** What `build_message_descriptor` appends for a list of arguments: one
      `" name=fmt"` per argument in order, or the panic for the first argument
      whose type has no format. */
  function Fields(args: seq<DescArg>): Result<string, string>
    decreases |args|
  {
    if args == [] then Ok("")
    else
      var init :- Fields(args[..|args| - 1]);
      var last := args[|args| - 1];
      match TypeFormat(last.ty)
      case None => Err(UnmappedType(last.ty))
      case Some(f) => Ok(init + FieldText(last.name, f))
  }

  /** `build_message_descriptor(name, args)`. */
  function Descriptor(name: string, args: seq<DescArg>): Result<string, string>
  {
    var f :- Fields(args);
    Ok(name + f)
  }

  /** Once a prefix of the arguments has failed, the whole list fails the same way. */
  lemma {:induction false} FieldsErrPersists(args: seq<DescArg>, k: nat)
    requires k <= |args| && Fields(args[..k]).Err?
    ensures Fields(args) == Fields(args[..k])
    decreases |args| - k
  {
    if k < |args| {
      assert args[..k + 1][..k] == args[..k];
      FieldsErrPersists(args, k + 1);
    } else {
      assert args[..k] == args;
    }
  }

  /** The loop of `build_message_descriptor`, writing `" {name}={fmt}"` per argument. */
  method BuildMessageDescriptor(name: string, args: seq<DescArg>) returns (r: Result<string, string>)
    ensures r == Descriptor(name, args)
  {
    var s := name;
    var i := 0;
    assert args[..0] == [] && name + "" == name;
    while i < |args|
      invariant 0 <= i <= |args|
      invariant Descriptor(name, args[..i]) == Ok(s)
    {
      assert args[..i + 1][..i] == args[..i];
      var ty := args[i].ty;
      var mapped := TypeFormat(ty);
      if mapped.None? {
        FieldsErrPersists(args, i + 1);
        return Err(UnmappedType(ty));
      }
      ghost var f0 := Fields(args[..i]).value;
      var field := " " + (args[i].name + "=" + mapped.value);
      Assoc(name, f0, field);
      s := s + field;
      i := i + 1;
    }
    assert args[..i] == args;
    r := Ok(s);
  }

  /** With no arguments the descriptor is the bare name. */
  lemma DescriptorNoArgs(name: string)
    ensures Descriptor(name, []) == Ok(name)
  {
    assert name + "" == name;
  }

  /** The descriptor exists exactly when every argument type has a format. */
  lemma {:induction false} DescriptorOkIff(name: string, args: seq<DescArg>)
    ensures Descriptor(name, args).Ok? <==> forall i :: 0 <= i < |args| ==> TypeFormat(args[i].ty).Some?
    decreases |args|
  {
    if args != [] {
      var init := args[..|args| - 1];
      DescriptorOkIff(name, init);
      assert forall i :: 0 <= i < |init| ==> init[i] == args[i];
    }
  }

  // ---------------------------------------------------------------------------
  // Reading a descriptor back

  predicate NoChar(s: string, c: char) { forall i :: 0 <= i < |s| ==> s[i] != c }

  /** The position of the last space, if any. */
  function LastSpace(s: string): (r: Option<nat>)
    ensures r.Some? ==> r.value < |s| && s[r.value] == ' ' && NoChar(s[r.value + 1..], ' ')
    ensures r.None? ==> NoChar(s, ' ')
  {
    if s == [] then None
    else if s[|s| - 1] == ' ' then Some(|s| - 1)
    else LastSpace(s[..|s| - 1])
  }

  /** The space-separated words of a string, as the host splits a descriptor. */
  function Words(s: string): seq<string>
    decreases |s|
  {
    match LastSpace(s)
    case None => [s]
    case Some(i) => Words(s[..i]) + [s[i + 1..]]
  }

  lemma {:induction false} LastSpaceAppend(x: string, w: string)
    requires NoChar(w, ' ')
    ensures LastSpace(x + " " + w) == Some(|x|)
    decreases |w|
  {
    var s := x + " " + w;
    if w == [] {
      assert s == x + " " && s[|s| - 1] == ' ';
    } else {
      var w' := w[..|w| - 1];
      assert s[|s| - 1] == w[|w| - 1] != ' ';
      assert s[..|s| - 1] == x + " " + w';
      assert NoChar(w', ' ');
      LastSpaceAppend(x, w');
    }
  }

  /** Appending a space and a word without spaces adds that word to the split. */
  lemma WordsAppend(x: string, w: string)
    requires NoChar(w, ' ')
    ensures Words(x + " " + w) == Words(x) + [w]
  {
    LastSpaceAppend(x, w);
    var s := x + " " + w;
    assert s[..|x|] == x && s[|x| + 1..] == w;
  }

  /** One `name=fmt` word of a descriptor. */
  function FieldWord(a: DescArg): string
    requires TypeFormat(a.ty).Some?
  {
    Word(a.name, TypeFormat(a.ty).value)
  }

  /** The words an argument list contributes. */
  function FieldWords(args: seq<DescArg>): (r: seq<string>)
    requires forall i :: 0 <= i < |args| ==> TypeFormat(args[i].ty).Some?
    ensures |r| == |args| && forall i :: 0 <= i < |args| ==> r[i] == FieldWord(args[i])
  {
    if args == [] then [] else FieldWords(args[..|args| - 1]) + [FieldWord(args[|args| - 1])]
  }

  lemma DescriptorStep(name: string, args: seq<DescArg>)
    requires args != [] && Fields(args).Ok?
    requires forall i :: 0 <= i < |args| ==> TypeFormat(args[i].ty).Some?
    ensures Descriptor(name, args).value
      == Descriptor(name, args[..|args| - 1]).value + " " + FieldWord(args[|args| - 1])
  {
    var last := args[|args| - 1];
    var w := Word(last.name, TypeFormat(last.ty).value);
    var init := Fields(args[..|args| - 1]).value;
    Assoc(name, init, " " + w);
    Assoc(name + init, " ", w);
  }

  lemma FormatNoSpace(ty: string)
    requires TypeFormat(ty).Some?
    ensures NoChar(TypeFormat(ty).value, ' ')
  {
  }

  lemma WordNoSpace(name: string, fmt: string)
    requires NoChar(name, ' ') && NoChar(fmt, ' ')
    ensures NoChar(Word(name, fmt), ' ')
  {
    var w := Word(name, fmt);
    forall i | 0 <= i < |w|
      ensures w[i] != ' '
    {
      if i < |name| {
        assert w[i] == name[i];
      } else if i > |name| {
        assert w[i] == fmt[i - |name| - 1];
      }
    }
  }

  /** Splitting a descriptor at its spaces gives the name and then one
      `name=fmt` word per argument, in order, provided no name contains a space. */
  lemma {:induction false} DescriptorWords(name: string, args: seq<DescArg>)
    requires NoChar(name, ' ')
    requires forall i :: 0 <= i < |args| ==> NoChar(args[i].name, ' ') && TypeFormat(args[i].ty).Some?
    ensures Descriptor(name, args).Ok?
    ensures Words(Descriptor(name, args).value) == [name] + FieldWords(args)
    decreases |args|
  {
    DescriptorOkIff(name, args);
    if args == [] {
      assert LastSpace(name) == None;
      assert name + "" == name;
    } else {
      var init := args[..|args| - 1];
      var last := args[|args| - 1];
      assert forall i :: 0 <= i < |init| ==> init[i] == args[i];
      DescriptorWords(name, init);
      var d := Descriptor(name, init).value;
      var w := FieldWord(last);
      DescriptorStep(name, args);
      FormatNoSpace(last.ty);
      WordNoSpace(last.name, TypeFormat(last.ty).value);
      WordsAppend(d, w);
      assert FieldWords(args) == FieldWords(init) + [w];
      Assoc([name], FieldWords(init), [w]);
    }
  }
}
