/** The build step's `Processor`: the message table filled by the visitors, the
    data dictionary it becomes, and the passes `build` runs over both. A panic
    of the build script is an `Err(Panic(..))`; a `syn` error, which the code
    returns rather than panics on, is an `Err(Parse(..))`. */
module Processing {
  import opened Types
  import opened Syn
  import opened MessageMap
  import MsgDesc
  import Commands
  import Replies
  import OutputFormat
  import StaticStrings
  import Enumerations
  import StringTracker
  import IdAssign
  import Generated
  import Utils

  datatype Failure = Parse(e: ParseError) | Panic(msg: string)

  type DictEnum = map<string, Enumerations.DictItem>

  const STATIC_STRING_ENUM: string := "static_string_id"

  function MessageClash(name: string): string
  {
    "A command named " + name + " already exists"
  }

  function EnumClash(name: string): string
  {
    "An enumeration named " + name + " already exists"
  }

  // ---------------------------------------------------------------------------
  // `add_message` and `add_identify` on the table

  /** `add_message`: a name already holding a different message panics; an equal
      message is stored again, which changes nothing. */
  function AddMessageTo(t: Table, name: string, m: Message): (r: Result<Table, string>)
    requires Sorted(t)
    ensures r.Err? <==> Get(t, name).Some? && Get(t, name).value != m
    ensures r.Err? ==> r.error == MessageClash(name)
    ensures r.Ok? ==> Sorted(r.value) && Keys(r.value) == Keys(t) + {name}
    ensures r.Ok? ==> forall q :: Get(r.value, q) == if q == name then Some(m) else Get(t, q)
    ensures Get(t, name) == Some(m) ==> r == Ok(t)
  {
    var current := Get(t, name);
    if current.Some? && current.value != m then Err(MessageClash(name))
    else
      assert forall q :: Get(Put(t, name, m), q) == if q == name then Some(m) else Get(t, q) by {
        forall q
          ensures Get(Put(t, name, m), q) == if q == name then Some(m) else Get(t, q)
        {
          GetPut(t, name, m, q);
        }
      }
      if current.Some? then PutPresent(t, name, m); Ok(t)
      else Ok(Put(t, name, m))
  }

  function IdentifyResponse(): Message
  {
    MReply(Replies.Reply("identify_response", Some(0),
      [Replies.ReplyArg("offset", "u32", None), Replies.ReplyArg("data", "& [u8]", None)]))
  }

  function Identify(): Message
  {
    MCommand(Commands.Command("identify", Some(1), "handle_identify", None, false,
      [Commands.Arg("offset", "u32"), Commands.Arg("count", "u32")]))
  }

  lemma UnionTwo(k: set<string>, a: string, b: string)
    ensures k + {a} + {b} == k + {a, b}
  {
  }

  /** What `add_identify` leaves under a name: the fixed message for its two
      names, and what was there before for every other. */
  function IdentifyEntry(t: Table, q: string): Option<Message>
  {
    if q == "identify" then Some(Identify())
    else if q == "identify_response" then Some(IdentifyResponse())
    else Get(t, q)
  }

  /** `add_identify`: the two fixed messages of the protocol. */
  function AddIdentifyTo(t: Table): Result<Table, string>
    requires Sorted(t)
  {
    var t1 :- AddMessageTo(t, "identify_response", IdentifyResponse());
    AddMessageTo(t1, "identify", Identify())
  }

  /** `add_identify` panics exactly when either name already holds a different
      message. */
  lemma AddIdentifyFails(t: Table)
    requires Sorted(t)
    ensures AddIdentifyTo(t).Err? <==>
      || (Get(t, "identify_response").Some? && Get(t, "identify_response").value != IdentifyResponse())
      || (Get(t, "identify").Some? && Get(t, "identify").value != Identify())
  {
    var r1 := AddMessageTo(t, "identify_response", IdentifyResponse());
    if r1.Ok? {
      assert Get(r1.value, "identify") == Get(t, "identify");
    }
  }

  /** Otherwise both names hold their fixed messages and every other entry is
      unchanged. */
  lemma AddIdentifyEntries(t: Table)
    requires Sorted(t)
    ensures AddIdentifyTo(t).Ok? ==> var r := AddIdentifyTo(t).value;
      && Sorted(r) && Keys(r) == Keys(t) + {"identify_response", "identify"}
      && forall q :: Get(r, q) == IdentifyEntry(t, q)
  {
    var r1 := AddMessageTo(t, "identify_response", IdentifyResponse());
    if r1.Ok? {
      var t1 := r1.value;
      var r := AddMessageTo(t1, "identify", Identify());
      assert AddIdentifyTo(t) == r;
      if r.Ok? {
        UnionTwo(Keys(t), "identify_response", "identify");
        assert |"identify"| != |"identify_response"|;
        forall q ensures Get(r.value, q) == IdentifyEntry(t, q) {
          assert Get(t1, q) == if q == "identify_response" then Some(IdentifyResponse()) else Get(t, q);
          assert Get(r.value, q) == if q == "identify" then Some(Identify()) else Get(t1, q);
        }
      }
    }
  }

  lemma {:induction false} PrefixFirst(a: string, b: string)
    requires b != []
    ensures StrLess(a, a + b)
    decreases |a|
  {
    if a != [] {
      assert (a + b)[1..] == a[1..] + b;
      PrefixFirst(a[1..], b);
    }
  }

  lemma AddIdentifyResponseOnEmpty()
    ensures AddMessageTo([], "identify_response", IdentifyResponse()) == Ok([("identify_response", IdentifyResponse())])
  {
    assert Put([], "identify_response", IdentifyResponse()) == [("identify_response", IdentifyResponse())];
  }

  /** Adding a name that sorts before the one key of a table puts it first. */
  lemma AddBeforeSingle(k: string, x: Message, name: string, m: Message)
    requires StrLess(name, k)
    ensures AddMessageTo([(k, x)], name, m) == Ok([(name, m), (k, x)])
  {
    StrLessIrreflexive(name);
    assert name != k;
    assert Get([(k, x)], name) == None;
    assert Put([(k, x)], name, m) == [(name, m)] + [(k, x)] == [(name, m), (k, x)];
    assert AddMessageTo([(k, x)], name, m) == Ok(Put([(k, x)], name, m));
  }

  lemma AddIdentifyAfterResponse()
    ensures AddMessageTo([("identify_response", IdentifyResponse())], "identify", Identify())
      == Ok([("identify", Identify()), ("identify_response", IdentifyResponse())])
  {
    assert "identify_response" == "identify" + "_response";
    PrefixFirst("identify", "_response");
    AddBeforeSingle("identify_response", IdentifyResponse(), "identify", Identify());
  }

  lemma IdentifyIds()
    ensures Identify().Id() == Some(1) && IdentifyResponse().Id() == Some(0)
  {
  }

  /** On the empty table `build` starts from, `add_identify` cannot panic: it
      leaves `identify` first in name order with id 1, and `identify_response`
      with id 0. */
  lemma AddIdentifyOnEmpty()
    ensures AddIdentifyTo([]) == Ok([("identify", Identify()), ("identify_response", IdentifyResponse())])
    ensures Identify().Id() == Some(1) && IdentifyResponse().Id() == Some(0)
  {
    AddIdentifyResponseOnEmpty();
    AddIdentifyAfterResponse();
    IdentifyIds();
  }

  /** A reply declared twice with different argument values is accepted: both
      declarations are stored with their values cleared, and so are equal. */
  lemma RepliesDifferingInValues(t: Table, a: Replies.Reply, b: Replies.Reply)
    requires Sorted(t) && a.name !in Keys(t)
    requires a.name == b.name && a.id == b.id && |a.args| == |b.args|
    requires forall i :: 0 <= i < |a.args| ==> a.args[i].name == b.args[i].name && a.args[i].ty == b.args[i].ty
    ensures var ca := MReply(a.(args := Replies.Cleared(a.args)));
      var cb := MReply(b.(args := Replies.Cleared(b.args)));
      && AddMessageTo(t, a.name, ca).Ok?
      && AddMessageTo(AddMessageTo(t, a.name, ca).value, b.name, cb) == AddMessageTo(t, a.name, ca)
  {
    Replies.ClearedForgetsValues(a, b);
  }

  // ---------------------------------------------------------------------------
  // The skip step of `build`

  /** The table after `messages.remove(&cmd)` for each skipped name in turn. */
  function Skipped(t: Table, skip: seq<string>): (r: Table)
    requires Sorted(t)
    ensures Sorted(r)
    decreases |skip|
  {
    if skip == [] then t else Remove(Skipped(t, skip[..|skip| - 1]), skip[|skip| - 1])
  }

  /** A skipped name is gone, whatever kind of message it named; every other
      entry stays. */
  lemma {:induction false} GetSkipped(t: Table, skip: seq<string>, q: string)
    requires Sorted(t)
    ensures Get(Skipped(t, skip), q) == if q in skip then None else Get(t, q)
    decreases |skip|
  {
    if skip != [] {
      var init := skip[..|skip| - 1];
      var last := skip[|skip| - 1];
      var before := Skipped(t, init);
      assert Skipped(t, skip) == Remove(before, last);
      GetSkipped(t, init, q);
      GetRemove(before, last, q);
      InSnoc(skip, q);
    }
  }

  /** Membership in a non-empty list: in its front part or its last element. */
  lemma InSnoc(s: seq<string>, q: string)
    requires s != []
    ensures q in s <==> q in s[..|s| - 1] || q == s[|s| - 1]
  {
    if q in s {
      var i :| 0 <= i < |s| && s[i] == q;
      if i < |s| - 1 {
        assert s[..|s| - 1][i] == q;
      }
    }
    if q in s[..|s| - 1] {
      var i :| 0 <= i < |s| - 1 && s[..|s| - 1][i] == q;
      assert s[i] == q;
    }
  }

  // ---------------------------------------------------------------------------
  // `finalize_dictionary`

  datatype Tables = Tables(commands: map<string, u8>, responses: map<string, u8>, output: map<string, u8>)

  /** The dictionary entry one message adds: a command or reply under its
      descriptor, an output under its format, each mapped to its id. */
  function Entry(tabs: Tables, m: Message): Result<Tables, string>
    requires m.Id().Some?
  {
    var id := m.Id().value;
    match m
    case MCommand(c) =>
      var d :- Commands.GetDescString(c);
      Ok(tabs.(commands := tabs.commands[d := id]))
    case MReply(rep) =>
      var d :- Replies.GetDescString(rep);
      Ok(tabs.(responses := tabs.responses[d := id]))
    case MOutput(o) =>
      Ok(tabs.(output := tabs.output[o.format := id]))
  }

  /** The first loop of `finalize_dictionary`, over the messages in name order. */
  function FinalTables(base: Tables, t: Table): Result<Tables, string>
    requires Generated.AllAssigned(t)
    decreases |t|
  {
    if t == [] then Ok(base)
    else
      var init := t[..|t| - 1];
      assert forall i :: 0 <= i < |init| ==> init[i] == t[i];
      var tabs :- FinalTables(base, init);
      Entry(tabs, t[|t| - 1].1)
  }

  /** One more message of the first loop: its entry goes into the tables built so far. */
  lemma FinalTablesStep(base: Tables, t: Table, i: nat, tabs: Tables)
    requires Generated.AllAssigned(t) && i < |t|
    requires Generated.AllAssigned(t[..i]) && FinalTables(base, t[..i]) == Ok(tabs)
    ensures Generated.AllAssigned(t[..i + 1])
    ensures FinalTables(base, t[..i + 1]) == Entry(tabs, t[i].1)
  {
    assert t[..i + 1][..i] == t[..i];
  }

  /** The second loop of `finalize_dictionary`: every tracked string with its id. */
  method StaticStringEnumLoop(strings: map<string, int>) returns (e: DictEnum)
    ensures e == StaticStringEnum(strings)
  {
    var rest := strings.Keys;
    e := map[];
    while rest != {}
      invariant rest <= strings.Keys
      invariant e.Keys == strings.Keys - rest
      invariant forall s :: s in e ==> e[s] == Enumerations.Number(strings[s])
      decreases rest
    {
      var s :| s in rest;
      e := e[s := Enumerations.Number(strings[s])];
      rest := rest - {s};
    }
  }

  /** A command or reply whose descriptor cannot be built. */
  predicate DescFails(m: Message)
  {
    (m.MCommand? && Commands.GetDescString(m.c).Err?) || (m.MReply? && Replies.GetDescString(m.r).Err?)
  }

  /** The loop panics exactly when some command or reply has an argument type
      without a Klipper format. */
  lemma {:induction false} FinalTablesFails(base: Tables, t: Table)
    requires Generated.AllAssigned(t)
    ensures FinalTables(base, t).Err? <==> exists i :: 0 <= i < |t| && DescFails(t[i].1)
    decreases |t|
  {
    if t != [] {
      var init := t[..|t| - 1];
      assert forall i :: 0 <= i < |init| ==> init[i] == t[i];
      FinalTablesFails(base, init);
      AnyDescFailsSnoc(t);
      if FinalTables(base, init).Ok? {
        EntryFails(FinalTables(base, init).value, t[|t| - 1].1);
      }
    }
  }

  /** A single entry fails exactly when its descriptor cannot be built. */
  lemma EntryFails(tabs: Tables, m: Message)
    requires m.Id().Some?
    ensures Entry(tabs, m).Err? <==> DescFails(m)
  {
  }

  predicate AnyDescFails(t: Table)
  {
    exists i :: 0 <= i < |t| && DescFails(t[i].1)
  }

  lemma AnyDescFailsSnoc(t: Table)
    requires t != []
    ensures AnyDescFails(t) <==> AnyDescFails(t[..|t| - 1]) || DescFails(t[|t| - 1].1)
  {
    var init := t[..|t| - 1];
    assert forall i :: 0 <= i < |init| ==> init[i] == t[i];
    if exists i :: 0 <= i < |t| && DescFails(t[i].1) {
      var i :| 0 <= i < |t| && DescFails(t[i].1);
      if i < |init| {
        assert DescFails(init[i].1);
      }
    }
  }

  /** Once the loop has panicked on a prefix, the whole loop panics the same way. */
  lemma {:induction false} FinalTablesErrPersists(base: Tables, t: Table, k: nat)
    requires Generated.AllAssigned(t) && k <= |t|
    requires Generated.AllAssigned(t[..k]) && FinalTables(base, t[..k]).Err?
    ensures FinalTables(base, t) == FinalTables(base, t[..k])
    decreases |t| - k
  {
    if k < |t| {
      assert t[..k + 1][..k] == t[..k];
      assert Generated.AllAssigned(t[..k + 1]);
      FinalTablesErrPersists(base, t, k + 1);
    } else {
      assert t[..k] == t;
    }
  }

  /** The key a message is stored under by the `process_*` functions. */
  function KeyOf(m: Message): string
  {
    match m
    case MCommand(c) => c.name
    case MReply(r) => r.name
    case MOutput(o) => o.format
  }

  /** Every message sits under its own key, and command and reply names have no
      space, as identifiers do not. */
  ghost predicate KeyedByName(t: Table)
  {
    forall q :: Get(t, q).Some? ==>
      KeyOf(Get(t, q).value) == q && (Get(t, q).value.MOutput? || MsgDesc.NoChar(q, ' '))
  }

  /** Whether the tables list a message under its key with its id. */
  predicate Listed(tabs: Tables, m: Message)
    requires m.Id().Some?
  {
    match m
    case MCommand(c) =>
      Commands.GetDescString(c).Ok? && Commands.GetDescString(c).value in tabs.commands
      && tabs.commands[Commands.GetDescString(c).value] == c.id.value
    case MReply(r) =>
      Replies.GetDescString(r).Ok? && Replies.GetDescString(r).value in tabs.responses
      && tabs.responses[Replies.GetDescString(r).value] == r.id.value
    case MOutput(o) =>
      o.format in tabs.output && tabs.output[o.format] == o.id.value
  }

  /** A descriptor, when it exists, is the name followed by nothing or by a space. */
  lemma {:induction false} FieldsStartWithSpace(args: seq<MsgDesc.DescArg>)
    requires MsgDesc.Fields(args).Ok?
    ensures MsgDesc.Fields(args).value == [] || MsgDesc.Fields(args).value[0] == ' '
    decreases |args|
  {
    if args != [] {
      FieldsStartWithSpace(args[..|args| - 1]);
    }
  }

  lemma DescriptorsDistinctOrdered(n1: string, a1: seq<MsgDesc.DescArg>, n2: string, a2: seq<MsgDesc.DescArg>)
    requires MsgDesc.NoChar(n2, ' ') && n1 != n2 && |n1| <= |n2|
    requires MsgDesc.Descriptor(n1, a1).Ok? && MsgDesc.Descriptor(n2, a2).Ok?
    ensures MsgDesc.Descriptor(n1, a1).value != MsgDesc.Descriptor(n2, a2).value
  {
    var f1 := MsgDesc.Fields(a1).value;
    var d1 := n1 + f1;
    var d2 := n2 + MsgDesc.Fields(a2).value;
    if |n1| == |n2| {
      var k :| 0 <= k < |n1| && n1[k] != n2[k];
      assert d1[k] == n1[k] && d2[k] == n2[k];
    } else if |d1| == |d2| {
      FieldsStartWithSpace(a1);
      assert d1[|n1|] == f1[0] == ' ';
      assert d2[|n1|] == n2[|n1|] != ' ';
    }
  }

  /** Messages with different names that have no space get different descriptors,
      so no dictionary entry overwrites another. */
  lemma DescriptorsDistinct(n1: string, a1: seq<MsgDesc.DescArg>, n2: string, a2: seq<MsgDesc.DescArg>)
    requires MsgDesc.NoChar(n1, ' ') && MsgDesc.NoChar(n2, ' ') && n1 != n2
    requires MsgDesc.Descriptor(n1, a1).Ok? && MsgDesc.Descriptor(n2, a2).Ok?
    ensures MsgDesc.Descriptor(n1, a1).value != MsgDesc.Descriptor(n2, a2).value
  {
    if |n1| <= |n2| {
      DescriptorsDistinctOrdered(n1, a1, n2, a2);
    } else {
      DescriptorsDistinctOrdered(n2, a2, n1, a1);
    }
  }

  /** Keys of an index-wise view: in a sorted table keyed by name, distinct
      positions hold messages of distinct keys. */
  lemma KeysAt(t: Table, i: nat, j: nat)
    requires Sorted(t) && KeyedByName(t) && i < j < |t|
    ensures KeyOf(t[i].1) == t[i].0 && KeyOf(t[j].1) == t[j].0 && t[i].0 != t[j].0
    ensures t[i].1.MOutput? || MsgDesc.NoChar(t[i].0, ' ')
    ensures t[j].1.MOutput? || MsgDesc.NoChar(t[j].0, ' ')
  {
    GetAt(t, i);
    GetAt(t, j);
    StrLessIrreflexive(t[i].0);
  }

  /** Adding one message keeps the entry another message of a different key
      already has. */
  lemma EntryKeeps(tabs: Tables, m: Message, n: Message)
    requires m.Id().Some? && n.Id().Some? && Listed(tabs, n) && Entry(tabs, m).Ok?
    requires KeyOf(m) != KeyOf(n)
    requires m.MOutput? || MsgDesc.NoChar(KeyOf(m), ' ')
    requires n.MOutput? || MsgDesc.NoChar(KeyOf(n), ' ')
    ensures Listed(Entry(tabs, m).value, n)
  {
    if m.MCommand? && n.MCommand? {
      DescriptorsDistinct(m.c.name, Commands.DescArgs(m.c.args), n.c.name, Commands.DescArgs(n.c.args));
    } else if m.MReply? && n.MReply? {
      DescriptorsDistinct(m.r.name, Replies.DescArgs(m.r.args), n.r.name, Replies.DescArgs(n.r.args));
    }
  }

  predicate PrefixKeyed(t: Table, n: nat)
    requires n <= |t|
  {
    forall i, j :: 0 <= i < j < n ==> t[i].0 != t[j].0
  }

  /** Every message of a table keyed by name ends up listed under its id. */
  lemma {:induction false} FinalTablesListAll(base: Tables, t: Table)
    requires Generated.AllAssigned(t) && FinalTables(base, t).Ok?
    requires forall i :: 0 <= i < |t| ==> KeyOf(t[i].1) == t[i].0 && (t[i].1.MOutput? || MsgDesc.NoChar(t[i].0, ' '))
    requires PrefixKeyed(t, |t|)
    ensures forall i :: 0 <= i < |t| ==> Listed(FinalTables(base, t).value, t[i].1)
    decreases |t|
  {
    if t != [] {
      var init := t[..|t| - 1];
      var last := t[|t| - 1].1;
      assert forall i :: 0 <= i < |init| ==> init[i] == t[i];
      FinalTablesListAll(base, init);
      var tabs := FinalTables(base, init).value;
      forall i | 0 <= i < |t|
        ensures Listed(FinalTables(base, t).value, t[i].1)
      {
        if i < |init| {
          EntryKeeps(tabs, last, t[i].1);
        }
      }
    }
  }

  /** Every dictionary entry comes from the base or from a message. */
  lemma {:induction false} FinalTablesOnlyMessages(base: Tables, t: Table)
    requires Generated.AllAssigned(t) && FinalTables(base, t).Ok?
    ensures var tabs := FinalTables(base, t).value;
      && (forall d :: d in tabs.commands ==> d in base.commands || exists i :: 0 <= i < |t| && t[i].1.MCommand? && Commands.GetDescString(t[i].1.c) == Ok(d))
      && (forall d :: d in tabs.responses ==> d in base.responses || exists i :: 0 <= i < |t| && t[i].1.MReply? && Replies.GetDescString(t[i].1.r) == Ok(d))
      && (forall f :: f in tabs.output ==> f in base.output || exists i :: 0 <= i < |t| && t[i].1.MOutput? && t[i].1.o.format == f)
    decreases |t|
  {
    if t != [] {
      var init := t[..|t| - 1];
      assert forall i :: 0 <= i < |init| ==> init[i] == t[i];
      FinalTablesOnlyMessages(base, init);
    }
  }

  /** What `finalize_dictionary` promises of a well-keyed table starting from an
      empty dictionary: each command, reply and output is listed with its id, and
      nothing else is. */
  lemma FinalTablesSpec(t: Table)
    requires Sorted(t) && KeyedByName(t) && Generated.AllAssigned(t)
    requires FinalTables(Tables(map[], map[], map[]), t).Ok?
    ensures var tabs := FinalTables(Tables(map[], map[], map[]), t).value;
      && (forall i :: 0 <= i < |t| ==> Listed(tabs, t[i].1))
      && (forall d :: d in tabs.commands ==> exists i :: 0 <= i < |t| && t[i].1.MCommand? && Commands.GetDescString(t[i].1.c) == Ok(d))
      && (forall d :: d in tabs.responses ==> exists i :: 0 <= i < |t| && t[i].1.MReply? && Replies.GetDescString(t[i].1.r) == Ok(d))
      && (forall f :: f in tabs.output ==> exists i :: 0 <= i < |t| && t[i].1.MOutput? && t[i].1.o.format == f)
  {
    forall i | 0 <= i < |t|
      ensures KeyOf(t[i].1) == t[i].0 && (t[i].1.MOutput? || MsgDesc.NoChar(t[i].0, ' '))
    {
      GetAt(t, i);
    }
    forall i, j | 0 <= i < j < |t|
      ensures t[i].0 != t[j].0
    {
      KeysAt(t, i, j);
    }
    FinalTablesListAll(Tables(map[], map[], map[]), t);
    FinalTablesOnlyMessages(Tables(map[], map[], map[]), t);
  }

  /** The `static_string_id` enumeration: each tracked string under its id. */
  function StaticStringEnum(strings: map<string, int>): (r: DictEnum)
    ensures r.Keys == strings.Keys
    ensures forall s :: s in r ==> r[s] == Enumerations.Number(strings[s])
  {
    map s | s in strings :: Enumerations.Number(strings[s])
  }

  /** `add_enum` as a check: an enumeration may not share its name with a message.
      A second enumeration of the same name is not refused. */
  function AddEnumTo(t: Table, enums: map<string, DictEnum>, name: string, d: DictEnum): (r: Result<map<string, DictEnum>, string>)
    ensures r.Err? <==> name in Keys(t)
    ensures r.Err? ==> r.error == EnumClash(name)
    ensures r.Ok? ==>
      && r.value.Keys == enums.Keys + {name} && r.value[name] == d
      && forall q :: q in enums && q != name ==> r.value[q] == enums[q]
  {
    if Get(t, name).Some? then Err(EnumClash(name)) else Ok(enums[name := d])
  }

  // ---------------------------------------------------------------------------
  // `assign_command_ids` as a loop

  /** The `assign_id` closure: the `while used_ids.contains(&id)` scan from the
      counter, with its overflow panics. */
  method NextFreeId(used: set<u8>, next: u8) returns (r: Result<u8, string>)
    ensures r == IdAssign.AssignOne(used, next)
  {
    if next == 255 {
      return Err(IdAssign.TOO_MANY);
    }
    var id: u8 := next;
    while id in used
      invariant next <= id
      invariant IdAssign.FreeFrom(used, id) == IdAssign.FreeFrom(used, next)
      decreases U8_LIMIT - id
    {
      if id == 255 {
        return Err(IdAssign.ADD_OVERFLOW);
      }
      id := id + 1;
    }
    if id == 255 {
      return Err(IdAssign.ADD_OVERFLOW);
    }
    r := Ok(id);
  }

  /** A result with `pre` in front of its table. */
  function Prefixed(pre: Table, r: Result<Table, string>): Result<Table, string>
  {
    match r
    case Ok(v) => Ok(pre + v)
    case Err(e) => Err(e)
  }

  lemma AssignLoopEntry(t: Table, used: set<u8>)
    requires used == IdAssign.UsedIds(t)
    ensures AssignLoopInv(t, t, 0, used, 0)
  {
    assert t[..0] == [] && t[0..] == t;
    PrefixedNil(IdAssign.AssignFrom(t, used, 0));
  }

  /** One step of the second loop of `assign_command_ids`, on the message at `i`
      after the messages `pre` before it. */
  lemma AssignStepKept(t: Table, pre: Table, i: nat, used: set<u8>, next: u8)
    requires i < |t| && t[i].1.Id().Some?
    requires IdAssign.AssignIds(t) == Prefixed(pre, IdAssign.AssignFrom(t[i..], used, next))
    ensures IdAssign.AssignIds(t) == Prefixed(pre + [t[i]], IdAssign.AssignFrom(t[i + 1..], used, next))
  {
    assert t[i..][0] == t[i] && t[i..][1..] == t[i + 1..];
    PrefixedAssoc(pre, t[i], IdAssign.AssignFrom(t[i + 1..], used, next));
  }

  lemma AssignStepFresh(t: Table, pre: Table, i: nat, used: set<u8>, next: u8)
    requires i < |t| && t[i].1.Id().None? && IdAssign.AssignOne(used, next).Ok?
    requires IdAssign.AssignIds(t) == Prefixed(pre, IdAssign.AssignFrom(t[i..], used, next))
    ensures var id := IdAssign.AssignOne(used, next).value;
      IdAssign.AssignIds(t)
        == Prefixed(pre + [(t[i].0, t[i].1.WithId(Some(id)))], IdAssign.AssignFrom(t[i + 1..], used + {id}, id + 1))
  {
    var id := IdAssign.AssignOne(used, next).value;
    assert t[i..][0] == t[i] && t[i..][1..] == t[i + 1..];
    AssignFreshHead(t[i..], used, next);
    PrefixedAssoc(pre, (t[i].0, t[i].1.WithId(Some(id))), IdAssign.AssignFrom(t[i + 1..], used + {id}, id + 1));
  }

  /** The pass on a table whose first message needs an id. */
  lemma AssignFreshHead(s: Table, used: set<u8>, next: u8)
    requires s != [] && s[0].1.Id().None? && IdAssign.AssignOne(used, next).Ok?
    ensures var id := IdAssign.AssignOne(used, next).value;
      IdAssign.AssignFrom(s, used, next)
        == Prefixed([(s[0].0, s[0].1.WithId(Some(id)))], IdAssign.AssignFrom(s[1..], used + {id}, id + 1))
  {
  }

  lemma AssignStepFails(t: Table, pre: Table, i: nat, used: set<u8>, next: u8)
    requires i < |t| && t[i].1.Id().None? && IdAssign.AssignOne(used, next).Err?
    requires IdAssign.AssignIds(t) == Prefixed(pre, IdAssign.AssignFrom(t[i..], used, next))
    ensures IdAssign.AssignIds(t) == Err(IdAssign.AssignOne(used, next).error)
  {
    assert t[i..][0] == t[i];
  }

  lemma PrefixedNil(r: Result<Table, string>)
    ensures Prefixed([], r) == r
  {
    if r.Ok? {
      assert [] + r.value == r.value;
    }
  }

  lemma PrefixedAssoc(a: Table, x: (string, Message), r: Result<Table, string>)
    ensures Prefixed(a, Prefixed([x], r)) == Prefixed(a + [x], r)
  {
    if r.Ok? {
      assert a + ([x] + r.value) == (a + [x]) + r.value;
    }
  }

  /** The second loop of `assign_command_ids`, over the messages in name order:
      each message without an id gets the next free one. */
  method AssignLoop(m0: Table, used0: set<u8>) returns (r: Result<Table, string>)
    requires used0 == IdAssign.UsedIds(m0)
    ensures r == IdAssign.AssignIds(m0)
  {
    var ms := m0;
    var used := used0;
    var next: u8 := 0;
    var i := 0;
    AssignLoopEntry(m0, used);
    while i < |ms|
      invariant AssignLoopInv(m0, ms, i, used, next)
      decreases |ms| - i
    {
      var x := ms[i];
      if x.1.Id().Some? {
        AssignLoopKept(m0, ms, i, used, next);
      } else {
        var a := NextFreeId(used, next);
        if a.Err? {
          AssignLoopFails(m0, ms, i, used, next);
          return Err(a.error);
        }
        AssignLoopFresh(m0, ms, i, used, next);
        ms := ms[i := (x.0, x.1.WithId(Some(a.value)))];
        used := used + {a.value};
        next := a.value + 1;
      }
      i := i + 1;
    }
    AssignLoopExit(m0, ms, used, next);
    r := Ok(ms);
  }

  /** The loop invariant of `AssignLoop`: the first `i` entries of `ms` are
      done, the rest are still the input's, and finishing the pass from here
      gives the whole pass's result. */
  ghost predicate AssignLoopInv(m0: Table, ms: Table, i: int, used: set<u8>, next: u8)
  {
    0 <= i <= |ms| == |m0|
    && ms[i..] == m0[i..]
    && IdAssign.AssignIds(m0) == Prefixed(ms[..i], IdAssign.AssignFrom(m0[i..], used, next))
  }

  lemma AssignLoopKept(m0: Table, ms: Table, i: int, used: set<u8>, next: u8)
    requires AssignLoopInv(m0, ms, i, used, next) && i < |ms| && ms[i].1.Id().Some?
    ensures AssignLoopInv(m0, ms, i + 1, used, next)
  {
    SlicesAgree(m0, ms, i);
    AssignStepKept(m0, ms[..i], i, used, next);
  }

  /** Two tables that agree from `i` on agree at `i` and from `i + 1` on, and the
      first `i + 1` entries of the second are its first `i` and entry `i`. */
  lemma SlicesAgree(m0: Table, ms: Table, i: int)
    requires 0 <= i < |ms| == |m0| && ms[i..] == m0[i..]
    ensures ms[i] == m0[i] && ms[i + 1..] == m0[i + 1..]
    ensures ms[..i + 1] == ms[..i] + [ms[i]]
  {
    assert ms[i] == ms[i..][0] == m0[i];
    assert ms[i + 1..] == ms[i..][1..];
    assert m0[i + 1..] == m0[i..][1..];
  }

  lemma AssignLoopFresh(m0: Table, ms: Table, i: int, used: set<u8>, next: u8)
    requires AssignLoopInv(m0, ms, i, used, next) && i < |ms| && ms[i].1.Id().None?
    requires IdAssign.AssignOne(used, next).Ok?
    ensures var id := IdAssign.AssignOne(used, next).value;
      AssignLoopInv(m0, ms[i := (ms[i].0, ms[i].1.WithId(Some(id)))], i + 1, used + {id}, id + 1)
  {
    var id := IdAssign.AssignOne(used, next).value;
    var y := (ms[i].0, ms[i].1.WithId(Some(id)));
    assert ms[i] == ms[i..][0] == m0[i];
    AssignStepFresh(m0, ms[..i], i, used, next);
    UpdateSlices(ms, i, y);
    assert ms[i + 1..] == ms[i..][1..];
  }

  lemma AssignLoopFails(m0: Table, ms: Table, i: int, used: set<u8>, next: u8)
    requires AssignLoopInv(m0, ms, i, used, next) && i < |ms| && ms[i].1.Id().None?
    requires IdAssign.AssignOne(used, next).Err?
    ensures IdAssign.AssignIds(m0) == Err(IdAssign.AssignOne(used, next).error)
  {
    assert ms[i] == ms[i..][0] == m0[i];
    AssignStepFails(m0, ms[..i], i, used, next);
  }

  lemma AssignLoopExit(m0: Table, ms: Table, used: set<u8>, next: u8)
    requires AssignLoopInv(m0, ms, |ms|, used, next)
    ensures IdAssign.AssignIds(m0) == Ok(ms)
  {
    assert ms[..|ms|] == ms && m0[|ms|..] == [];
    assert IdAssign.AssignFrom(m0[|ms|..], used, next) == Ok([]);
    assert ms + [] == ms;
  }

  /** Overwriting entry `i` leaves the entries before and after it alone. */
  lemma UpdateSlices(s: Table, i: nat, y: (string, Message))
    requires i < |s|
    ensures s[i := y][..i + 1] == s[..i] + [y]
    ensures s[i := y][i + 1..] == s[i + 1..]
  {
    assert s[i := y][..i] == s[..i];
  }

  /** A table with the same names in the same order as a sorted one is sorted. */
  lemma SortedSameNames(t: Table, u: Table)
    requires Sorted(t) && IdAssign.SameShape(t, u)
    ensures Sorted(u)
  {
    forall i, j | 0 <= i < j < |u|
      ensures StrLess(u[i].0, u[j].0)
    {
      assert u[i].0 == t[i].0 && u[j].0 == t[j].0;
    }
  }

  // ---------------------------------------------------------------------------
  // The processor

  class Processor {
    var messages: Table
    var enumerations: map<string, DictEnum>
    var commands: map<string, u8>
    var responses: map<string, u8>
    var output: map<string, u8>
    const staticStrings: StringTracker.StaticStringsTracker

    ghost predicate Valid()
      reads this, staticStrings
    {
      Sorted(messages) && staticStrings.Valid()
    }

    /** The processor `build` creates: no messages, an empty dictionary and a new
        static-string tracker. */
    constructor()
      ensures Valid() && fresh(staticStrings)
      ensures messages == [] && enumerations == map[] && commands == map[] && responses == map[] && output == map[]
      ensures staticStrings.calls == [] && staticStrings.strings == map[]
    {
      messages := [];
      enumerations := map[];
      commands := map[];
      responses := map[];
      output := map[];
      staticStrings := new StringTracker.StaticStringsTracker();
    }

    /** `add_message`. */
    method AddMessage(name: string, m: Message) returns (r: Result<(), Failure>)
      requires Valid()
      modifies this`messages
      ensures Valid()
      ensures r.Err? <==> AddMessageTo(old(messages), name, m).Err?
      ensures r.Err? ==> r.error == Panic(MessageClash(name))
      ensures r.Ok? ==> messages == AddMessageTo(old(messages), name, m).value
    {
      var current := Get(messages, name);
      if current.Some? && current.value != m {
        return Err(Panic(MessageClash(name)));
      }
      messages := Put(messages, name, m);
      if current.Some? {
        PutPresent(old(messages), name, m);
      }
      r := Ok(());
    }

    /** `add_enum`. */
    method AddEnum(name: string, d: DictEnum) returns (r: Result<(), Failure>)
      requires Valid()
      modifies this`enumerations
      ensures Valid()
      ensures r.Err? <==> AddEnumTo(messages, old(enumerations), name, d).Err?
      ensures r.Err? ==> r.error == Panic(EnumClash(name))
      ensures r.Ok? ==> enumerations == AddEnumTo(messages, old(enumerations), name, d).value
    {
      if Get(messages, name).Some? {
        return Err(Panic(EnumClash(name)));
      }
      enumerations := enumerations[name := d];
      r := Ok(());
    }

    /** `add_identify`. */
    method AddIdentify() returns (r: Result<(), Failure>)
      requires Valid()
      modifies this`messages
      ensures Valid()
      ensures r.Ok? <==> AddIdentifyTo(old(messages)).Ok?
      ensures r.Ok? ==> messages == AddIdentifyTo(old(messages)).value
    {
      r := AddMessage("identify_response", IdentifyResponse());
      if r.Err? {
        return;
      }
      r := AddMessage("identify", Identify());
    }

    /** `process_enumeration`, on the parsed enumeration. */
    method ProcessEnumeration(e: Enumerations.Enumeration) returns (r: Result<(), Failure>)
      requires Valid()
      modifies this`enumerations
      ensures Valid()
      ensures var name := Enumerations.DictionaryName(e);
        var d := Enumerations.DictionaryOf(Enumerations.NumberVariants(e.variants), e.opts.renameAll);
        && (r.Err? <==> AddEnumTo(messages, old(enumerations), name, d).Err?)
        && (r.Ok? ==> enumerations == AddEnumTo(messages, old(enumerations), name, d).value)
    {
      var d := Enumerations.ToDictionary(e);
      r := AddEnum(Enumerations.DictionaryName(e), d);
    }

    /** `process_static_string`. */
    method ProcessStaticString(ts: seq<Token>) returns (r: Result<(), Failure>)
      requires Valid()
      modifies staticStrings
      ensures var p := StaticStrings.ParseStaticString(ts);
        && (p.Err? ==> r == Err(Parse(p.error)) && staticStrings.calls == old(staticStrings.calls))
        && (p.Ok? ==> staticStrings.calls == old(staticStrings.calls) + [p.value])
      ensures !(r.Err? && r.error.Panic?) ==> Valid()
    {
      var p := StaticStrings.ParseStaticString(ts);
      if p.Err? {
        return Err(Parse(p.error));
      }
      var ins := staticStrings.Insert(p.value);
      if ins.Err? {
        return Err(Panic(ins.error));
      }
      r := Ok(());
    }

    /** `process_klipper_shutdown`: tracks the message and, the first time, adds
        the `shutdown` reply every shutdown sends. */
    method ProcessShutdown(ts: seq<Token>) returns (r: Result<(), Failure>)
      requires Valid()
      modifies staticStrings, this`messages
      ensures var p := StaticStrings.ParseShutdown(ts);
        && (p.Err? ==> r == Err(Parse(p.error)) && messages == old(messages))
        && (p.Ok? ==> staticStrings.calls == old(staticStrings.calls) + [p.value.msg])
      ensures !(r.Err? && r.error.Panic?) ==> Valid()
      ensures r.Ok? ==> messages == if "shutdown" in Keys(old(messages)) then old(messages)
        else Put(old(messages), "shutdown", ShutdownReply())
    {
      var p := StaticStrings.ParseShutdown(ts);
      if p.Err? {
        return Err(Parse(p.error));
      }
      var ins := staticStrings.Insert(p.value.msg);
      if ins.Err? {
        return Err(Panic(ins.error));
      }
      if Get(messages, "shutdown").None? {
        r := AddMessage("shutdown", ShutdownReply());
      } else {
        r := Ok(());
      }
    }

    /** `process_command`: the module the function was found in is recorded, and
        the command is added only when its `#[cfg]` attributes leave it enabled. */
    method ProcessCommand(f: Commands.ItemFn, attrs: seq<Attribute>, env: set<string>, current: seq<string>)
      returns (r: Result<(), Failure>)
      requires Valid()
      modifies this`messages
      ensures Valid()
      ensures var p := Commands.CommandOf(f);
        && (p.Err? && p.error.Syntax? ==> r == Err(Parse(p.error.e)) && messages == old(messages))
        && (p.Err? && p.error.Aborted? ==> r == Err(Panic(p.error.msg)) && messages == old(messages))
        && (p.Ok? ==> var m := MCommand(p.value.(modulePath := Some(current)));
             if CfgEnabled(env, attrs) then
               && (r.Err? <==> AddMessageTo(old(messages), p.value.name, m).Err?)
               && (r.Ok? ==> messages == AddMessageTo(old(messages), p.value.name, m).value)
             else r.Ok? && messages == old(messages))
    {
      var p := Commands.ParseCommand(f);
      if p.Err? {
        match p.error
        case Syntax(e) => return Err(Parse(e));
        case Aborted(msg) => return Err(Panic(msg));
      }
      var c := p.value.(modulePath := Some(current));
      var enabled := Utils.CheckIsEnabled(env, attrs);
      if enabled {
        r := AddMessage(c.name, MCommand(c));
      } else {
        r := Ok(());
      }
    }

    /** `process_reply`: the reply is stored with its argument values cleared. */
    method ProcessReply(ts: seq<Token>) returns (r: Result<(), Failure>)
      requires Valid()
      modifies this`messages
      ensures Valid()
      ensures var p := Replies.ReplyOfAsWritten(ts);
        && (p.Err? ==> r == Err(Parse(p.error)) && messages == old(messages))
        && (p.Ok? ==> var m := MReply(p.value.(args := Replies.Cleared(p.value.args)));
             && (r.Err? <==> AddMessageTo(old(messages), p.value.name, m).Err?)
             && (r.Ok? ==> messages == AddMessageTo(old(messages), p.value.name, m).value))
    {
      var p := Replies.ParseReply(ts);
      if p.Err? {
        return Err(Parse(p.error));
      }
      var cleared := Replies.ClearArgValues(p.value);
      r := AddMessage(cleared.name, MReply(cleared));
    }

    /** `process_output`: stored under its format string, values cleared. */
    method ProcessOutput(ts: seq<Token>) returns (r: Result<(), Failure>)
      requires Valid()
      modifies this`messages
      ensures Valid()
      ensures var p := OutputFormat.ParseOutputSpec(ts);
        && (p.Err? ==> r == Err(Parse(p.error)) && messages == old(messages))
        && (p.Ok? ==> var m := MOutput(p.value.(args := OutputFormat.Cleared(p.value.args)));
             && (r.Err? <==> AddMessageTo(old(messages), p.value.format, m).Err?)
             && (r.Ok? ==> messages == AddMessageTo(old(messages), p.value.format, m).value))
    {
      var p := OutputFormat.ParseOutput(ts);
      if p.Err? {
        return Err(Parse(p.error));
      }
      var cleared := OutputFormat.ClearArgValues(p.value);
      r := AddMessage(cleared.format, MOutput(cleared));
    }

    /** The skip step of `build`: each skipped name is removed from the table. */
    method SkipCommands(skip: seq<string>)
      requires Valid()
      modifies this`messages
      ensures Valid()
      ensures messages == Skipped(old(messages), skip)
    {
      var i := 0;
      while i < |skip|
        invariant 0 <= i <= |skip|
        invariant Sorted(old(messages)) && Sorted(messages)
        invariant messages == Skipped(old(messages), skip[..i])
      {
        assert skip[..i + 1][..i] == skip[..i];
        messages := Remove(messages, skip[i]);
        i := i + 1;
      }
      assert skip[..i] == skip;
    }

    /** The first loop of `assign_command_ids`: the ids the messages already have. */
    method CollectUsedIds() returns (used: set<u8>)
      ensures used == IdAssign.UsedIds(messages)
    {
      used := {};
      var i := 0;
      while i < |messages|
        invariant 0 <= i <= |messages|
        invariant used == IdAssign.UsedIds(messages[..i])
      {
        assert messages[..i + 1][..i] == messages[..i];
        var id := messages[i].1.Id();
        if id.Some? {
          used := used + {id.value};
        }
        i := i + 1;
      }
      assert messages[..i] == messages;
    }

    /** `assign_command_ids`: the given ids are collected, then fresh ones are
        handed out in name order. */
    method AssignCommandIds() returns (r: Result<(), Failure>)
      requires Valid()
      modifies this`messages
      ensures r.Ok? <==> IdAssign.AssignIds(old(messages)).Ok?
      ensures r.Err? ==> r.error == Panic(IdAssign.AssignIds(old(messages)).error)
      ensures r.Ok? ==> messages == IdAssign.AssignIds(old(messages)).value
      ensures r.Err? ==> messages == old(messages)
      ensures Valid()
    {
      var used := CollectUsedIds();
      var a := AssignLoop(messages, used);
      if a.Err? {
        return Err(Panic(a.error));
      }
      IdAssign.AssignFromNoGaps(messages, used, 0);
      SortedSameNames(messages, a.value);
      messages := a.value;
      r := Ok(());
    }

    /** `finalize_dictionary`: every message into its dictionary section, then
        the `static_string_id` enumeration from the tracker. */
    method FinalizeDictionary() returns (r: Result<(), Failure>)
      requires Valid() && Generated.AllAssigned(messages)
      modifies this`commands, this`responses, this`output, this`enumerations
      ensures var f := FinalTables(Tables(old(commands), old(responses), old(output)), messages);
        && (r.Ok? <==> f.Ok?)
        && (r.Err? ==> r.error == Panic(f.error))
        && (r.Ok? ==>
             && Tables(commands, responses, output) == f.value
             && enumerations == old(enumerations)[STATIC_STRING_ENUM := StaticStringEnum(staticStrings.strings)])
    {
      r := FillSections();
      if r.Err? {
        return;
      }
      var e := StaticStringEnumLoop(staticStrings.strings);
      enumerations := enumerations[STATIC_STRING_ENUM := e];
    }

    /** The first loop of `finalize_dictionary`: each message into its section. */
    method FillSections() returns (r: Result<(), Failure>)
      requires Generated.AllAssigned(messages)
      modifies this`commands, this`responses, this`output
      ensures var f := FinalTables(Tables(old(commands), old(responses), old(output)), messages);
        && (r.Ok? <==> f.Ok?)
        && (r.Err? ==> r.error == Panic(f.error))
        && (r.Ok? ==> Tables(commands, responses, output) == f.value)
    {
      ghost var base := Tables(commands, responses, output);
      var i := 0;
      while i < |messages|
        invariant 0 <= i <= |messages|
        invariant Generated.AllAssigned(messages[..i])
        invariant FinalTables(base, messages[..i]) == Ok(Tables(commands, responses, output))
      {
        ghost var tabs := Tables(commands, responses, output);
        FinalTablesStep(base, messages, i, tabs);
        var m := messages[i].1;
        var id := m.Id().value;
        match m {
          case MCommand(c) =>
            var d := Commands.GetDescString(c);
            if d.Err? {
              assert Entry(tabs, m) == Err(d.error);
              FinalTablesErrPersists(base, messages, i + 1);
              return Err(Panic(d.error));
            }
            commands := commands[d.value := id];
          case MReply(rep) =>
            var d := Replies.GetDescString(rep);
            if d.Err? {
              assert Entry(tabs, m) == Err(d.error);
              FinalTablesErrPersists(base, messages, i + 1);
              return Err(Panic(d.error));
            }
            responses := responses[d.value := id];
          case MOutput(o) =>
            output := output[o.format := id];
        }
        assert Entry(tabs, m) == Ok(Tables(commands, responses, output));
        i := i + 1;
      }
      assert messages[..i] == messages;
      r := Ok(());
    }

    /** The table of `write_message_dispatcher`, filled into a 256-slot array: a
        message whose slot already holds a handler panics, and only commands
        fill their slot. */
    method WriteMessageDispatcher() returns (r: Result<seq<Option<string>>, string>)
      requires Generated.AllAssigned(messages)
      ensures r == Generated.DispatchTable(messages)
    {
      var handlers := new Option<string>[Generated.SLOTS](_ => None);
      assert handlers[..] == Generated.EmptySlots();
      var i := 0;
      while i < |messages|
        invariant 0 <= i <= |messages|
        invariant Generated.AllAssigned(messages[i..])
        invariant Generated.DispatchTable(messages) == Generated.FillFrom(messages[i..], handlers[..])
      {
        var m := messages[i].1;
        var id := m.Id().value;
        assert messages[i..][0] == messages[i] && messages[i..][1..] == messages[i + 1..];
        if handlers[id].Some? {
          return Err(Generated.DuplicateId(id));
        }
        if m.MCommand? {
          handlers[id] := Some(Generated.HandlerOf(m));
        }
        i := i + 1;
      }
      r := Ok(handlers[..]);
    }
  }

  /** What `check_is_enabled` decides: every `#[cfg]` item holds. */
  predicate CfgEnabled(env: set<string>, attrs: seq<Attribute>)
  {
    forall i :: 0 <= i < |Utils.CfgItems(attrs)| ==> Utils.CheckExpr(env, Utils.CfgItems(attrs)[i])
  }

  function ShutdownReply(): Message
  {
    MReply(Replies.Reply("shutdown", None,
      [Replies.ReplyArg("clock", "u32", None), Replies.ReplyArg("static_string_id", "u16", None)]))
  }
}
