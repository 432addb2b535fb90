/** The code the generator emits, modelled by what it does when it runs: the
    `dispatch` match built from the 256-slot handler table, the command handlers
    that read their arguments and call the annotated function, the reply and
    output senders, and `handle_identify`, which serves the data dictionary in
    chunks. */
module Generated {
  import opened Types
  import opened Encoding
  import opened MessageMap
  import Text
  import Commands
  import Replies

  const SLOTS: nat := 256

  /** Every message carries an id, as after `assign_command_ids`. */
  predicate AllAssigned(t: Table)
  {
    forall i :: 0 <= i < |t| ==> t[i].1.Id().Some?
  }

  function IdAt(t: Table, i: nat): u8
    requires AllAssigned(t) && i < |t|
  {
    t[i].1.Id().value
  }

  function DuplicateId(id: u8): string
  {
    "Multiple entries for command ID " + Text.Decimal(id)
  }

  /** The handler function the slot of a command names. */
  function HandlerOf(m: Message): string
    requires m.MCommand?
  {
    Commands.HandlerFnName(m.c.name)
  }

  // ---------------------------------------------------------------------------
  // The handler table of `write_message_dispatcher`

  /** The loop over the messages from one on, filling `slots`: a message whose id
      slot is already taken panics; a command takes its slot; replies and outputs
      only check. */
  function FillFrom(t: Table, slots: seq<Option<string>>): (r: Result<seq<Option<string>>, string>)
    requires AllAssigned(t) && |slots| == SLOTS
    ensures r.Ok? ==> |r.value| == SLOTS
    decreases |t|
  {
    if t == [] then Ok(slots)
    else
      var id := IdAt(t, 0);
      assert forall i :: 1 <= i < |t| ==> t[1..][i - 1] == t[i];
      if slots[id].Some? then Err(DuplicateId(id))
      else if t[0].1.MCommand? then FillFrom(t[1..], slots[id := Some(HandlerOf(t[0].1))])
      else FillFrom(t[1..], slots)
  }

  function EmptySlots(): (r: seq<Option<string>>)
    ensures |r| == SLOTS && forall x :: 0 <= x < SLOTS ==> r[x].None?
  {
    seq(SLOTS, _ => None)
  }

  /** The table as `write_message_dispatcher` builds it from the (id-assigned) messages. */
  function DispatchTable(t: Table): (r: Result<seq<Option<string>>, string>)
    requires AllAssigned(t)
    ensures r.Ok? ==>
      && |r.value| == SLOTS
      && (forall i :: 0 <= i < |t| && t[i].1.MCommand? ==> r.value[IdAt(t, i)] == Some(HandlerOf(t[i].1)))
      && (forall x :: 0 <= x < SLOTS ==>
            (r.value[x].Some? <==> exists i :: 0 <= i < |t| && t[i].1.MCommand? && IdAt(t, i) == x))
  {
    var r := FillFrom(t, EmptySlots());
    if r.Ok? then FillFromContents(t, EmptySlots()); r else r
  }

  /** Message j clashes: its slot is taken before the loop, or by a command
      earlier in the table. */
  predicate ClashAt(t: Table, slots: seq<Option<string>>, j: nat)
    requires AllAssigned(t) && |slots| == SLOTS && j < |t|
  {
    slots[IdAt(t, j)].Some? || exists i :: 0 <= i < j && t[i].1.MCommand? && IdAt(t, i) == IdAt(t, j)
  }

  lemma ShiftTable(t: Table)
    requires t != [] && AllAssigned(t)
    ensures AllAssigned(t[1..])
    ensures forall i :: 1 <= i < |t| ==> t[1..][i - 1] == t[i] && IdAt(t[1..], i - 1) == IdAt(t, i)
  {
  }

  /** The loop panics exactly when some message clashes. */
  lemma {:induction false} FillFromFails(t: Table, slots: seq<Option<string>>)
    requires AllAssigned(t) && |slots| == SLOTS
    ensures FillFrom(t, slots).Err? <==> exists j :: 0 <= j < |t| && ClashAt(t, slots, j)
    decreases |t|
  {
    if t != [] {
      ShiftTable(t);
      var id := IdAt(t, 0);
      if slots[id].None? {
        var s' := if t[0].1.MCommand? then slots[id := Some(HandlerOf(t[0].1))] else slots;
        FillFromFails(t[1..], s');
        assert !ClashAt(t, slots, 0);
        forall j | 1 <= j < |t|
          ensures ClashAt(t, slots, j) <==> ClashAt(t[1..], s', j - 1)
        {
          if ClashAt(t, slots, j) && !slots[IdAt(t, j)].Some? {
            var i :| 0 <= i < j && t[i].1.MCommand? && IdAt(t, i) == IdAt(t, j);
            if i > 0 {
              assert t[1..][i - 1].1.MCommand? && IdAt(t[1..], i - 1) == IdAt(t[1..], j - 1);
            }
          }
          if ClashAt(t[1..], s', j - 1) && !s'[IdAt(t[1..], j - 1)].Some? {
            var i :| 0 <= i < j - 1 && t[1..][i].1.MCommand? && IdAt(t[1..], i) == IdAt(t[1..], j - 1);
            assert t[i + 1].1.MCommand? && IdAt(t, i + 1) == IdAt(t, j);
          }
        }
        if exists j :: 0 <= j < |t| && ClashAt(t, slots, j) {
          var j :| 0 <= j < |t| && ClashAt(t, slots, j);
          assert ClashAt(t[1..], s', j - 1);
        }
        if exists j :: 0 <= j < |t[1..]| && ClashAt(t[1..], s', j) {
          var j :| 0 <= j < |t[1..]| && ClashAt(t[1..], s', j);
          assert ClashAt(t, slots, j + 1);
        }
      } else {
        assert ClashAt(t, slots, 0);
      }
    }
  }

  /** `write_message_dispatcher` panics exactly when a message shares its id with
      a command earlier in name order. Two replies or outputs sharing an id, or a
      reply listed before a command with its id, pass. */
  lemma DispatchTableFails(t: Table)
    requires AllAssigned(t)
    ensures DispatchTable(t).Err? <==>
      exists i, j :: 0 <= i < j < |t| && t[i].1.MCommand? && IdAt(t, i) == IdAt(t, j)
  {
    FillFromFails(t, EmptySlots());
    if exists i, j :: 0 <= i < j < |t| && t[i].1.MCommand? && IdAt(t, i) == IdAt(t, j) {
      var i, j :| 0 <= i < j < |t| && t[i].1.MCommand? && IdAt(t, i) == IdAt(t, j);
      assert ClashAt(t, EmptySlots(), j);
    }
  }

  /** What a built table holds: each command's slot names its handler, and a
      slot is filled only before the loop or by a command with that id. */
  lemma {:induction false} FillFromContents(t: Table, slots: seq<Option<string>>)
    requires AllAssigned(t) && |slots| == SLOTS && FillFrom(t, slots).Ok?
    ensures var r := FillFrom(t, slots).value;
      && (forall i :: 0 <= i < |t| && t[i].1.MCommand? ==> r[IdAt(t, i)] == Some(HandlerOf(t[i].1)))
      && (forall x :: 0 <= x < SLOTS && r[x].Some? ==>
            slots[x] == r[x] || exists i :: 0 <= i < |t| && t[i].1.MCommand? && IdAt(t, i) == x)
    decreases |t|
  {
    if t != [] {
      ShiftTable(t);
      var id := IdAt(t, 0);
      var s' := if t[0].1.MCommand? then slots[id := Some(HandlerOf(t[0].1))] else slots;
      FillFromContents(t[1..], s');
      if t[0].1.MCommand? {
        FillFromKeeps(t[1..], s', id);
      }
      var r := FillFrom(t, slots).value;
      forall x | 0 <= x < SLOTS && r[x].Some? && slots[x] != r[x]
        ensures exists i :: 0 <= i < |t| && t[i].1.MCommand? && IdAt(t, i) == x
      {
        if s'[x] == r[x] {
          assert t[0].1.MCommand? && x == id;
        } else {
          var i :| 0 <= i < |t[1..]| && t[1..][i].1.MCommand? && IdAt(t[1..], i) == x;
          assert t[i + 1].1.MCommand? && IdAt(t, i + 1) == x;
        }
      }
    }
  }

  /** A slot filled before the loop stays as it is. */
  lemma {:induction false} FillFromKeeps(t: Table, slots: seq<Option<string>>, x: u8)
    requires AllAssigned(t) && |slots| == SLOTS && FillFrom(t, slots).Ok? && slots[x].Some?
    ensures FillFrom(t, slots).value[x] == slots[x]
    decreases |t|
  {
    if t != [] {
      ShiftTable(t);
      var id := IdAt(t, 0);
      var s' := if t[0].1.MCommand? then slots[id := Some(HandlerOf(t[0].1))] else slots;
      FillFromKeeps(t[1..], s', x);
    }
  }

  /** Two messages sharing an id, a reply listed before a command, pass the
      check as written: the generated `dispatch` runs the command for id 1 while
      the dictionary also lists the reply under it. */
  lemma ReplyBeforeCommandPasses()
    ensures var t := SharedIdTable();
      AllAssigned(t) && DispatchTable(t).Ok? && IdAt(t, 0) == IdAt(t, 1)
  {
  }

  function SharedIdTable(): Table
  {
    [ ("aaa", MReply(Replies.Reply("aaa", Some(1), []))),
      ("identify", MCommand(Commands.Command("identify", Some(1), "handle_identify", None, false, []))) ]
  }

  /** The loop with the duplicate check it evidently intends: an id already taken
      by any earlier message, not only by a command, panics. */
  function FillChecked(t: Table, slots: seq<Option<string>>, taken: set<u8>): (r: Result<seq<Option<string>>, string>)
    requires AllAssigned(t) && |slots| == SLOTS
    ensures r.Ok? ==> |r.value| == SLOTS
    decreases |t|
  {
    if t == [] then Ok(slots)
    else
      var id := IdAt(t, 0);
      assert forall i :: 1 <= i < |t| ==> t[1..][i - 1] == t[i];
      if id in taken then Err(DuplicateId(id))
      else if t[0].1.MCommand? then FillChecked(t[1..], slots[id := Some(HandlerOf(t[0].1))], taken + {id})
      else FillChecked(t[1..], slots, taken + {id})
  }

  function DispatchTableChecked(t: Table): Result<seq<Option<string>>, string>
    requires AllAssigned(t)
  {
    FillChecked(t, EmptySlots(), {})
  }

  /** Message j repeats an id taken before the loop or by any earlier message. */
  predicate Repeated(t: Table, taken: set<u8>, j: nat)
    requires AllAssigned(t) && j < |t|
  {
    IdAt(t, j) in taken || exists i :: 0 <= i < j && IdAt(t, i) == IdAt(t, j)
  }

  lemma {:induction false} FillCheckedFails(t: Table, slots: seq<Option<string>>, taken: set<u8>)
    requires AllAssigned(t) && |slots| == SLOTS
    ensures FillChecked(t, slots, taken).Err? <==> exists j :: 0 <= j < |t| && Repeated(t, taken, j)
    decreases |t|
  {
    if t != [] {
      ShiftTable(t);
      var id := IdAt(t, 0);
      if id !in taken {
        var s' := if t[0].1.MCommand? then slots[id := Some(HandlerOf(t[0].1))] else slots;
        var taken' := taken + {id};
        FillCheckedFails(t[1..], s', taken');
        assert !Repeated(t, taken, 0);
        forall j | 1 <= j < |t|
          ensures Repeated(t, taken, j) <==> Repeated(t[1..], taken', j - 1)
        {
          if Repeated(t, taken, j) && IdAt(t, j) !in taken && IdAt(t, j) != id {
            var i :| 0 <= i < j && IdAt(t, i) == IdAt(t, j);
            assert i > 0 && IdAt(t[1..], i - 1) == IdAt(t[1..], j - 1);
          }
          if Repeated(t[1..], taken', j - 1) && IdAt(t[1..], j - 1) !in taken' {
            var i :| 0 <= i < j - 1 && IdAt(t[1..], i) == IdAt(t[1..], j - 1);
            assert IdAt(t, i + 1) == IdAt(t, j);
          }
          if IdAt(t, j) == id {
            assert IdAt(t, 0) == IdAt(t, j);
          }
        }
        if exists j :: 0 <= j < |t| && Repeated(t, taken, j) {
          var j :| 0 <= j < |t| && Repeated(t, taken, j);
          assert Repeated(t[1..], taken', j - 1);
        }
        if exists j :: 0 <= j < |t[1..]| && Repeated(t[1..], taken', j) {
          var j :| 0 <= j < |t[1..]| && Repeated(t[1..], taken', j);
          assert Repeated(t, taken, j + 1);
        }
      } else {
        assert Repeated(t, taken, 0);
      }
    }
  }

  /** When every filled slot's id counts as taken, the checked loop that gets
      through builds the same table as the loop as written. */
  lemma {:induction false} FillCheckedAgrees(t: Table, slots: seq<Option<string>>, taken: set<u8>)
    requires AllAssigned(t) && |slots| == SLOTS
    requires forall x: u8 :: slots[x].Some? ==> x in taken
    requires FillChecked(t, slots, taken).Ok?
    ensures FillFrom(t, slots) == FillChecked(t, slots, taken)
    decreases |t|
  {
    if t != [] {
      ShiftTable(t);
      var id := IdAt(t, 0);
      var s' := if t[0].1.MCommand? then slots[id := Some(HandlerOf(t[0].1))] else slots;
      FillCheckedAgrees(t[1..], s', taken + {id});
    }
  }

  /** The intended check panics exactly when two messages share an id, and
      otherwise builds the table as written, so the contents above hold for it. */
  lemma DispatchTableCheckedSpec(t: Table)
    requires AllAssigned(t)
    ensures DispatchTableChecked(t).Err? <==> exists i, j :: 0 <= i < j < |t| && IdAt(t, i) == IdAt(t, j)
    ensures DispatchTableChecked(t).Ok? ==> DispatchTable(t) == DispatchTableChecked(t)
  {
    FillCheckedFails(t, EmptySlots(), {});
    if exists i, j :: 0 <= i < j < |t| && IdAt(t, i) == IdAt(t, j) {
      var i, j :| 0 <= i < j < |t| && IdAt(t, i) == IdAt(t, j);
      assert Repeated(t, {}, j);
    }
    if DispatchTableChecked(t).Ok? {
      FillCheckedAgrees(t, EmptySlots(), {});
    }
  }

  /** The intended check refuses the table the written one lets through. */
  lemma SharedIdRefused()
    ensures DispatchTableChecked(SharedIdTable()).Err?
  {
    DispatchTableCheckedSpec(SharedIdTable());
    assert IdAt(SharedIdTable(), 0) == IdAt(SharedIdTable(), 1);
  }

  /** `dispatch(cmd, frame, context)` of the generated `Config`: the handler to
      run, or `ReadError` for an id no command has. The transport hands over the
      `u16` it read. */
  function Dispatch(table: seq<Option<string>>, cmd: u16): (r: Result<string, ReadError>)
    requires |table| == SLOTS
    ensures r.Ok? <==> cmd < SLOTS && table[cmd].Some?
  {
    if cmd < SLOTS && table[cmd].Some? then Ok(table[cmd].value) else Err(ReadError)
  }

  // ---------------------------------------------------------------------------
  // Command handlers

  /** The wire type a generated `<T as Readable>::read` uses, by the printed type. */
  function WireOf(ty: string): Option<WireType>
  {
    if ty == "u8" then Some(U8)
    else if ty == "u16" then Some(U16)
    else if ty == "i16" then Some(I16)
    else if ty == "u32" then Some(U32)
    else if ty == "i32" then Some(I32)
    else if ty == "bool" then Some(Bool)
    else if ty == "& [u8]" then Some(ByteSlice)
    else None
  }

  /** A handler is generated for a command whose every argument type is `Readable`. */
  predicate Readables(args: seq<Commands.Arg>)
  {
    forall i :: 0 <= i < |args| ==> WireOf(args[i].ty).Some?
  }

  /** The `let name = <T as Readable>::read(data)?;` lines, in order: the values
      read, or the first failure with the cursor where it stopped. */
  function ReadArgs(args: seq<Commands.Arg>, data: seq<u8>): (r: Parsed<seq<Value>>)
    requires Readables(args)
    ensures r.result.Ok? ==> |r.result.value| == |args|
    decreases |args|
  {
    if args == [] then Parsed(Ok([]), data)
    else
      var t := WireOf(args[0].ty).value;
      assert Readable(t);
      var v := ReadValue(t, data);
      match v.result
      case Err(e) => Parsed(Err(e), v.rest)
      case Ok(x) =>
        assert forall i :: 1 <= i < |args| ==> args[1..][i - 1] == args[i];
        var more := ReadArgs(args[1..], v.rest);
        match more.result
        case Err(e) => Parsed(Err(e), more.rest)
        case Ok(xs) => Parsed(Ok([x] + xs), more.rest)
  }

  /** The call a handler makes: the target path, whether `context` is passed
      first, and the argument values. */
  datatype Call = Call(target: string, withContext: bool, values: seq<Value>)

  /** A generated handler: reads the arguments, and only when all were read calls
      the command's target. */
  function RunHandler(c: Commands.Command, data: seq<u8>): (r: Parsed<Call>)
    requires Readables(c.args)
    ensures r.result.Ok? <==> ReadArgs(c.args, data).result.Ok?
    ensures r.result.Ok? ==>
      && r.result.value.target == Commands.Target(c)
      && r.result.value.withContext == c.hasContext
      && r.result.value.values == ReadArgs(c.args, data).result.value
  {
    var a := ReadArgs(c.args, data);
    match a.result
    case Err(e) => Parsed(Err(e), a.rest)
    case Ok(vs) => Parsed(Ok(Call(Commands.Target(c), c.hasContext, vs)), a.rest)
  }

  /** The bytes the host writes for a list of argument values. */
  function EncodeAll(vs: seq<Value>): seq<u8>
  {
    if vs == [] then [] else EncodeValue(vs[0]) + EncodeAll(vs[1..])
  }

  /** Values that match a command's argument types, as the host sends them. */
  predicate ArgsMatch(args: seq<Commands.Arg>, vs: seq<Value>)
  {
    && |vs| == |args|
    && forall i :: 0 <= i < |args| ==>
         WireOf(args[i].ty) == Some(TypeOf(vs[i])) && Readable(TypeOf(vs[i])) && Representable(vs[i])
  }

  /** Arguments written in order are read back in order, leaving what followed. */
  lemma {:induction false} ReadArgsRoundTrip(args: seq<Commands.Arg>, vs: seq<Value>, rest: seq<u8>)
    requires Readables(args) && ArgsMatch(args, vs)
    ensures ReadArgs(args, EncodeAll(vs) + rest) == Parsed(Ok(vs), rest)
    decreases |args|
  {
    if args != [] {
      var tail := EncodeAll(vs[1..]) + rest;
      assert EncodeAll(vs) + rest == EncodeValue(vs[0]) + tail;
      ValueRoundTrip(vs[0], tail);
      assert ArgsMatch(args[1..], vs[1..]) by {
        assert forall i :: 1 <= i < |args| ==> args[1..][i - 1] == args[i] && vs[1..][i - 1] == vs[i];
      }
      ReadArgsRoundTrip(args[1..], vs[1..], rest);
      assert [vs[0]] + vs[1..] == vs;
    }
  }

  /** Handed the encoded arguments of a command, its handler calls the target with
      exactly those values. */
  lemma HandlerRoundTrip(c: Commands.Command, vs: seq<Value>, rest: seq<u8>)
    requires Readables(c.args) && ArgsMatch(c.args, vs)
    ensures RunHandler(c, EncodeAll(vs) + rest) == Parsed(Ok(Call(Commands.Target(c), c.hasContext, vs)), rest)
  {
    ReadArgsRoundTrip(c.args, vs, rest);
  }

  /** A handler with arguments called on an empty remainder of the frame fails
      before calling anything. */
  lemma HandlerNeedsData(c: Commands.Command)
    requires Readables(c.args) && c.args != []
    ensures RunHandler(c, []).result.Err?
  {
    DecodeVlqEmpty();
  }

  // ---------------------------------------------------------------------------
  // Reply and output senders

  /** The payload a generated sender puts in a frame, as written:
      `output.output(&[#id])`, one raw byte, then each argument's `write`. */
  function SenderPayloadAsWritten(id: u8, vs: seq<Value>): (r: seq<u8>)
    ensures |r| == 1 + |EncodeAll(vs)| && r[0] == id && r[1..] == EncodeAll(vs)
  {
    [id] + EncodeAll(vs)
  }

  /** The payload as the receiver reads it: the id as a VLQ integer, like every
      other message id, then the arguments. */
  function SenderPayload(id: u8, vs: seq<Value>): seq<u8>
  {
    EncodeVlq(id) + EncodeAll(vs)
  }

  /** For ids below 96 the raw byte is the VLQ encoding, so both agree. */
  lemma SenderAgreesBelow96(id: u8, vs: seq<Value>)
    requires id < 0x60
    ensures SenderPayloadAsWritten(id, vs) == SenderPayload(id, vs)
  {
    EncodeVlqSmall(id);
  }

  /** Id 100, written raw, has bits 5 and 6 set and is read back sign extended:
      the receiver sees message id 2^32 - 28 instead of 100. */
  lemma RawIdMisread(vs: seq<Value>)
    ensures DecodeVlq(SenderPayloadAsWritten(100, vs)).result == Ok(U32_LIMIT - 28)
    ensures DecodeVlq(SenderPayloadAsWritten(100, vs)).result != Ok(100)
  {
    DecodeSignExtended(100, EncodeAll(vs));
  }

  /** The id written as VLQ reads back as the id, and the arguments after it
      read back as the values. */
  lemma SenderRoundTrip(id: u8, args: seq<Commands.Arg>, vs: seq<Value>)
    requires Readables(args) && ArgsMatch(args, vs)
    ensures DecodeVlq(SenderPayload(id, vs)) == Parsed(Ok(id), EncodeAll(vs))
    ensures ReadArgs(args, DecodeVlq(SenderPayload(id, vs)).rest) == Parsed(Ok(vs), [])
  {
    VlqRoundTrip(id, EncodeAll(vs));
    ReadArgsRoundTrip(args, vs, []);
    assert EncodeAll(vs) + [] == EncodeAll(vs);
  }

  // ---------------------------------------------------------------------------
  // `handle_identify`

  /** The panic of a slice whose start lies past its end. */
  function SliceOrderPanic(start: int, end: int): string
  {
    "slice index starts at " + Text.Decimal(if start < 0 then 0 else start)
      + " but ends at " + Text.Decimal(if end < 0 then 0 else end)
  }

  /** `handle_identify` as written: `offset + count` on `u32`, wrapping, and the
      `DATA.len() as u32` clamp; the slice panics when the clamped offset lies
      past the wrapped end. The result is the reply's `(offset, data)`. */
  function HandleIdentifyAsWritten(data: seq<u8>, offset: u32, count: u32): (r: Result<(u32, seq<u8>), string>)
    ensures r.Ok? ==> |r.value.1| <= count
  {
    var len := AsU32(|data|);
    var end := Min(AsU32(offset + count), len);
    var off := Min(offset, len);
    if off > end then Err(SliceOrderPanic(off, end))
    else Ok((off, data[off..end]))
  }

  /** `handle_identify` with the sum taken without overflow: the reply carries the
      clamped offset and the bytes of `DATA` from there, at most `count` of them. */
  function HandleIdentify(data: seq<u8>, offset: u32, count: u32): (r: (u32, seq<u8>))
    requires |data| < U32_LIMIT
    ensures r.0 == Min(offset, |data|)
    ensures r.1 == data[Min(offset, |data|)..Min(offset + count, |data|)]
    ensures |r.1| <= count
  {
    var end := Min(offset + count, |data|);
    var off := Min(offset, |data|);
    (off, data[off..end])
  }

  /** While `offset + count` fits in 32 bits, the code as written gives the same reply. */
  lemma IdentifyAgreesWithoutOverflow(data: seq<u8>, offset: u32, count: u32)
    requires |data| < U32_LIMIT && offset + count < U32_LIMIT
    ensures HandleIdentifyAsWritten(data, offset, count) == Ok(HandleIdentify(data, offset, count))
  {
  }

  /** A request at offset 1 for `u32::MAX` bytes wraps the end to 0 and panics, on
      any dictionary of two bytes or more. */
  lemma IdentifyWrapPanics(data: seq<u8>)
    requires 2 <= |data| < U32_LIMIT
    ensures HandleIdentifyAsWritten(data, 1, 0xFFFF_FFFF).Err?
  {
  }

  /** Two requests for consecutive ranges return, together, the bytes of one
      request covering both. */
  lemma IdentifyChunksConcatenate(data: seq<u8>, offset: u32, a: u32, b: u32)
    requires |data| < U32_LIMIT && offset + a < U32_LIMIT && a + b < U32_LIMIT
    ensures HandleIdentify(data, offset, a).1 + HandleIdentify(data, offset + a, b).1
      == HandleIdentify(data, offset, a + b).1
  {
  }

  /** The host side of the exchange: ask for `count` bytes at the length received
      so far, until a reply comes back empty. */
  function FetchFrom(data: seq<u8>, offset: nat, count: u32): seq<u8>
    requires |data| < U32_LIMIT && offset <= |data| && count > 0
    decreases |data| - offset
  {
    var reply := HandleIdentify(data, offset, count);
    if reply.1 == [] then [] else reply.1 + FetchFrom(data, offset + |reply.1|, count)
  }

  /** Requests at consecutive offsets reassemble the dictionary byte for byte,
      whatever the chunk size. */
  lemma {:induction false} FetchReassembles(data: seq<u8>, offset: nat, count: u32)
    requires |data| < U32_LIMIT && offset <= |data| && count > 0
    ensures FetchFrom(data, offset, count) == data[offset..]
    decreases |data| - offset
  {
    var n := Min(offset + count, |data|);
    var chunk := HandleIdentify(data, offset, count).1;
    assert chunk == data[offset..n];
    if offset < |data| {
      assert chunk != [] && offset + |chunk| == n;
      assert FetchFrom(data, offset, count) == chunk + FetchFrom(data, n, count);
      FetchReassembles(data, n, count);
      assert data[offset..] == chunk + data[n..];
    }
  }

  lemma FetchAll(data: seq<u8>, count: u32)
    requires |data| < U32_LIMIT && count > 0
    ensures FetchFrom(data, 0, count) == data
  {
    FetchReassembles(data, 0, count);
  }
}
