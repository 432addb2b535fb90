/** The Klipper framing layer (`Transport`): frames are
    `[len, seq, payload.., crc_hi, crc_lo, 0x7E]`; the receiver resynchronises
    on the sync byte after any malformed frame and acknowledges every frame. */
module Transport {
  import opened Types
  import opened OutputBuffers
  import opened Encoding
  import opened InputBuffers

  const MESSAGE_HEADER_SIZE: nat := 2
  const MESSAGE_TRAILER_SIZE: nat := 3
  const MESSAGE_LENGTH_MIN: nat := MESSAGE_HEADER_SIZE + MESSAGE_TRAILER_SIZE
  const MESSAGE_LENGTH_MAX: nat := 64
  const MESSAGE_POSITION_LENGTH: nat := 0
  const MESSAGE_POSITION_SEQ: nat := 1
  const MESSAGE_TRAILER_CRC: nat := 3
  const MESSAGE_TRAILER_SYNC: nat := 1
  const MESSAGE_VALUE_SYNC: u8 := 0x7E
  const MESSAGE_DEST: u8 := 0x10
  const MESSAGE_SEQ_MASK: u8 := 0x0F

  /** Capacity of the `ScratchOutput` the transport output builds each message in
      (the default `MAX_SIZE`). */
  const OUTPUT_CAPACITY: nat := 64

  // ---------------------------------------------------------------------------
  // CRC

  /** `a ^ b` on non-negative integers, bit by bit from the least significant. */
  function Xor(a: nat, b: nat): nat
    decreases a + b
  {
    if a == 0 then b
    else if b == 0 then a
    else 2 * Xor(a / 2, b / 2) + (a % 2 + b % 2) % 2
  }

  /** XOR of two `n`-bit values is an `n`-bit value. */
  lemma {:induction false} XorBelow(a: nat, b: nat, n: nat)
    requires a < Pow2(n) && b < Pow2(n)
    ensures Xor(a, b) < Pow2(n)
    decreases a + b
  {
    if a != 0 && b != 0 {
      XorBelow(a / 2, b / 2, n - 1);
    }
  }

  /** XOR is its own inverse. */
  lemma {:induction false} XorSelf(a: nat)
    ensures Xor(a, a) == 0
    decreases a
  {
    if a != 0 {
      XorSelf(a / 2);
    }
  }

  lemma Pow2Widths()
    ensures Pow2(8) == U8_LIMIT && Pow2(16) == U16_LIMIT
  {
    assert Pow2(2) == 4;
    assert Pow2(4) == 16;
    assert Pow2(6) == 64;
    assert Pow2(8) == 256;
    assert Pow2(10) == 1024;
    assert Pow2(12) == 4096;
    assert Pow2(14) == 16384;
  }

  /** The two widths `crc16` works in. */
  lemma XorByte(a: nat, b: nat)
    requires a < U8_LIMIT && b < U8_LIMIT
    ensures Xor(a, b) < U8_LIMIT
  {
    Pow2Widths();
    XorBelow(a, b, 8);
  }

  lemma XorWord(a: nat, b: nat)
    requires a < U16_LIMIT && b < U16_LIMIT
    ensures Xor(a, b) < U16_LIMIT
  {
    Pow2Widths();
    XorBelow(a, b, 16);
  }

  /** One byte of `crc16`, on `u8`/`u16`: `b ^= crc as u8; b ^= b << 4` (shifting out
      of the byte), then `(b << 8 | crc >> 8) ^ (b >> 4) ^ (b << 3)` on `u16`. The two
      operands of `|` have no bit in common, so it is an addition. */
  function CrcUpdate(crc: u16, byte: u8): u16
  {
    XorByte(byte, crc % 256);
    var b := Xor(byte, crc % 256);
    XorByte(b, (b * 16) % 256);
    var b := Xor(b, (b * 16) % 256);
    XorWord(b * 256 + crc / 256, b / 16);
    XorWord(Xor(b * 256 + crc / 256, b / 16), b * 8);
    Xor(Xor(b * 256 + crc / 256, b / 16), b * 8)
  }

  /** `crc16(buf)`: the update folded over the bytes, starting at 0xFFFF. */
  function Crc16Of(buf: seq<u8>): u16
  {
    if buf == [] then 0xFFFF else CrcUpdate(Crc16Of(buf[..|buf| - 1]), buf[|buf| - 1])
  }

  /** `crc16` as the loop the code runs. */
  method Crc16(buf: seq<u8>) returns (crc: u16)
    ensures crc == Crc16Of(buf)
  {
    crc := 0xFFFF;
    var i := 0;
    while i < |buf|
      invariant 0 <= i <= |buf|
      invariant crc == Crc16Of(buf[..i])
    {
      assert buf[..i + 1][..i] == buf[..i];
      crc := CrcUpdate(crc, buf[i]);
      i := i + 1;
    }
    assert buf[..i] == buf;
  }

  /** Two bytes read big-endian. */
  function BigEndian(hi: u8, lo: u8): int
  {
    (hi as int) * 256 + lo
  }

  /** The three trailer bytes: the CRC big-endian, then the sync byte. */
  function Trailer(crc: u16): (r: seq<u8>)
    ensures |r| == MESSAGE_TRAILER_SIZE && r[2] == MESSAGE_VALUE_SYNC
    ensures BigEndian(r[0], r[1]) == crc
  {
    [crc / 256, crc % 256, MESSAGE_VALUE_SYNC]
  }

  // ---------------------------------------------------------------------------
  // Sequence numbers

  /** `seq & !MESSAGE_SEQ_MASK` on a `u8`: the high nibble. */
  function HighBits(b: u8): (r: u8)
    ensures r == MESSAGE_DEST <==> 0x10 <= b < 0x20
  {
    (b / 16) * 16
  }

  /** `((seq + 1) & MESSAGE_SEQ_MASK) | MESSAGE_DEST` for a sequence byte that passed
      the destination check. */
  function NextSeq(sq: u8): (r: u8)
    requires 0x10 <= sq < 0x20
    ensures 0x10 <= r < 0x20
    ensures r - 0x10 == (sq - 0x10 + 1) % 16
  {
    (sq + 1) % 16 + 0x10
  }

  // ---------------------------------------------------------------------------
  // Messages the transport sends

  /** `encode_acknak`: an empty frame carrying the expected sequence number. */
  function AckNak(ns: u8): (r: seq<u8>)
    ensures |r| == MESSAGE_LENGTH_MIN
  {
    [5, ns] + Trailer(Crc16Of([5, ns]))
  }

  /** A frame as the wire format wants it: the length, the sequence byte, the
      payload, then the CRC of everything before the trailer. */
  function FrameBytes(ns: u8, payload: seq<u8>): (r: seq<u8>)
    requires |payload| + MESSAGE_LENGTH_MIN < U8_LIMIT
    ensures |r| == |payload| + MESSAGE_LENGTH_MIN
  {
    var header := [|payload| + MESSAGE_LENGTH_MIN, ns];
    header + payload + Trailer(Crc16Of(header + payload))
  }

  /** A payload `encode_frame` can send: with header and trailer it fits the
      64-byte `ScratchOutput`. */
  predicate Fits(payload: seq<u8>)
  {
    |payload| + MESSAGE_LENGTH_MIN <= OUTPUT_CAPACITY
  }

  /** Every reply of a run fits. */
  predicate AllFit(replies: seq<seq<u8>>)
    decreases |replies|
  {
    replies == [] || (Fits(replies[0]) && AllFit(replies[1..]))
  }

  lemma {:induction false} AllFitEvery(replies: seq<seq<u8>>)
    ensures AllFit(replies) <==> forall i :: 0 <= i < |replies| ==> Fits(replies[i])
    decreases |replies|
  {
    if replies != [] {
      AllFitEvery(replies[1..]);
      assert forall i :: 1 <= i < |replies| ==> replies[i] == replies[1..][i - 1];
    }
  }

  /** The messages sent for a sequence of reply payloads, in order: one frame per
      reply, up to the first reply that does not fit, whose `encode_frame` panics. */
  function Framed(ns: u8, replies: seq<seq<u8>>): (r: seq<seq<u8>>)
    ensures |r| <= |replies|
    decreases |replies|
  {
    if replies == [] || !Fits(replies[0]) then []
    else [FrameBytes(ns, replies[0])] + Framed(ns, replies[1..])
  }

  /** `Framed` holds the frame of each reply before the first one that does not fit,
      and all of them exactly when every reply fits. */
  lemma {:induction false} FramedFrames(ns: u8, replies: seq<seq<u8>>)
    ensures var r := Framed(ns, replies);
      && (|r| == |replies| <==> AllFit(replies))
      && (forall i :: 0 <= i < |r| ==> Fits(replies[i]) && r[i] == FrameBytes(ns, replies[i]))
      && (|r| < |replies| ==> !Fits(replies[|r|]))
    decreases |replies|
  {
    if replies != [] && Fits(replies[0]) {
      FramedFrames(ns, replies[1..]);
      var r := Framed(ns, replies);
      assert forall i :: 1 <= i < |r| ==> r[i] == Framed(ns, replies[1..])[i - 1] && replies[i] == replies[1..][i - 1];
    }
  }

  /** Framing two runs of replies: each is framed in turn, unless the first run
      already panics. */
  lemma {:induction false} FramedAppend(ns: u8, a: seq<seq<u8>>, b: seq<seq<u8>>)
    ensures AllFit(a + b) <==> AllFit(a) && AllFit(b)
    ensures Framed(ns, a + b) == if AllFit(a) then Framed(ns, a) + Framed(ns, b) else Framed(ns, a)
    decreases |a|
  {
    if a == [] {
      assert a + b == b;
    } else {
      assert (a + b)[0] == a[0] && (a + b)[1..] == a[1..] + b;
      if Fits(a[0]) {
        FramedAppend(ns, a[1..], b);
      }
    }
  }

  /** After `i` replies that all fit, one more that fits is framed too... */
  lemma FramedNextFits(ns: u8, replies: seq<seq<u8>>, i: nat)
    requires i < |replies| && AllFit(replies[..i]) && Fits(replies[i])
    ensures AllFit(replies[..i + 1])
    ensures Framed(ns, replies[..i + 1]) == Framed(ns, replies[..i]) + [FrameBytes(ns, replies[i])]
  {
    var a, x := replies[..i], [replies[i]];
    assert replies[..i + 1] == a + x;
    FramedAppend(ns, a, x);
    assert x[1..] == [];
  }

  /** ...and one that does not fit stops the framing for good. */
  lemma FramedNextStops(ns: u8, replies: seq<seq<u8>>, i: nat)
    requires i < |replies| && AllFit(replies[..i]) && !Fits(replies[i])
    ensures !AllFit(replies)
    ensures Framed(ns, replies) == Framed(ns, replies[..i])
  {
    var a, b := replies[..i], replies[i..];
    assert replies == a + b;
    FramedAppend(ns, a, b);
    assert b[0] == replies[i];
  }

  // ---------------------------------------------------------------------------
  // Dispatch

  /** What the generated dispatcher gives back: the handler's result, where it left
      the frame cursor, the updated context, and the payloads of the replies its
      handler sent back through `encode_frame`. */
  datatype Dispatched<C> = Dispatched(result: Result<(), ReadError>, rest: seq<u8>, ctx: C, replies: seq<seq<u8>>)

  type Dispatcher<!C> = (u16, seq<u8>, C) -> Dispatched<C>

  /** A dispatcher only moves the cursor forward, as the generated handlers do
      (they read their arguments through `Readable`). */
  ghost predicate Advances<C(!new)>(dispatch: Dispatcher<C>)
  {
    forall cmd: u16, data: seq<u8>, ctx: C :: |dispatch(cmd, data, ctx).rest| <= |data|
  }

  /** The outcome of `parse_frame`: its result, the context, and every reply sent. */
  datatype FrameRun<C> = FrameRun(result: Result<(), ReadError>, ctx: C, replies: seq<seq<u8>>)

  /** One pass of the `parse_frame` loop: the outcome of reading one command. */
  datatype CommandStep<C> =
    | Done(result: Result<(), ReadError>, ctx: C, replies: seq<seq<u8>>)
    | More(rest: seq<u8>, ctx: C, replies: seq<seq<u8>>)

  /** Read a `u16` command id (`<u16 as Readable>::read`), then dispatch it; an error
      from either ends the frame. */
  function Command<C(!new)>(cur: seq<u8>, ctx: C, dispatch: Dispatcher<C>): (r: CommandStep<C>)
    requires Advances(dispatch)
    ensures r.More? ==> |r.rest| < |cur|
  {
    var n := DecodeVlq(cur);
    match n.result
    case Err(e) => Done(Err(e), ctx, [])
    case Ok(v) =>
      DecodeVlqSuffix(cur);
      var d := dispatch(AsU16(v), n.rest, ctx);
      if d.result.Err? then Done(d.result, d.ctx, d.replies)
      else More(d.rest, d.ctx, d.replies)
  }

  /** `parse_frame`: run commands until the frame is empty or one fails, keeping
      what the handlers already did. */
  function RunFrame<C(!new)>(frame: seq<u8>, ctx: C, dispatch: Dispatcher<C>): FrameRun<C>
    requires Advances(dispatch)
    decreases |frame|
  {
    if frame == [] then FrameRun(Ok(()), ctx, [])
    else
      match Command(frame, ctx, dispatch)
      case Done(r, c, rs) => FrameRun(r, c, rs)
      case More(rest, c, rs) =>
        var t := RunFrame(rest, c, dispatch);
        FrameRun(t.result, t.ctx, rs + t.replies)
  }

  lemma RunFrameUnfold<C(!new)>(frame: seq<u8>, ctx: C, dispatch: Dispatcher<C>)
    requires Advances(dispatch) && frame != []
    ensures var c := Command(frame, ctx, dispatch);
      c.Done? ==> RunFrame(frame, ctx, dispatch) == FrameRun(c.result, c.ctx, c.replies)
    ensures var c := Command(frame, ctx, dispatch);
      c.More? ==> RunFrame(frame, ctx, dispatch) == FrameRun(RunFrame(c.rest, c.ctx, dispatch).result,
        RunFrame(c.rest, c.ctx, dispatch).ctx, c.replies + RunFrame(c.rest, c.ctx, dispatch).replies)
  {
  }

  lemma AppendAssoc<T>(a: seq<T>, b: seq<T>, c: seq<T>)
    ensures a + (b + c) == (a + b) + c && a + [] == a
  {
  }

  /** An empty frame runs no command. */
  lemma RunEmptyFrame<C(!new)>(ctx: C, dispatch: Dispatcher<C>)
    requires Advances(dispatch)
    ensures RunFrame([], ctx, dispatch) == FrameRun(Ok(()), ctx, [])
  {
  }

  /** A frame holding one command whose handler consumes the rest runs exactly
      that handler, on the `u16` reading of the id. */
  lemma {:induction false} RunSingleCommand<C(!new)>(id: u32, args: seq<u8>, ctx: C, dispatch: Dispatcher<C>)
    requires Advances(dispatch)
    requires dispatch(AsU16(id), args, ctx).result.Ok? && dispatch(AsU16(id), args, ctx).rest == []
    ensures var d := dispatch(AsU16(id), args, ctx);
      RunFrame(EncodeVlq(id) + args, ctx, dispatch) == FrameRun(Ok(()), d.ctx, d.replies)
  {
    VlqRoundTrip(id, args);
    EncodeVlqShape(id);
    var d := dispatch(AsU16(id), args, ctx);
    assert RunFrame(d.rest, d.ctx, dispatch) == FrameRun(Ok(()), d.ctx, []);
    assert d.replies + [] == d.replies;
  }

  // ---------------------------------------------------------------------------
  // The receive state machine

  /** The state `receive` threads through its loop: the two atomics, the unread
      input and the context. */
  datatype State<C> = State(synced: bool, nextSeq: u8, data: seq<u8>, ctx: C)

  /** A pass of the loop either exits it, or moves to a new state having handed
      `out` to the transport output. */
  datatype StepResult<C> = Stop | Continue(next: State<C>, out: seq<seq<u8>>) | Panicked(out: seq<seq<u8>>)

  /** The state the loop exits in (for a panic, the state of the pass that panicked),
      everything it sent on the way, and whether it ended in a panic. */
  datatype Scanned<C> = Scanned(final: State<C>, out: seq<seq<u8>>, panicked: bool)

  function Measure<C>(s: State<C>): nat
  {
    2 * |s.data| + (if s.synced then 1 else 0)
  }

  /** `data.iter().position(|b| *b == MESSAGE_VALUE_SYNC)`. */
  function FindSync(data: seq<u8>): (r: Option<nat>)
    ensures r.Some? ==> (r.value < |data| && data[r.value] == MESSAGE_VALUE_SYNC
      && forall i :: 0 <= i < r.value ==> data[i] != MESSAGE_VALUE_SYNC)
    ensures r.None? ==> forall i :: 0 <= i < |data| ==> data[i] != MESSAGE_VALUE_SYNC
  {
    if data == [] then None
    else if data[0] == MESSAGE_VALUE_SYNC then Some(0)
    else match FindSync(data[1..])
      case None => None
      case Some(n) => Some(n + 1)
  }

  /** The frame checks of the synchronised branch, in the code's order: enough
      bytes for a minimal frame, a length in [5, 64], the destination nibble, the
      whole frame present, the sync byte last, and a matching CRC. */
  predicate ValidFrame(data: seq<u8>)
  {
    && |data| >= MESSAGE_LENGTH_MIN
    && MESSAGE_LENGTH_MIN <= data[MESSAGE_POSITION_LENGTH] <= MESSAGE_LENGTH_MAX
    && HighBits(data[MESSAGE_POSITION_SEQ]) == MESSAGE_DEST
    && |data| >= data[MESSAGE_POSITION_LENGTH]
    && var len := data[MESSAGE_POSITION_LENGTH];
      && data[len - MESSAGE_TRAILER_SYNC] == MESSAGE_VALUE_SYNC
      && BigEndian(data[len - MESSAGE_TRAILER_CRC], data[len - MESSAGE_TRAILER_CRC + 1])
         == Crc16Of(data[..len - MESSAGE_TRAILER_SIZE])
  }

  /** The CRC check of a frame of length `len` at the front of `data`: the two
      bytes before the sync byte, big-endian, are the CRC of what precedes them. */
  predicate CrcMatches(data: seq<u8>, len: nat)
    requires MESSAGE_LENGTH_MIN <= len <= |data|
  {
    BigEndian(data[len - MESSAGE_TRAILER_CRC], data[len - MESSAGE_TRAILER_CRC + 1])
      == Crc16Of(data[..len - MESSAGE_TRAILER_SIZE])
  }

  /** The synchronised branch of the loop, for input that does not start with the
      sync byte. */
  function FrameStep<C(!new)>(s: State<C>, dispatch: Dispatcher<C>): (r: StepResult<C>)
    requires Advances(dispatch)
    requires s.data != []
    ensures r.Continue? ==> Measure(r.next) <= Measure(s) && IsSuffix(r.next.data, s.data)
    ensures r.Continue? && r.next.synced ==> |r.next.data| < |s.data|
  {
    if |s.data| < MESSAGE_LENGTH_MIN then Stop
    else
      WholeSuffix(s.data);
      var len := s.data[MESSAGE_POSITION_LENGTH];
      if !(MESSAGE_LENGTH_MIN <= len <= MESSAGE_LENGTH_MAX) then Continue(s.(synced := false), [])
      else
        var sq := s.data[MESSAGE_POSITION_SEQ];
        if HighBits(sq) != MESSAGE_DEST then Continue(s.(synced := false), [])
        else if |s.data| < len then Stop
        else FrameTrailer(s, len, dispatch)
  }

  /** The rest of `FrameStep` once the whole frame is present: the sync byte
      last and a matching CRC, then delivery. */
  function FrameTrailer<C(!new)>(s: State<C>, len: nat, dispatch: Dispatcher<C>): (r: StepResult<C>)
    requires Advances(dispatch)
    requires MESSAGE_LENGTH_MIN <= len <= |s.data| && HighBits(s.data[MESSAGE_POSITION_SEQ]) == MESSAGE_DEST
    ensures r.Continue? ==> Measure(r.next) <= Measure(s) && IsSuffix(r.next.data, s.data)
    ensures r.Continue? && r.next.synced ==> |r.next.data| < |s.data|
  {
    WholeSuffix(s.data);
    if s.data[len - MESSAGE_TRAILER_SYNC] != MESSAGE_VALUE_SYNC then Continue(s.(synced := false), [])
    else if !CrcMatches(s.data, len) then Continue(s.(synced := false), [])
    else
      SuffixAt(s.data, len);
      Deliver(s.nextSeq, s.ctx, s.data[MESSAGE_POSITION_SEQ], s.data[MESSAGE_HEADER_SIZE..len - MESSAGE_TRAILER_SIZE],
        s.data[len..], dispatch)
  }

  /** `a` is what is left of `b` after dropping bytes from its front. */
  predicate IsSuffix(a: seq<u8>, b: seq<u8>)
  {
    |a| <= |b| && a == b[|b| - |a|..]
  }

  lemma WholeSuffix(data: seq<u8>)
    ensures IsSuffix(data, data)
  {
  }

  lemma SuffixAt(data: seq<u8>, k: nat)
    requires k <= |data|
    ensures IsSuffix(data[k..], data)
  {
  }

  /** The outcomes of `FrameStep`, one per exit of the method that computes it. */
  lemma FrameStepStops<C(!new)>(s: State<C>, dispatch: Dispatcher<C>)
    requires Advances(dispatch) && s.data != []
    requires |s.data| < MESSAGE_LENGTH_MIN
      || (MESSAGE_LENGTH_MIN <= s.data[MESSAGE_POSITION_LENGTH] <= MESSAGE_LENGTH_MAX && HighBits(s.data[MESSAGE_POSITION_SEQ]) == MESSAGE_DEST
          && |s.data| < s.data[MESSAGE_POSITION_LENGTH])
    ensures FrameStep(s, dispatch) == Stop
  {
  }

  lemma FrameStepDrops<C(!new)>(s: State<C>, dispatch: Dispatcher<C>)
    requires Advances(dispatch) && |s.data| >= MESSAGE_LENGTH_MIN
    requires !(MESSAGE_LENGTH_MIN <= s.data[MESSAGE_POSITION_LENGTH] <= MESSAGE_LENGTH_MAX) || HighBits(s.data[MESSAGE_POSITION_SEQ]) != MESSAGE_DEST
      || (|s.data| >= s.data[MESSAGE_POSITION_LENGTH] && (s.data[s.data[MESSAGE_POSITION_LENGTH] - MESSAGE_TRAILER_SYNC] != MESSAGE_VALUE_SYNC || !CrcMatches(s.data, s.data[MESSAGE_POSITION_LENGTH])))
    ensures FrameStep(s, dispatch) == Continue(s.(synced := false), [])
  {
    if MESSAGE_LENGTH_MIN <= s.data[MESSAGE_POSITION_LENGTH] <= MESSAGE_LENGTH_MAX && HighBits(s.data[MESSAGE_POSITION_SEQ]) == MESSAGE_DEST {
      assert FrameStep(s, dispatch) == FrameTrailer(s, s.data[MESSAGE_POSITION_LENGTH], dispatch);
    }
  }

  lemma FrameStepDelivers<C(!new)>(s: State<C>, dispatch: Dispatcher<C>)
    requires Advances(dispatch) && |s.data| >= MESSAGE_LENGTH_MIN
    requires MESSAGE_LENGTH_MIN <= s.data[MESSAGE_POSITION_LENGTH] <= MESSAGE_LENGTH_MAX && HighBits(s.data[MESSAGE_POSITION_SEQ]) == MESSAGE_DEST
    requires |s.data| >= s.data[MESSAGE_POSITION_LENGTH] && s.data[s.data[MESSAGE_POSITION_LENGTH] - MESSAGE_TRAILER_SYNC] == MESSAGE_VALUE_SYNC && CrcMatches(s.data, s.data[MESSAGE_POSITION_LENGTH])
    ensures FrameStep(s, dispatch)
      == Deliver(s.nextSeq, s.ctx, s.data[MESSAGE_POSITION_SEQ], s.data[MESSAGE_HEADER_SIZE..s.data[MESSAGE_POSITION_LENGTH] - MESSAGE_TRAILER_SIZE], s.data[s.data[MESSAGE_POSITION_LENGTH]..], dispatch)
  {
    assert FrameStep(s, dispatch) == FrameTrailer(s, s.data[MESSAGE_POSITION_LENGTH], dispatch);
  }

  /** A frame that passed every check, with sequence byte `sq`, payload `frame` and
      `rest` after it: run through the dispatcher when `sq` is the expected sequence
      number (which then advances), and acknowledged in every case, unless a reply
      too long for the output buffer panics before the acknowledgement. */
  function Deliver<C(!new)>(nextSeq: u8, ctx: C, sq: u8, frame: seq<u8>, rest: seq<u8>, dispatch: Dispatcher<C>): (r: StepResult<C>)
    requires Advances(dispatch) && HighBits(sq) == MESSAGE_DEST
    ensures r.Panicked? <==> sq == nextSeq && !AllFit(RunFrame(frame, ctx, dispatch).replies)
    ensures r.Panicked? ==> |r.out| < |RunFrame(frame, ctx, dispatch).replies|
    ensures r.Continue? ==> r.next.synced && r.next.data == rest
    ensures r.Continue? ==> r.next.nextSeq == if sq == nextSeq then NextSeq(sq) else nextSeq
    ensures r.Continue? ==> |r.out| > 0 && r.out[|r.out| - 1] == AckNak(r.next.nextSeq)
  {
    if sq == nextSeq then
      var ns := NextSeq(sq);
      var run := RunFrame(frame, ctx, dispatch);
      if AllFit(run.replies) then Continue(State(true, ns, rest, run.ctx), Framed(ns, run.replies) + [AckNak(ns)])
      else
        FramedFrames(ns, run.replies);
        Panicked(Framed(ns, run.replies))
    else
      Continue(State(true, nextSeq, rest, ctx), [AckNak(nextSeq)])
  }

  /** One pass of the `while !data.is_empty()` loop of `receive`; `Stop` is the
      loop's exit (empty input or a `break`). */
  function Step<C(!new)>(s: State<C>, dispatch: Dispatcher<C>): (r: StepResult<C>)
    requires Advances(dispatch)
    ensures r.Continue? ==> Measure(r.next) < Measure(s)
    ensures r.Continue? ==> IsSuffix(r.next.data, s.data)
  {
    if s.data == [] then Stop
    else if !s.synced then
      match FindSync(s.data)
      case Some(n) => Continue(s.(synced := true, data := s.data[n + 1..]), [AckNak(s.nextSeq)])
      case None => Continue(s.(data := []), [])
    else if s.data[0] == MESSAGE_VALUE_SYNC then Continue(s.(data := s.data[1..]), [])
    else FrameStep(s, dispatch)
  }

  /** The whole loop: step until the input runs out or more input is needed. */
  function Scan<C(!new)>(s: State<C>, dispatch: Dispatcher<C>): Scanned<C>
    requires Advances(dispatch)
    decreases Measure(s)
  {
    match Step(s, dispatch)
    case Stop => Scanned(s, [], false)
    case Panicked(out) => Scanned(s, out, true)
    case Continue(t, out) =>
      var r := Scan(t, dispatch);
      Scanned(r.final, out + r.out, r.panicked)
  }

  // ---------------------------------------------------------------------------
  // Properties of one step

  /** In synchronised state, a byte other than the sync byte starts a frame, and the
      frame is consumed (the state staying synchronised) or its replies panic exactly
      when it is valid. */
  lemma StepAcceptsValidFrames<C(!new)>(s: State<C>, dispatch: Dispatcher<C>)
    requires Advances(dispatch)
    requires s.synced && s.data != [] && s.data[0] != MESSAGE_VALUE_SYNC
    ensures var r := Step(s, dispatch);
      (r.Panicked? || (r.Continue? && r.next.synced && |s.data| >= s.data[0] && r.next.data == s.data[s.data[0]..]))
      <==> ValidFrame(s.data)
  {
    var d := s.data;
    if ValidFrame(d) {
      FrameStepDelivers(s, dispatch);
    } else if |d| < MESSAGE_LENGTH_MIN || (MESSAGE_LENGTH_MIN <= d[0] <= MESSAGE_LENGTH_MAX && HighBits(d[1]) == MESSAGE_DEST && |d| < d[0]) {
      FrameStepStops(s, dispatch);
    } else {
      FrameStepDrops(s, dispatch);
    }
  }

  /** A full-length candidate with a bad length, destination, sync byte or CRC clears
      the synchronised flag, consumes nothing and sends nothing; too little input
      stops the loop. */
  lemma StepRejects<C(!new)>(s: State<C>, dispatch: Dispatcher<C>)
    requires Advances(dispatch)
    requires s.synced && s.data != [] && s.data[0] != MESSAGE_VALUE_SYNC
    ensures !ValidFrame(s.data) ==>
      Step(s, dispatch) == Stop || Step(s, dispatch) == Continue(s.(synced := false), [])
    ensures Step(s, dispatch) == Stop <==>
      |s.data| < MESSAGE_LENGTH_MIN
      || (MESSAGE_LENGTH_MIN <= s.data[0] <= MESSAGE_LENGTH_MAX
          && HighBits(s.data[1]) == MESSAGE_DEST && |s.data| < s.data[0])
  {
  }

  /** A sync byte in synchronised state is skipped. */
  lemma StepSkipsSync<C(!new)>(s: State<C>, dispatch: Dispatcher<C>)
    requires Advances(dispatch)
    requires s.synced && s.data != [] && s.data[0] == MESSAGE_VALUE_SYNC
    ensures Step(s, dispatch) == Continue(s.(data := s.data[1..]), [])
  {
  }

  /** Out of sync, everything up to and including the next sync byte is dropped and
      an ack/nak goes out; with no sync byte the whole input is dropped silently. */
  lemma StepResynchronises<C(!new)>(s: State<C>, dispatch: Dispatcher<C>)
    requires Advances(dispatch)
    requires !s.synced && s.data != []
    ensures MESSAGE_VALUE_SYNC in s.data ==> exists n :: (0 <= n < |s.data| && s.data[n] == MESSAGE_VALUE_SYNC
      && MESSAGE_VALUE_SYNC !in s.data[..n]
      && Step(s, dispatch) == Continue(s.(synced := true, data := s.data[n + 1..]), [AckNak(s.nextSeq)]))
    ensures MESSAGE_VALUE_SYNC !in s.data ==> Step(s, dispatch) == Continue(s.(data := []), [])
  {
    match FindSync(s.data)
    case Some(n) =>
      assert MESSAGE_VALUE_SYNC !in s.data[..n];
    case None =>
      assert MESSAGE_VALUE_SYNC !in s.data;
  }

  /** A valid frame carrying the expected sequence number is delivered: its payload
      runs through the dispatcher, the sequence advances, replies go out with the new
      sequence number followed by the ack, or panic at the first reply too long for
      the output buffer. Any other valid frame is only acknowledged. */
  lemma StepDelivers<C(!new)>(s: State<C>, dispatch: Dispatcher<C>)
    requires Advances(dispatch)
    requires s.synced && s.data != [] && s.data[0] != MESSAGE_VALUE_SYNC && ValidFrame(s.data)
    ensures var len := s.data[0]; var frame := s.data[2..len - 3]; var rest := s.data[len..];
      if s.data[1] == s.nextSeq then
        var ns := NextSeq(s.data[1]);
        var run := RunFrame(frame, s.ctx, dispatch);
        Step(s, dispatch) == if AllFit(run.replies) then Continue(State(true, ns, rest, run.ctx), Framed(ns, run.replies) + [AckNak(ns)])
          else Panicked(Framed(ns, run.replies))
      else
        Step(s, dispatch) == Continue(s.(data := rest), [AckNak(s.nextSeq)])
  {
  }

  // ---------------------------------------------------------------------------
  // Properties of the loop

  /** The recursion of `Scan`, one pass at a time. */
  lemma ScanUnfold<C(!new)>(s: State<C>, dispatch: Dispatcher<C>)
    requires Advances(dispatch)
    ensures Step(s, dispatch).Stop? ==> Scan(s, dispatch) == Scanned(s, [], false)
    ensures Step(s, dispatch).Panicked? ==> Scan(s, dispatch) == Scanned(s, Step(s, dispatch).out, true)
    ensures Step(s, dispatch).Continue? ==>
      var t := Step(s, dispatch).next; var r := Scan(t, dispatch);
      Scan(s, dispatch) == Scanned(r.final, Step(s, dispatch).out + r.out, r.panicked)
  {
  }

  /** The expected sequence number always stays in 0x10..0x1F. */
  lemma {:induction false} ScanKeepsSeqInRange<C(!new)>(s: State<C>, dispatch: Dispatcher<C>)
    requires Advances(dispatch) && 0x10 <= s.nextSeq < 0x20
    ensures 0x10 <= Scan(s, dispatch).final.nextSeq < 0x20
    decreases Measure(s)
  {
    match Step(s, dispatch)
    case Stop =>
    case Panicked(_) =>
    case Continue(t, _) => ScanKeepsSeqInRange(t, dispatch);
  }

  /** What is left unread is a suffix of the input: `receive` only drops a prefix. */
  lemma {:induction false} ScanLeavesSuffix<C(!new)>(s: State<C>, dispatch: Dispatcher<C>)
    requires Advances(dispatch)
    ensures IsSuffix(Scan(s, dispatch).final.data, s.data)
    decreases Measure(s)
  {
    match Step(s, dispatch)
    case Stop =>
    case Panicked(_) =>
    case Continue(t, _) =>
      ScanLeavesSuffix(t, dispatch);
      var f := Scan(t, dispatch).final;
      SuffixOfSuffix(s.data, t.data, f.data);
  }

  /** A suffix of a suffix is a suffix. */
  lemma SuffixOfSuffix(a: seq<u8>, b: seq<u8>, c: seq<u8>)
    requires IsSuffix(b, a) && IsSuffix(c, b)
    ensures IsSuffix(c, a)
  {
    assert b[|b| - |c|..] == a[|a| - |c|..];
  }

  /** The loop only exits needing more input: what is left is empty or the start
      of a synchronised frame that is not yet complete. Otherwise it ended in the
      panic of a pass on a valid frame. */
  lemma {:induction false} ScanStopsOnlyForInput<C(!new)>(s: State<C>, dispatch: Dispatcher<C>)
    requires Advances(dispatch)
    ensures var r := Scan(s, dispatch); r.panicked <==> Step(r.final, dispatch).Panicked?
    ensures var r := Scan(s, dispatch); r.panicked ==> r.final.synced && ValidFrame(r.final.data)
    ensures var r := Scan(s, dispatch); !r.panicked ==> Step(r.final, dispatch) == Stop
    ensures var r := Scan(s, dispatch); var f := r.final; !r.panicked ==>
      f.data == [] || (f.synced && f.data[0] != MESSAGE_VALUE_SYNC && (|f.data| < MESSAGE_LENGTH_MIN || |f.data| < f.data[0]))
    decreases Measure(s)
  {
    match Step(s, dispatch)
    case Stop =>
    case Panicked(_) =>
      if s.data != [] && s.synced && s.data[0] != MESSAGE_VALUE_SYNC {
        StepAcceptsValidFrames(s, dispatch);
      }
    case Continue(t, _) => ScanStopsOnlyForInput(t, dispatch);
  }

  // ---------------------------------------------------------------------------
  // Round trips between the encoder and the receiver

  /** The ack/nak is the empty frame for its sequence number. */
  lemma AckNakIsEmptyFrame(ns: u8)
    ensures AckNak(ns) == FrameBytes(ns, [])
  {
    assert [5, ns] + [] == [5, ns];
  }

  /** Every frame the encoder builds within the frame limit passes the receiver's
      checks, and its fields are where the receiver looks for them. */
  lemma {:induction false} FrameBytesValid(ns: u8, payload: seq<u8>, rest: seq<u8>)
    requires 0x10 <= ns < 0x20
    requires |payload| + MESSAGE_LENGTH_MIN <= MESSAGE_LENGTH_MAX
    ensures var data := FrameBytes(ns, payload) + rest; var len := |payload| + MESSAGE_LENGTH_MIN;
      && ValidFrame(data) && data[0] == len && data[1] == ns
      && data[2..len - 3] == payload && data[len..] == rest
  {
    var header := [|payload| + MESSAGE_LENGTH_MIN, ns];
    var f := FrameBytes(ns, payload);
    var data := f + rest;
    var len := |payload| + MESSAGE_LENGTH_MIN;
    assert data[..len] == f;
    assert data[..len - MESSAGE_TRAILER_SIZE] == header + payload;
    assert data[0] == len && data[1] == ns;
    var t := Trailer(Crc16Of(header + payload));
    assert data[len - 3] == t[0] && data[len - 2] == t[1] && data[len - 1] == t[2];
    assert data[2..len - 3] == payload;
    assert data[len..] == rest;
  }

  /** A frame built for the expected sequence number and received in synchronised
      state delivers exactly its payload and consumes exactly the frame. */
  lemma {:induction false} FrameRoundTrip<C(!new)>(s: State<C>, payload: seq<u8>, rest: seq<u8>, dispatch: Dispatcher<C>)
    requires Advances(dispatch)
    requires s.synced && 0x10 <= s.nextSeq < 0x20
    requires |payload| + MESSAGE_LENGTH_MIN <= MESSAGE_LENGTH_MAX
    requires s.data == FrameBytes(s.nextSeq, payload) + rest
    ensures var ns := NextSeq(s.nextSeq); var run := RunFrame(payload, s.ctx, dispatch);
      Step(s, dispatch) == if AllFit(run.replies) then Continue(State(true, ns, rest, run.ctx), Framed(ns, run.replies) + [AckNak(ns)])
        else Panicked(Framed(ns, run.replies))
  {
    FrameBytesValid(s.nextSeq, payload, rest);
    StepDelivers(s, dispatch);
  }

  /** The same frame arriving a second time (its sequence number no longer the
      expected one) is acknowledged but not delivered again. */
  lemma {:induction false} RetransmissionIgnored<C(!new)>(s: State<C>, sq: u8, payload: seq<u8>, rest: seq<u8>, dispatch: Dispatcher<C>)
    requires Advances(dispatch)
    requires s.synced && 0x10 <= sq < 0x20 && sq != s.nextSeq
    requires |payload| + MESSAGE_LENGTH_MIN <= MESSAGE_LENGTH_MAX
    requires s.data == FrameBytes(sq, payload) + rest
    ensures Step(s, dispatch) == Continue(s.(data := rest), [AckNak(s.nextSeq)])
  {
    FrameBytesValid(sq, payload, rest);
    StepDelivers(s, dispatch);
  }

  // ---------------------------------------------------------------------------
  // The transport object

  /** The end of `encode_frame` once header and payload are written from
      `cursor` on: the length byte patched to the frame's length, then the
      trailer with the CRC of everything since the cursor, which panics when it
      does not fit. */
  method FinishFrame(output: ScratchOutput, cursor: nat, ns: u8, payload: seq<u8>) returns (ok: bool)
    requires output.Valid() && output.maxSize == OUTPUT_CAPACITY && cursor == 0
    requires output.Result() == [0, ns] + payload
    modifies output`idx, output.buffer
    ensures output.Valid()
    ensures ok <==> Fits(payload)
    ensures ok ==> output.Result() == FrameBytes(ns, payload)
  {
    var changed := |output.DataSince(cursor)|;
    assert changed == |payload| + MESSAGE_HEADER_SIZE;
    output.Update(cursor, AsU8(changed + MESSAGE_TRAILER_SIZE));
    ghost var header: seq<u8> := [AsU8(changed + MESSAGE_TRAILER_SIZE), ns];
    assert output.Result() == header + payload;
    var crc := Crc16(output.DataSince(cursor));
    assert crc == Crc16Of(header + payload);
    var trailer := Trailer(crc);
    ok := output.Output(trailer);
    if ok {
      AsU8Small(changed + MESSAGE_TRAILER_SIZE);
    }
  }

  class Transport {
    /** `is_synchronized`. */
    var isSynchronized: bool
    /** `next_sequence`. */
    var nextSequence: u8
    /** Every message handed to the transport output, oldest first. */
    var sent: seq<seq<u8>>

    /** `Transport::new`: synchronised, expecting sequence 0x10. */
    constructor ()
      ensures isSynchronized && nextSequence == MESSAGE_DEST && sent == []
    {
      isSynchronized := true;
      nextSequence := MESSAGE_DEST;
      sent := [];
    }

    /** `encode_acknak`. */
    method EncodeAcknak()
      modifies this`sent
      ensures sent == old(sent) + [AckNak(nextSequence)]
    {
      var ns := nextSequence;
      var crc := Crc16([5, ns]);
      var output := new ScratchOutput(OUTPUT_CAPACITY);
      var msg: seq<u8> := [5, ns] + Trailer(crc);
      var fits := output.Output(msg);
      assert fits && [] + msg == msg;
      sent := sent + [output.Result()];
    }

    /** `encode_frame(f)`, where `f` writes `payload`: header, payload and trailer go
        into a fresh 64-byte `ScratchOutput`, whose `output` panics (`ok` false,
        nothing sent) on the first piece that does not fit. */
    method EncodeFrame(payload: seq<u8>) returns (ok: bool)
      modifies this`sent
      ensures ok <==> Fits(payload)
      ensures ok ==> sent == old(sent) + [FrameBytes(nextSequence, payload)]
      ensures !ok ==> sent == old(sent)
    {
      var ns := nextSequence;
      var output := new ScratchOutput(OUTPUT_CAPACITY);
      var cursor := output.CurPosition();
      var headerFits := output.Output([0, ns]);
      assert headerFits;
      ok := output.Output(payload);
      if !ok {
        return;
      }
      assert output.Result() == [0, ns] + payload;
      ok := FinishFrame(output, cursor, ns, payload);
      if !ok {
        return;
      }
      sent := sent + [output.Result()];
    }

    /** The reply sends a handler makes through `encode_frame`, one after another,
        up to the first that panics. */
    method SendReplies(replies: seq<seq<u8>>) returns (ok: bool)
      modifies this`sent
      ensures ok <==> AllFit(replies)
      ensures sent == old(sent) + Framed(nextSequence, replies)
    {
      var ns := nextSequence;
      var i := 0;
      while i < |replies|
        invariant 0 <= i <= |replies| && nextSequence == ns
        invariant AllFit(replies[..i])
        invariant sent == old(sent) + Framed(ns, replies[..i])
      {
        ok := EncodeFrame(replies[i]);
        if !ok {
          FramedNextStops(ns, replies, i);
          return;
        }
        FramedNextFits(ns, replies, i);
        AppendAssoc(old(sent), Framed(ns, replies[..i]), [FrameBytes(ns, replies[i])]);
        i := i + 1;
      }
      assert replies[..i] == replies;
      ok := true;
    }

    /** The body of the `parse_frame` loop, with the handler's reply sends. */
    method ParseCommand<C(!new)>(cur: seq<u8>, ctx: C, dispatch: Dispatcher<C>) returns (r: CommandStep<C>, ok: bool)
      requires Advances(dispatch)
      modifies this`sent
      ensures r == Command(cur, ctx, dispatch)
      ensures ok <==> AllFit(r.replies)
      ensures sent == old(sent) + Framed(nextSequence, r.replies)
    {
      var n := ParseVlqInt(cur);
      if n.result.Err? {
        return Done(n.result.PropagateFailure(), ctx, []), true;
      }
      DecodeVlqSuffix(cur);
      var cmd := AsU16(n.result.value);
      var d := dispatch(cmd, n.rest, ctx);
      ok := SendReplies(d.replies);
      if d.result.Err? {
        return Done(d.result, d.ctx, d.replies), ok;
      }
      r := More(d.rest, d.ctx, d.replies);
    }

    /** `parse_frame`. A reply that panics ends it (`ok` false). */
    method ParseFrame<C(!new)>(frame: seq<u8>, ctx: C, dispatch: Dispatcher<C>) returns (result: Result<(), ReadError>, ctxOut: C, ok: bool)
      requires Advances(dispatch)
      modifies this`sent
      ensures var run := RunFrame(frame, ctx, dispatch);
        && (ok <==> AllFit(run.replies))
        && sent == old(sent) + Framed(nextSequence, run.replies)
        && (ok ==> result == run.result && ctxOut == run.ctx)
    {
      var cur := frame;
      ctxOut := ctx;
      ghost var replies: seq<seq<u8>> := [];
      assert replies + RunFrame(cur, ctxOut, dispatch).replies == RunFrame(cur, ctxOut, dispatch).replies;
      while cur != []
        invariant var t := RunFrame(cur, ctxOut, dispatch);
          RunFrame(frame, ctx, dispatch) == FrameRun(t.result, t.ctx, replies + t.replies)
        invariant AllFit(replies)
        invariant sent == old(sent) + Framed(nextSequence, replies)
        decreases |cur|
      {
        var c, sentOk := ParseCommand(cur, ctxOut, dispatch);
        RunFrameUnfold(cur, ctxOut, dispatch);
        ghost var before := replies;
        FramedAppend(nextSequence, before, c.replies);
        AppendAssoc(old(sent), Framed(nextSequence, before), Framed(nextSequence, c.replies));
        if !sentOk {
          ghost var after := if c.More? then RunFrame(c.rest, c.ctx, dispatch).replies else [];
          AppendAssoc(c.replies, [], []);
          assert RunFrame(cur, ctxOut, dispatch).replies == c.replies + after;
          FramedAppend(nextSequence, before, c.replies + after);
          FramedAppend(nextSequence, c.replies, after);
          return Ok(()), c.ctx, false;
        }
        replies := replies + c.replies;
        ctxOut := c.ctx;
        if c.Done? {
          return c.result, ctxOut, true;
        }
        cur := c.rest;
        AppendAssoc(before, c.replies, RunFrame(cur, ctxOut, dispatch).replies);
      }
      assert replies + [] == replies;
      result, ok := Ok(()), true;
    }

    /** The end of the synchronised branch, for a frame that passed every check:
        deliver it when it carries the expected sequence number, then acknowledge.
        A reply that panics ends it (`ok` false). */
    method AcceptFrame<C(!new)>(sq: u8, frame: seq<u8>, rest: seq<u8>, ctx: C, dispatch: Dispatcher<C>) returns (ctxOut: C, ok: bool)
      requires Advances(dispatch) && HighBits(sq) == MESSAGE_DEST
      modifies this`isSynchronized, this`nextSequence, this`sent
      ensures var r := Deliver(old(nextSequence), ctx, sq, frame, rest, dispatch);
        && (ok <==> !r.Panicked?)
        && sent == old(sent) + r.out
        && (ok ==> r.next == State(isSynchronized, nextSequence, rest, ctxOut))
    {
      isSynchronized := true;
      ctxOut := ctx;
      if sq == nextSequence {
        nextSequence := NextSeq(sq);
        var _, c, frameOk := ParseFrame(frame, ctxOut, dispatch);
        if !frameOk {
          return c, false;
        }
        ctxOut := c;
        EncodeAcknak();
        AppendAssoc(old(sent), Framed(nextSequence, RunFrame(frame, ctx, dispatch).replies), [AckNak(nextSequence)]);
      } else {
        EncodeAcknak();
      }
      ok := true;
    }

    /** The synchronised branch of the `receive` loop for input that does not start
        with the sync byte: check one candidate frame, deliver or acknowledge it.
        `stop` is the loop's `break`; `ok` false is a panic. */
    method ReceiveFrame<C(!new)>(data: seq<u8>, ctx: C, dispatch: Dispatcher<C>)
      returns (stop: bool, dataOut: seq<u8>, ctxOut: C, ok: bool)
      requires Advances(dispatch) && data != []
      modifies this`isSynchronized, this`nextSequence, this`sent
      ensures var r := FrameStep(State(old(isSynchronized), old(nextSequence), data, ctx), dispatch);
        && (ok <==> !r.Panicked?)
        && if r.Stop? then
          stop && isSynchronized == old(isSynchronized) && nextSequence == old(nextSequence) && sent == old(sent)
          && dataOut == data && ctxOut == ctx
        else if r.Continue? then
          !stop && r.next == State(isSynchronized, nextSequence, dataOut, ctxOut) && sent == old(sent) + r.out
        else
          sent == old(sent) + r.out
    {
      ghost var s := State(isSynchronized, nextSequence, data, ctx);
      dataOut, ctxOut := data, ctx;
      stop, ok := false, true;
      if |data| < MESSAGE_LENGTH_MIN {
        FrameStepStops(s, dispatch);
        return true, dataOut, ctxOut, true;
      }
      var len := data[MESSAGE_POSITION_LENGTH];
      var sq := data[MESSAGE_POSITION_SEQ];
      if !(MESSAGE_LENGTH_MIN <= len <= MESSAGE_LENGTH_MAX) || HighBits(sq) != MESSAGE_DEST {
        isSynchronized := false;
        FrameStepDrops(s, dispatch);
        assert sent == old(sent) + [];
        return;
      }
      if |data| < len {
        FrameStepStops(s, dispatch);
        return true, dataOut, ctxOut, true;
      }
      assert FrameStep(s, dispatch) == FrameTrailer(s, len, dispatch);
      dataOut, ctxOut, ok := ReceiveTrailer(data, len, ctx, dispatch);
    }

    /** The checks of a frame whose `len` bytes are all present: the sync byte
        last and a matching CRC, then delivery. */
    method ReceiveTrailer<C(!new)>(data: seq<u8>, len: nat, ctx: C, dispatch: Dispatcher<C>)
      returns (dataOut: seq<u8>, ctxOut: C, ok: bool)
      requires Advances(dispatch)
      requires MESSAGE_LENGTH_MIN <= len <= |data| && HighBits(data[MESSAGE_POSITION_SEQ]) == MESSAGE_DEST
      modifies this`isSynchronized, this`nextSequence, this`sent
      ensures var r := FrameTrailer(State(old(isSynchronized), old(nextSequence), data, ctx), len, dispatch);
        && (ok <==> !r.Panicked?)
        && (r.Continue? ==> r.next == State(isSynchronized, nextSequence, dataOut, ctxOut) && sent == old(sent) + r.out)
        && (r.Panicked? ==> sent == old(sent) + r.out)
    {
      ghost var s := State(isSynchronized, nextSequence, data, ctx);
      dataOut, ctxOut, ok := data, ctx, true;
      var frameCrc := BigEndian(data[len - MESSAGE_TRAILER_CRC], data[len - MESSAGE_TRAILER_CRC + 1]);
      var actualCrc := Crc16(data[0..len - MESSAGE_TRAILER_SIZE]);
      assert data[0..len - MESSAGE_TRAILER_SIZE] == data[..len - MESSAGE_TRAILER_SIZE];
      assert frameCrc == actualCrc <==> CrcMatches(data, len);
      if data[len - MESSAGE_TRAILER_SYNC] != MESSAGE_VALUE_SYNC || frameCrc != actualCrc {
        isSynchronized := false;
        assert sent == old(sent) + [];
        return;
      }
      var sq := data[MESSAGE_POSITION_SEQ];
      var frame := data[MESSAGE_HEADER_SIZE..len - MESSAGE_TRAILER_SIZE];
      dataOut := data[len..];
      ctxOut, ok := AcceptFrame(sq, frame, dataOut, ctx, dispatch);
    }

    /** One pass of the `receive` loop. `stop` is the loop's exit; `ok` false is a
        panic. */
    method ReceiveStep<C(!new)>(data: seq<u8>, ctx: C, dispatch: Dispatcher<C>)
      returns (stop: bool, dataOut: seq<u8>, ctxOut: C, ok: bool)
      requires Advances(dispatch)
      modifies this`isSynchronized, this`nextSequence, this`sent
      ensures var r := Step(State(old(isSynchronized), old(nextSequence), data, ctx), dispatch);
        && (ok <==> !r.Panicked?)
        && if r.Stop? then
          stop && isSynchronized == old(isSynchronized) && nextSequence == old(nextSequence) && sent == old(sent)
          && dataOut == data && ctxOut == ctx
        else if r.Continue? then
          !stop && r.next == State(isSynchronized, nextSequence, dataOut, ctxOut) && sent == old(sent) + r.out
        else
          sent == old(sent) + r.out
    {
      dataOut, ctxOut := data, ctx;
      stop, ok := false, true;
      if data == [] {
        return true, dataOut, ctxOut, true;
      }
      if !isSynchronized {
        match FindSync(data) {
          case Some(n) =>
            dataOut := data[n + 1..];
            isSynchronized := true;
            EncodeAcknak();
          case None =>
            dataOut := [];
            assert sent == old(sent) + [];
        }
      } else if data[0] == MESSAGE_VALUE_SYNC {
        dataOut := data[1..];
        assert sent == old(sent) + [];
      } else {
        stop, dataOut, ctxOut, ok := ReceiveFrame(data, ctx, dispatch);
      }
    }

    /** The loop of `receive` over the bytes `input.data()`; returns what is left
        unread and the context after every delivered frame, or `ok` false when a
        reply panicked. */
    method ReceiveData<C(!new)>(input: seq<u8>, ctx: C, dispatch: Dispatcher<C>) returns (rest: seq<u8>, ctxOut: C, ok: bool)
      requires Advances(dispatch)
      modifies this`isSynchronized, this`nextSequence, this`sent
      ensures var r := Scan(State(old(isSynchronized), old(nextSequence), input, ctx), dispatch);
        && (ok <==> !r.panicked) && sent == old(sent) + r.out
        && (ok ==> State(isSynchronized, nextSequence, rest, ctxOut) == r.final)
    {
      ghost var goal := Scan(State(isSynchronized, nextSequence, input, ctx), dispatch);
      ghost var out: seq<seq<u8>> := [];
      rest := input;
      ctxOut := ctx;
      AppendAssoc(old(sent), [], []);
      AppendAssoc([], [], goal.out);
      while true
        invariant Scan(State(isSynchronized, nextSequence, rest, ctxOut), dispatch).final == goal.final
        invariant Scan(State(isSynchronized, nextSequence, rest, ctxOut), dispatch).panicked == goal.panicked
        invariant goal.out == out + Scan(State(isSynchronized, nextSequence, rest, ctxOut), dispatch).out
        invariant sent == old(sent) + out
        decreases Measure(State(isSynchronized, nextSequence, rest, ctxOut))
      {
        ghost var s := State(isSynchronized, nextSequence, rest, ctxOut);
        ScanUnfold(s, dispatch);
        var stop, stepOk;
        stop, rest, ctxOut, stepOk := ReceiveStep(rest, ctxOut, dispatch);
        if !stepOk {
          AppendAssoc(old(sent), out, Step(s, dispatch).out);
          return rest, ctxOut, false;
        }
        if stop {
          AppendAssoc(out, [], []);
          return rest, ctxOut, true;
        }
        ghost var o := Step(s, dispatch).out;
        ghost var t := State(isSynchronized, nextSequence, rest, ctxOut);
        AppendAssoc(out, o, Scan(t, dispatch).out);
        AppendAssoc(old(sent), out, o);
        out := out + o;
      }
    }

    /** `receive` on a `SliceInputBuffer`: run the loop, then pop what was consumed.
        A panic (`ok` false) pops nothing. */
    method ReceiveSlice<C(!new)>(input: SliceInputBuffer, ctx: C, dispatch: Dispatcher<C>) returns (ctxOut: C, ok: bool)
      requires Advances(dispatch)
      modifies this`isSynchronized, this`nextSequence, this`sent, input
      ensures var r := Scan(State(old(isSynchronized), old(nextSequence), old(input.Data()), ctx), dispatch);
        && (ok <==> !r.panicked) && sent == old(sent) + r.out
        && (ok ==> State(isSynchronized, nextSequence, input.Data(), ctxOut) == r.final)
      ensures !ok ==> input.Data() == old(input.Data())
    {
      ghost var s := State(isSynchronized, nextSequence, input.Data(), ctx);
      var rest;
      rest, ctxOut, ok := ReceiveData(input.Data(), ctx, dispatch);
      if !ok {
        return;
      }
      ScanLeavesSuffix(s, dispatch);
      var consumed := input.Available() - |rest|;
      if consumed > 0 {
        input.Pop(consumed);
      } else {
        assert rest == s.data;
      }
    }

    /** `receive` on a `Vec<u8>` input buffer. A panic (`ok` false) pops nothing. */
    method ReceiveVec<C(!new)>(input: VecInputBuffer, ctx: C, dispatch: Dispatcher<C>) returns (ctxOut: C, ok: bool)
      requires Advances(dispatch)
      modifies this`isSynchronized, this`nextSequence, this`sent, input
      ensures var r := Scan(State(old(isSynchronized), old(nextSequence), old(input.Data()), ctx), dispatch);
        && (ok <==> !r.panicked) && sent == old(sent) + r.out
        && (ok ==> State(isSynchronized, nextSequence, input.Data(), ctxOut) == r.final)
      ensures !ok ==> input.Data() == old(input.Data())
    {
      ghost var s := State(isSynchronized, nextSequence, input.Data(), ctx);
      var rest;
      rest, ctxOut, ok := ReceiveData(input.Data(), ctx, dispatch);
      if !ok {
        return;
      }
      ScanLeavesSuffix(s, dispatch);
      var consumed := input.Available() - |rest|;
      if consumed > 0 {
        input.Pop(consumed);
      } else {
        assert rest == s.data;
      }
    }
  }
}
