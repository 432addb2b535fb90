/** The two `OutputBuffer` implementations: the fixed-capacity `ScratchOutput`,
    whose `output` panics on what does not fit, and the growable `Vec<u8>`. */
module OutputBuffers {
  import opened Types

  /** What a buffer of capacity `cap` keeps of the byte stream `s`. */
  function Truncated(s: seq<u8>, cap: nat): (r: seq<u8>)
    ensures |r| == Min(|s|, cap)
    ensures r == s[..|r|]
  {
    if |s| <= cap then s else s[..cap]
  }

  /** Appending to a truncated stream and truncating again is the same as
      truncating the whole stream once: writes may be split freely. */
  lemma TruncatedAppend(a: seq<u8>, b: seq<u8>, cap: nat)
    requires |a| <= cap
    ensures Truncated(Truncated(a, cap) + b, cap) == Truncated(a + b, cap)
  {
  }

  lemma {:induction false} TruncatedTwice(a: seq<u8>, b: seq<u8>, c: seq<u8>, cap: nat)
    ensures Truncated(Truncated(a + b, cap) + c, cap) == Truncated(a + b + c, cap)
  {
    if |a + b| <= cap {
      assert Truncated(a + b, cap) == a + b;
    } else {
      var t := Truncated(a + b, cap);
      assert t == (a + b)[..cap];
      assert Truncated(t + c, cap) == t;
      assert (a + b + c)[..cap] == (a + b)[..cap];
    }
  }

  /** The bytes of an array after `len` bytes of `buf` were copied in at `at`. */
  lemma WrittenPrefix(before: seq<u8>, after: seq<u8>, at: nat, buf: seq<u8>, len: nat)
    requires |after| == |before| && at + len <= |before| && len <= |buf|
    requires forall k :: 0 <= k < at ==> after[k] == before[k]
    requires forall k :: 0 <= k < len ==> after[at + k] == buf[k]
    requires forall k :: at + len <= k < |before| ==> after[k] == before[k]
    ensures after[..at + len] == before[..at] + buf[..len]
    ensures after[at + len..] == before[at + len..]
  {
  }

  /** Appending what fits of `buf` keeps the truncated stream. */
  lemma TruncatedWrite(a: seq<u8>, buf: seq<u8>, cap: nat, len: nat)
    requires |a| <= cap && len == Min(|buf|, cap - |a|)
    ensures a + buf[..len] == Truncated(a + buf, cap)
  {
  }

  /** `ScratchOutput<MAX_SIZE>`: an inline array and a fill index. */
  class ScratchOutput {
    const maxSize: nat
    const buffer: array<u8>
    var idx: nat

    ghost predicate Valid()
      reads this
    {
      buffer.Length == maxSize && idx <= maxSize
    }

    /** `result()`: the bytes written since the last reset. */
    function Result(): (r: seq<u8>)
      reads this, buffer
      requires Valid()
      ensures |r| == idx
    {
      buffer[..idx]
    }

    /** `new()`: an empty buffer of the given capacity. */
    constructor (size: nat)
      ensures Valid() && maxSize == size && fresh(buffer)
      ensures Result() == [] && idx == 0
    {
      maxSize := size;
      buffer := new u8[size](_ => 0);
      idx := 0;
    }

    /** `reset()`: forget everything written. */
    method Reset()
      requires Valid()
      modifies this`idx
      ensures Valid() && idx == 0 && Result() == []
    {
      idx := 0;
    }

    /** `output(buf)`: the length is clamped to the free space, but the copy
        into `area[..len]` panics unless that is all of `buf`; so `buf` goes in
        whole when it fits, and otherwise the call panics (`ok` false) before
        writing anything. */
    method Output(buf: seq<u8>) returns (ok: bool)
      requires Valid()
      modifies this`idx, buffer
      ensures Valid()
      ensures ok <==> |buf| <= maxSize - old(idx)
      ensures ok ==> idx == old(idx) + |buf| && Result() == old(Result()) + buf
      ensures !ok ==> idx == old(idx) && buffer[..] == old(buffer[..])
      ensures buffer[idx..] == old(buffer[..])[idx..]
    {
      var len := Min(|buf|, maxSize - idx);
      if len != |buf| {
        return false;
      }
      CopyIn(buf, len);
      idx := idx + len;
      ok := true;
    }

    /** `output` as its documentation describes it: append as much of `buf` as
        fits and drop the rest. */
    method OutputTruncating(buf: seq<u8>)
      requires Valid()
      modifies this`idx, buffer
      ensures Valid()
      ensures idx == old(idx) + Min(|buf|, maxSize - old(idx))
      ensures Result() == Truncated(old(Result()) + buf, maxSize)
      ensures buffer[idx..] == old(buffer[..])[idx..]
    {
      var len := Min(|buf|, maxSize - idx);
      CopyIn(buf, len);
      TruncatedWrite(old(Result()), buf, maxSize, len);
      idx := idx + len;
    }

    /** `area[..len].copy_from_slice(&buf[..len])` at the fill index. */
    method CopyIn(buf: seq<u8>, len: nat)
      requires Valid() && len <= |buf| && len <= maxSize - idx
      modifies buffer
      ensures Valid()
      ensures buffer[..idx + len] == old(buffer[..idx]) + buf[..len]
      ensures buffer[idx + len..] == old(buffer[..])[idx + len..]
    {
      var i := 0;
      while i < len
        invariant 0 <= i <= len && Valid()
        invariant forall k :: 0 <= k < idx ==> buffer[k] == old(buffer[k])
        invariant forall k :: 0 <= k < i ==> buffer[idx + k] == buf[k]
        invariant forall k :: idx + i <= k < maxSize ==> buffer[k] == old(buffer[k])
      {
        buffer[idx + i] := buf[i];
        i := i + 1;
      }
      WrittenPrefix(old(buffer[..]), buffer[..], idx, buf, len);
    }

    /** `cur_position()`: the index the next byte will be written at. */
    function CurPosition(): (c: nat)
      reads this
      requires Valid()
      ensures c <= maxSize
    {
      idx
    }

    /** `update(cursor, value)`: overwrite one already written byte; a cursor
        at or past the fill index changes nothing. */
    method Update(cursor: nat, value: u8)
      requires Valid()
      modifies buffer
      ensures Valid()
      ensures buffer[..] == if cursor < idx then old(buffer[..])[cursor := value] else old(buffer[..])
    {
      if cursor < idx {
        buffer[cursor] := value;
      }
    }

    /** `data_since(cursor)`: the bytes written from `cursor` on. */
    function DataSince(cursor: nat): (r: seq<u8>)
      reads this, buffer
      requires Valid()
      ensures cursor >= idx ==> r == []
      ensures cursor < idx ==> r == Result()[cursor..]
    {
      if cursor >= idx then [] else buffer[cursor..idx]
    }
  }

  /** Three bytes into a two-byte buffer: `output` panics, where the documented
      truncating write keeps the first two. */
  method OverlongOutput() returns (ok: bool, kept: seq<u8>)
    ensures !ok && kept == [1, 2]
  {
    var out := new ScratchOutput(2);
    ok := out.Output([1, 2, 3]);
    var fixed := new ScratchOutput(2);
    fixed.OutputTruncating([1, 2, 3]);
    kept := fixed.Result();
  }

  /** The `Vec<u8>` implementation of `OutputBuffer`. */
  class VecOutput {
    var data: seq<u8>

    constructor ()
      ensures data == []
    {
      data := [];
    }

    /** `output(buf)`: `extend`, nothing is dropped. */
    method Output(buf: seq<u8>)
      modifies this
      ensures data == old(data) + buf
    {
      data := data + buf;
    }

    /** `cur_position()`: `len() - 1`, saturating at 0. */
    function CurPosition(): (c: nat)
      reads this
      ensures |data| == 0 ==> c == 0
      ensures |data| > 0 ==> c + 1 == |data|
    {
      if |data| == 0 then 0 else |data| - 1
    }

    /** `update(cursor, value)`: indexing panics unless `cursor < len()`. */
    method Update(cursor: nat, value: u8)
      requires cursor < |data|
      modifies this
      ensures data == old(data)[cursor := value]
    {
      data := data[cursor := value];
    }

    /** `data_since(cursor)`: `&self[cursor..]`, which panics past the end. */
    function DataSince(cursor: nat): (r: seq<u8>)
      reads this
      requires cursor <= |data|
      ensures data == data[..cursor] + r
    {
      data[cursor..]
    }
  }
}
