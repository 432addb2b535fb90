/** `assign_command_ids`: every message without a pre-assigned id gets the
    next free one, in ascending name order, from a single id space shared by
    commands, replies and outputs. */
module IdAssign {
  import opened Types
  import opened MessageMap

  const TOO_MANY: string := "Too many commands"
  const ADD_OVERFLOW: string := "attempt to add with overflow"

  /** The ids given in the messages themselves, collected by the first loop. */
  function UsedIds(t: Table): (r: set<u8>)
    ensures forall i :: 0 <= i < |t| && t[i].1.Id().Some? ==> t[i].1.Id().value in r
    ensures forall x :: x in r ==> exists i :: 0 <= i < |t| && t[i].1.Id() == Some(x)
  {
    if t == [] then {}
    else
      var init := t[..|t| - 1];
      assert forall i :: 0 <= i < |init| ==> init[i] == t[i];
      var m := t[|t| - 1].1;
      UsedIds(init) + (if m.Id().Some? then {m.Id().value} else {})
  }

  /** The inner `while used_ids.contains(&id) { id += 1 }`: the first id from `id`
      on that is not used, or the overflow panic when every id up to 255 is. */
  function FreeFrom(used: set<u8>, id: u8): (r: Result<u8, string>)
    ensures r.Ok? ==> id <= r.value && r.value !in used && forall x :: id <= x < r.value ==> x in used
    ensures r.Err? <==> forall x :: id <= x < U8_LIMIT ==> x in used
    ensures r.Err? ==> r.error == ADD_OVERFLOW
    decreases U8_LIMIT - id
  {
    if id !in used then Ok(id)
    else if id == 255 then Err(ADD_OVERFLOW)
    else FreeFrom(used, id + 1)
  }

  /** The `assign_id` closure: the counter reaching 255 is refused; otherwise
      the first free id from the counter, after which the counter (`next_id =
      id + 1`) must still be a `u8`. */
  function AssignOne(used: set<u8>, next: u8): (r: Result<u8, string>)
    ensures r.Ok? ==> next <= r.value < 255 && r.value !in used
    ensures r.Ok? ==> forall x :: next <= x < r.value ==> x in used
    ensures next == 255 ==> r == Err(TOO_MANY)
    ensures next < 255 ==> (r.Err? <==> forall x :: next <= x < 255 ==> x in used)
  {
    if next == 255 then Err(TOO_MANY)
    else
      var id :- FreeFrom(used, next);
      if id == 255 then Err(ADD_OVERFLOW) else Ok(id)
  }

  /** The second loop over `values_mut`, from the message at hand on: messages with
      an id keep it, the others are given `assign_id()` in order. */
  function AssignFrom(t: Table, used: set<u8>, next: u8): (r: Result<Table, string>)
    ensures r.Ok? ==> |r.value| == |t|
    decreases |t|
  {
    if t == [] then Ok([])
    else if t[0].1.Id().Some? then
      var rest :- AssignFrom(t[1..], used, next);
      Ok([t[0]] + rest)
    else
      var id :- AssignOne(used, next);
      var rest :- AssignFrom(t[1..], used + {id}, id + 1);
      Ok([(t[0].0, t[0].1.WithId(Some(id)))] + rest)
  }

  /** `assign_command_ids` on a whole table. */
  function AssignIds(t: Table): Result<Table, string>
  {
    AssignFrom(t, UsedIds(t), 0)
  }

  predicate Fresh(t: Table, i: int)
    requires 0 <= i < |t|
  {
    t[i].1.Id().None?
  }

  /** Names, order and kinds stay; messages with an id are left as they are, and
      the others differ only in their id. */
  predicate SameShape(t: Table, out: Table)
  {
    && |out| == |t|
    && (forall i :: 0 <= i < |t| ==> out[i].0 == t[i].0 && out[i].1 == t[i].1.WithId(out[i].1.Id()))
    && (forall i :: 0 <= i < |t| && !Fresh(t, i) ==> out[i] == t[i])
  }

  /** Every fresh id is a `u8` below 255, at least `next` and not in `used`. */
  predicate FreshWithin(t: Table, out: Table, used: set<u8>, next: int)
    requires |out| == |t|
  {
    forall i :: 0 <= i < |t| && Fresh(t, i) ==>
      out[i].1.Id().Some? && next <= out[i].1.Id().value < 255 && out[i].1.Id().value !in used
  }

  /** Fresh ids strictly increase along the table. */
  predicate FreshIncreasing(t: Table, out: Table)
    requires |out| == |t|
    requires forall i :: 0 <= i < |t| && Fresh(t, i) ==> out[i].1.Id().Some?
  {
    forall i, j :: 0 <= i < j < |t| && Fresh(t, i) && Fresh(t, j) ==> out[i].1.Id().value < out[j].1.Id().value
  }

  /** Below each fresh id and from `next` on, an id not in `used` was taken by an
      earlier fresh message. */
  predicate NoGaps(t: Table, out: Table, used: set<u8>, next: int)
    requires |out| == |t|
    requires forall i :: 0 <= i < |t| && Fresh(t, i) ==> out[i].1.Id().Some?
  {
    forall j, x :: 0 <= j < |t| && Fresh(t, j) && next <= x < out[j].1.Id().value && x !in used ==>
      exists i :: 0 <= i < j && Fresh(t, i) && out[i].1.Id() == Some(x)
  }

  /** The shape, range and no-gap facts together. */
  predicate Assigned(t: Table, out: Table, used: set<u8>, next: int)
  {
    SameShape(t, out) && FreshWithin(t, out, used, next) && NoGaps(t, out, used, next)
  }

  lemma ShiftFresh(t: Table)
    requires t != []
    ensures forall i :: 1 <= i < |t| ==> t[1..][i - 1] == t[i] && (Fresh(t, i) <==> Fresh(t[1..], i - 1))
  {
  }

  /** The shape and range facts for a table from those for its tail and its head. */
  lemma ShapeCons(t: Table, out: Table, used: set<u8>, next: int, used': set<u8>, next': int)
    requires t != [] && |out| == |t|
    requires SameShape(t[1..], out[1..]) && FreshWithin(t[1..], out[1..], used', next')
    requires used <= used' && next <= next'
    requires out[0].0 == t[0].0 && out[0].1 == t[0].1.WithId(out[0].1.Id())
    requires !Fresh(t, 0) ==> out[0] == t[0]
    requires Fresh(t, 0) ==> out[0].1.Id().Some? && next <= out[0].1.Id().value < 255 && out[0].1.Id().value !in used
    ensures SameShape(t, out) && FreshWithin(t, out, used, next)
  {
    ShiftFresh(t);
    assert forall i :: 1 <= i < |t| ==> out[1..][i - 1] == out[i];
  }

  lemma {:induction false} AssignFromIncreasing(t: Table, used: set<u8>, next: u8)
    requires AssignFrom(t, used, next).Ok?
    ensures var out := AssignFrom(t, used, next).value;
      SameShape(t, out) && FreshWithin(t, out, used, next) && FreshIncreasing(t, out)
    decreases |t|
  {
    AssignFromNoGaps(t, used, next);
    if t != [] {
      var out := AssignFrom(t, used, next).value;
      ShiftFresh(t);
      var used', next' := used, next;
      if t[0].1.Id().None? {
        var id := AssignOne(used, next).value;
        used', next' := used + {id}, id + 1;
      }
      AssignFromIncreasing(t[1..], used', next');
      var rest := AssignFrom(t[1..], used', next').value;
      assert out[1..] == rest;
      forall i, j | 0 <= i < j < |t| && Fresh(t, i) && Fresh(t, j)
        ensures out[i].1.Id().value < out[j].1.Id().value
      {
        assert rest[j - 1] == out[j];
        if i > 0 {
          assert rest[i - 1] == out[i];
        }
      }
    }
  }

  lemma {:induction false} AssignFromNoGaps(t: Table, used: set<u8>, next: u8)
    requires AssignFrom(t, used, next).Ok?
    ensures Assigned(t, AssignFrom(t, used, next).value, used, next)
    decreases |t|, 1
  {
    if t == [] {
    } else if t[0].1.Id().Some? {
      NoGapsKeptStep(t, used, next);
    } else {
      NoGapsFreshStep(t, used, next);
    }
  }

  /** `AssignFrom` on a table whose first message keeps its id. */
  lemma AssignFromKept(t: Table, used: set<u8>, next: u8)
    requires t != [] && !Fresh(t, 0) && AssignFrom(t, used, next).Ok?
    ensures AssignFrom(t[1..], used, next).Ok?
    ensures AssignFrom(t, used, next).value == [t[0]] + AssignFrom(t[1..], used, next).value
  {
  }

  /** `AssignFrom` on a table whose first message is given a fresh id. */
  lemma AssignFromFresh(t: Table, used: set<u8>, next: u8) returns (id: u8)
    requires t != [] && Fresh(t, 0) && AssignFrom(t, used, next).Ok?
    ensures AssignOne(used, next).Ok? && AssignOne(used, next).value == id
    ensures AssignFrom(t[1..], used + {id}, id + 1).Ok?
    ensures AssignFrom(t, used, next).value == [(t[0].0, t[0].1.WithId(Some(id)))] + AssignFrom(t[1..], used + {id}, id + 1).value
  {
    id := AssignOne(used, next).value;
  }

  lemma {:induction false} NoGapsKeptStep(t: Table, used: set<u8>, next: u8)
    requires t != [] && !Fresh(t, 0) && AssignFrom(t, used, next).Ok?
    ensures Assigned(t, AssignFrom(t, used, next).value, used, next)
    decreases |t|, 0
  {
    AssignFromKept(t, used, next);
    AssignFromNoGaps(t[1..], used, next);
    NoGapsKept(t, AssignFrom(t[1..], used, next).value, AssignFrom(t, used, next).value, used, next);
  }

  lemma {:induction false} NoGapsFreshStep(t: Table, used: set<u8>, next: u8)
    requires t != [] && Fresh(t, 0) && AssignFrom(t, used, next).Ok?
    ensures Assigned(t, AssignFrom(t, used, next).value, used, next)
    decreases |t|, 0
  {
    var id := AssignFromFresh(t, used, next);
    AssignFromNoGaps(t[1..], used + {id}, id + 1);
    NoGapsFresh(t, AssignFrom(t[1..], used + {id}, id + 1).value, AssignFrom(t, used, next).value, used, next, id);
  }

  /** No gaps after a first message that keeps its id: the gaps are the tail's. */
  lemma NoGapsKept(t: Table, rest: Table, out: Table, used: set<u8>, next: int)
    requires t != [] && !Fresh(t, 0)
    requires Assigned(t[1..], rest, used, next)
    requires out == [t[0]] + rest
    ensures Assigned(t, out, used, next)
  {
    assert out[1..] == rest;
    WithIdLaws(t[0].1, None, None);
    ShapeCons(t, out, used, next, used, next);
    ShiftFresh(t);
    forall j, x | 0 <= j < |t| && Fresh(t, j) && next <= x < out[j].1.Id().value && x !in used
      ensures exists i :: 0 <= i < j && Fresh(t, i) && out[i].1.Id() == Some(x)
    {
      assert j != 0 && rest[j - 1] == out[j];
      var i :| 0 <= i < j - 1 && Fresh(t[1..], i) && rest[i].1.Id() == Some(x);
      assert out[i + 1] == rest[i];
    }
  }

  /** No gaps after a first message given the fresh id `id`: every id from `next`
      below it is used, and above it the gaps are the tail's. */
  lemma NoGapsFresh(t: Table, rest: Table, out: Table, used: set<u8>, next: int, id: u8)
    requires t != [] && Fresh(t, 0)
    requires next <= id < 255 && id !in used && forall x :: next <= x < id ==> x in used
    requires Assigned(t[1..], rest, used + {id}, id + 1)
    requires out == [(t[0].0, t[0].1.WithId(Some(id)))] + rest
    ensures Assigned(t, out, used, next)
  {
    assert out[1..] == rest;
    ShapeCons(t, out, used, next, used + {id}, id + 1);
    ShiftFresh(t);
    forall j, x | 0 <= j < |t| && Fresh(t, j) && next <= x < out[j].1.Id().value && x !in used
      ensures exists i :: 0 <= i < j && Fresh(t, i) && out[i].1.Id() == Some(x)
    {
      if x <= id {
        assert x == id;
      } else {
        assert j != 0 && rest[j - 1] == out[j];
        assert id + 1 <= x && x !in used + {id};
        var i :| 0 <= i < j - 1 && Fresh(t[1..], i) && rest[i].1.Id() == Some(x);
        assert out[i + 1] == rest[i];
      }
    }
  }

  /** What the whole pass promises: names and order stay, pre-assigned ids are
      kept, every message ends up with an id, fresh ids avoid the pre-assigned
      ones and increase in name order, and each skips only pre-assigned ids and
      ids earlier fresh messages took: it is the smallest unused id above the
      previous fresh id. */
  lemma AssignIdsSpec(t: Table)
    requires AssignIds(t).Ok?
    ensures var out := AssignIds(t).value;
      && SameShape(t, out)
      && (forall i :: 0 <= i < |t| ==> out[i].1.Id().Some?)
      && FreshWithin(t, out, UsedIds(t), 0)
      && FreshIncreasing(t, out)
      && NoGaps(t, out, UsedIds(t), 0)
  {
    AssignFromIncreasing(t, UsedIds(t), 0);
    AssignFromNoGaps(t, UsedIds(t), 0);
  }

  /** The pass fails only by running out of ids: some message is left over when
      the counter reaches 255 or every remaining id below 255 is taken. */
  lemma {:induction false} AssignFromErrors(t: Table, used: set<u8>, next: u8)
    requires AssignFrom(t, used, next).Err?
    ensures AssignFrom(t, used, next).error in {TOO_MANY, ADD_OVERFLOW}
    ensures exists i :: 0 <= i < |t| && Fresh(t, i)
    decreases |t|
  {
    assert t != [];
    if t[0].1.Id().Some? {
      AssignFromErrors(t[1..], used, next);
      var i :| 0 <= i < |t[1..]| && Fresh(t[1..], i);
      assert Fresh(t, i + 1);
    } else {
      assert Fresh(t, 0);
      var a := AssignOne(used, next);
      if a.Ok? {
        AssignFromErrors(t[1..], used + {a.value}, a.value + 1);
      }
    }
  }

  /** A table whose messages all carry ids is left exactly as it is. */
  lemma {:induction false} AllAssignedUnchanged(t: Table, used: set<u8>, next: u8)
    requires forall i :: 0 <= i < |t| ==> t[i].1.Id().Some?
    ensures AssignFrom(t, used, next) == Ok(t)
    decreases |t|
  {
    if t != [] {
      assert forall i :: 1 <= i < |t| ==> t[1..][i - 1] == t[i];
      AllAssignedUnchanged(t[1..], used, next);
      assert t == [t[0]] + t[1..];
    }
  }
}
