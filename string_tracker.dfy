/** `StaticStringsTracker`: the ids handed out to `klipper_static_string!`
    messages, in order of first insertion, starting at `STATIC_STRING_MIN`. */
module StringTracker {
  import opened Types

  const STATIC_STRING_MIN: int := 2

  /** The message of the debug-build panic when `next_id += 1` leaves `u16`. */
  const ADD_OVERFLOW: string := "attempt to add with overflow"

  predicate Distinct(s: seq<string>)
  {
    forall i, j :: 0 <= i < j < |s| ==> s[i] != s[j]
  }

  /** The ids of a tracker into which `order` was inserted, each string once. */
  function IdMap(order: seq<string>): (r: map<string, int>)
    ensures r.Keys == set i | 0 <= i < |order| :: order[i]
  {
    if order == [] then map[]
    else
      var init := order[..|order| - 1];
      assert forall i :: 0 <= i < |init| ==> init[i] == order[i];
      IdMap(init)[order[|order| - 1] := STATIC_STRING_MIN + |init|]
  }

  /** String number i in insertion order has id `2 + i`. */
  lemma {:induction false} IdMapAt(order: seq<string>, i: nat)
    requires Distinct(order) && i < |order|
    ensures order[i] in IdMap(order) && IdMap(order)[order[i]] == STATIC_STRING_MIN + i
    decreases |order|
  {
    var init := order[..|order| - 1];
    if i < |init| {
      assert init[i] == order[i];
      IdMapAt(init, i);
    }
  }

  /** Distinct strings get distinct ids, all within `2..2 + n`. */
  lemma IdMapInjective(order: seq<string>, a: string, b: string)
    requires Distinct(order) && a in IdMap(order) && b in IdMap(order) && a != b
    ensures IdMap(order)[a] != IdMap(order)[b]
    ensures STATIC_STRING_MIN <= IdMap(order)[a] < STATIC_STRING_MIN + |order|
  {
    var i :| 0 <= i < |order| && order[i] == a;
    var j :| 0 <= j < |order| && order[j] == b;
    IdMapAt(order, i);
    IdMapAt(order, j);
  }

  /** The insertion order that a series of `insert` calls produces: each string at
      its first insertion, repeats ignored. */
  function FirstInsertions(calls: seq<string>): (r: seq<string>)
    ensures Distinct(r)
    ensures (set i | 0 <= i < |r| :: r[i]) == set i | 0 <= i < |calls| :: calls[i]
  {
    if calls == [] then []
    else
      var init := calls[..|calls| - 1];
      var last := calls[|calls| - 1];
      var done := FirstInsertions(init);
      assert forall i :: 0 <= i < |init| ==> init[i] == calls[i];
      assert (set i | 0 <= i < |calls| :: calls[i]) == (set i | 0 <= i < |init| :: init[i]) + {last};
      if last in done then done
      else
        var r := done + [last];
        assert forall i :: 0 <= i < |done| ==> r[i] == done[i];
        assert r[|done|] == last;
        assert (set i | 0 <= i < |r| :: r[i]) == (set i | 0 <= i < |done| :: done[i]) + {last};
        r
  }

  /** Inserting a string a second time is a no-op. */
  lemma InsertIdempotent(calls: seq<string>, s: string)
    ensures FirstInsertions(calls + [s, s]) == FirstInsertions(calls + [s])
  {
    var c := calls + [s, s];
    assert c[..|c| - 1] == calls + [s];
    var d := FirstInsertions(calls + [s]);
    assert (calls + [s])[|calls|] == s;
    assert s in d;
  }

  class StaticStringsTracker {
    var strings: map<string, int>
    var nextId: int
    /** Every string passed to `insert` so far, repeats included. */
    ghost var calls: seq<string>
    /** The strings in the order they were first inserted. */
    ghost var order: seq<string>

    ghost predicate Valid()
      reads this
    {
      && order == FirstInsertions(calls)
      && strings == IdMap(order)
      && nextId == STATIC_STRING_MIN + |order|
      && nextId < U16_LIMIT
    }

    /** `StaticStringsTracker::new`. */
    constructor()
      ensures Valid() && calls == [] && strings == map[] && nextId == STATIC_STRING_MIN
    {
      calls := [];
      strings := map[];
      nextId := STATIC_STRING_MIN;
      order := [];
    }

    /** `insert`: a known string is left alone; a new one gets `next_id`, which
        then moves on, or the build panics when it would pass `u16::MAX`. */
    method Insert(ss: string) returns (r: Result<(), string>)
      requires Valid()
      modifies this
      ensures calls == old(calls) + [ss]
      ensures ss in old(strings) ==> r.Ok? && Valid() && strings == old(strings) && nextId == old(nextId) && order == old(order)
      ensures ss !in old(strings) && old(nextId) + 1 < U16_LIMIT ==>
        && r.Ok? && Valid()
        && order == old(order) + [ss]
        && strings == old(strings)[ss := old(nextId)]
        && nextId == old(nextId) + 1
      ensures ss !in old(strings) && old(nextId) + 1 == U16_LIMIT ==> r == Err(ADD_OVERFLOW)
    {
      calls := calls + [ss];
      assert calls[..|calls| - 1] == old(calls);
      if ss in strings {
        return Ok(());
      }
      strings := strings[ss := nextId];
      if nextId + 1 == U16_LIMIT {
        return Err(ADD_OVERFLOW);
      }
      nextId := nextId + 1;
      order := order + [ss];
      r := Ok(());
    }
  }
}
