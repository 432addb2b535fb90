/** The generator's message table: a `BTreeMap<String, Message>`, written as an
    association list kept strictly sorted by key, so that iterating it visits
    the messages in ascending name order as the `BTreeMap` does. */
module MessageMap {
  import opened Types
  import Commands
  import Replies
  import OutputFormat

  /** `enum Message`. */
  datatype Message =
    | MCommand(c: Commands.Command)
    | MReply(r: Replies.Reply)
    | MOutput(o: OutputFormat.Output)
  {
    /** `Message::id`. */
    function Id(): Option<u8>
    {
      match this
      case MCommand(c) => c.id
      case MReply(r) => r.id
      case MOutput(o) => o.id
    }

    /** `Message::set_id`, as the message it leaves. */
    function WithId(id: Option<u8>): (m: Message)
      ensures m.Id() == id
      ensures m.MCommand? == MCommand? && m.MReply? == MReply? && m.MOutput? == MOutput?
    {
      match this
      case MCommand(c) => MCommand(c.(id := id))
      case MReply(r) => MReply(r.(id := id))
      case MOutput(o) => MOutput(o.(id := id))
    }
  }

  /** Setting the id a message already has changes nothing, and setting an id
      twice keeps only the second. */
  lemma WithIdLaws(m: Message, a: Option<u8>, b: Option<u8>)
    ensures m.WithId(m.Id()) == m
    ensures m.WithId(a).WithId(b) == m.WithId(b)
  {
  }

  // ---------------------------------------------------------------------------
  // The order of `String` keys

  /** `String`'s `Ord`: lexicographic, a proper prefix first. */
  predicate StrLess(a: string, b: string)
    decreases |a|
  {
    if a == [] then b != []
    else b != [] && (a[0] < b[0] || (a[0] == b[0] && StrLess(a[1..], b[1..])))
  }

  lemma {:induction false} StrLessIrreflexive(a: string)
    ensures !StrLess(a, a)
    decreases |a|
  {
    if a != [] {
      StrLessIrreflexive(a[1..]);
    }
  }

  lemma {:induction false} StrLessTransitive(a: string, b: string, c: string)
    requires StrLess(a, b) && StrLess(b, c)
    ensures StrLess(a, c)
    decreases |a|
  {
    if a != [] && a[0] == b[0] && b[0] == c[0] {
      StrLessTransitive(a[1..], b[1..], c[1..]);
    }
  }

  lemma {:induction false} StrLessTotal(a: string, b: string)
    requires a != b
    ensures StrLess(a, b) || StrLess(b, a)
    decreases |a|
  {
    if a != [] && b != [] && a[0] == b[0] {
      assert a == [a[0]] + a[1..] && b == [b[0]] + b[1..];
      StrLessTotal(a[1..], b[1..]);
    }
  }

  // ---------------------------------------------------------------------------
  // The sorted table

  type Table = seq<(string, Message)>

  predicate Sorted(t: Table)
  {
    forall i, j :: 0 <= i < j < |t| ==> StrLess(t[i].0, t[j].0)
  }

  function Keys(t: Table): (r: set<string>)
    ensures forall i :: 0 <= i < |t| ==> t[i].0 in r
    ensures forall k :: k in r ==> exists i :: 0 <= i < |t| && t[i].0 == k
  {
    if t == [] then {}
    else
      assert forall i :: 1 <= i < |t| ==> t[i] == t[1..][i - 1];
      {t[0].0} + Keys(t[1..])
  }

  /** `BTreeMap::get`. */
  function Get(t: Table, k: string): (r: Option<Message>)
    ensures r.None? <==> k !in Keys(t)
    ensures r.Some? ==> exists i :: 0 <= i < |t| && t[i] == (k, r.value)
  {
    if t == [] then None
    else if t[0].0 == k then Some(t[0].1)
    else
      assert forall i :: 1 <= i < |t| ==> t[i] == t[1..][i - 1];
      Get(t[1..], k)
  }

  /** In a sorted table the entry at each position is the one `get` finds. */
  lemma {:induction false} GetAt(t: Table, i: nat)
    requires Sorted(t) && i < |t|
    ensures Get(t, t[i].0) == Some(t[i].1)
  {
    if i > 0 {
      assert t[0].0 != t[i].0 by {
        StrLessIrreflexive(t[0].0);
      }
      GetAt(t[1..], i - 1);
    }
  }

  lemma SortedTail(t: Table)
    requires Sorted(t) && t != []
    ensures Sorted(t[1..])
    ensures forall k :: k in Keys(t[1..]) ==> StrLess(t[0].0, k)
  {
  }

  /** `BTreeMap::insert`: replaces the entry under `k`, or adds one in key order. */
  function Put(t: Table, k: string, m: Message): (r: Table)
    requires Sorted(t)
    ensures Sorted(r)
    ensures Keys(r) == Keys(t) + {k}
  {
    if t == [] then
      ConsSorted((k, m), []);
      [(k, m)]
    else if t[0].0 == k then
      SortedTail(t);
      ConsSorted((k, m), t[1..]);
      [(k, m)] + t[1..]
    else if StrLess(k, t[0].0) then
      LessThanAll(k, t);
      ConsSorted((k, m), t);
      [(k, m)] + t
    else
      StrLessTotal(k, t[0].0);
      SortedTail(t);
      var rest := Put(t[1..], k, m);
      ConsSorted(t[0], rest);
      [t[0]] + rest
  }

  /** An entry below every key of a sorted table can go in front of it. */
  lemma ConsSorted(e: (string, Message), t: Table)
    requires Sorted(t) && forall q :: q in Keys(t) ==> StrLess(e.0, q)
    ensures Sorted([e] + t) && Keys([e] + t) == Keys(t) + {e.0}
  {
    assert ([e] + t)[1..] == t;
  }

  /** A key below the first key of a sorted table is below all of them. */
  lemma LessThanAll(k: string, t: Table)
    requires Sorted(t) && t != [] && StrLess(k, t[0].0)
    ensures forall q :: q in Keys(t) ==> StrLess(k, q)
  {
    forall q | q in Keys(t)
      ensures StrLess(k, q)
    {
      var j :| 0 <= j < |t| && t[j].0 == q;
      if j > 0 {
        StrLessTransitive(k, t[0].0, t[j].0);
      }
    }
  }

  /** After `insert`, `get` finds the new message under `k` and the old entry
      under every other key. */
  lemma {:induction false} GetPut(t: Table, k: string, m: Message, q: string)
    requires Sorted(t)
    ensures Get(Put(t, k, m), q) == if q == k then Some(m) else Get(t, q)
  {
    if t != [] && t[0].0 != k && !StrLess(k, t[0].0) {
      SortedTail(t);
      GetPut(t[1..], k, m, q);
    }
  }

  /** Inserting the message already stored under `k` leaves the table as it was. */
  lemma {:induction false} PutPresent(t: Table, k: string, m: Message)
    requires Sorted(t) && Get(t, k) == Some(m)
    ensures Put(t, k, m) == t
  {
    if t[0].0 != k {
      SortedTail(t);
      assert Get(t[1..], k) == Some(m);
      assert StrLess(t[0].0, k);
      assert !StrLess(k, t[0].0) by {
        if StrLess(k, t[0].0) {
          StrLessTransitive(k, t[0].0, k);
          StrLessIrreflexive(k);
        }
      }
      PutPresent(t[1..], k, m);
      assert t == [t[0]] + t[1..];
    }
  }

  /** `BTreeMap::remove`, as the table it leaves. */
  function Remove(t: Table, k: string): (r: Table)
    requires Sorted(t)
    ensures Sorted(r)
    ensures Keys(r) == Keys(t) - {k}
    ensures |r| <= |t|
  {
    if t == [] then []
    else if t[0].0 == k then
      SortedTail(t);
      assert k !in Keys(t[1..]) by {
        StrLessIrreflexive(k);
      }
      t[1..]
    else
      SortedTail(t);
      var rest := Remove(t[1..], k);
      assert ([t[0]] + rest)[1..] == rest;
      [t[0]] + rest
  }

  /** After `remove`, `get` finds nothing under `k` and the old entry under every
      other key. */
  lemma {:induction false} GetRemove(t: Table, k: string, q: string)
    requires Sorted(t)
    ensures Get(Remove(t, k), q) == if q == k then None else Get(t, q)
  {
    if t != [] && t[0].0 != k {
      SortedTail(t);
      GetRemove(t[1..], k, q);
    }
  }
}
