/**
  The callback registry the dispatcher consults: for one player, a table from
  a key (a method name, or `event:` followed by an event name) to the waiters
  registered under it, in registration order. Only the two operations the
  dispatcher uses are modelled: looking up a key and removing waiters.
 */
module Callbacks {

  /**
    A registered waiter. A `Callback` is a plain function subscribed to an
    event; a `Resolver` is the resolve/reject pair of a pending call. The ids
    stand for object identity.
   */
  datatype Waiter = Callback(id: nat) | Resolver(id: nat)

  type Table = map<string, seq<Waiter>>

  /** getCallbacks: the waiters under `key`, none when the key was never used. */
  function Waiters(t: Table, key: string): (ws: seq<Waiter>) {
    if key in t then t[key] else []
  }

  /** Every key other than `key` has the same entry (or absence) in both tables. */
  ghost predicate AgreeExcept(t: Table, u: Table, key: string) {
    forall k :: k != key ==> (k in t <==> k in u) && (k in t ==> t[k] == u[k])
  }

  /** The list with the first occurrence of `w` taken out. */
  function RemoveFirst(ws: seq<Waiter>, w: Waiter): (r: seq<Waiter>)
    ensures w !in ws ==> r == ws
    ensures |ws| > 0 && ws[0] == w ==> r == ws[1..]
  {
    if ws == [] then []
    else if ws[0] == w then ws[1..]
    else
      assert ws == [ws[0]] + ws[1..];
      [ws[0]] + RemoveFirst(ws[1..], w)
  }

  /** Removing a waiter that is present takes out exactly one copy of it. */
  lemma {:induction false} RemoveFirstTakesOne(ws: seq<Waiter>, w: Waiter)
    requires w in ws
    ensures |RemoveFirst(ws, w)| == |ws| - 1
    ensures multiset(RemoveFirst(ws, w)) == multiset(ws) - multiset{w}
    decreases |ws|
  {
    assert ws == [ws[0]] + ws[1..];
    if ws[0] != w {
      RemoveFirstTakesOne(ws[1..], w);
    }
  }

  /** `r` is `ws` with its first `w`, at index `i`, taken out. */
  ghost predicate RemovedAt(ws: seq<Waiter>, w: Waiter, r: seq<Waiter>, i: int) {
    0 <= i < |ws| && ws[i] == w && w !in ws[..i] && r == ws[..i] + ws[i + 1..]
  }

  /** Putting a different waiter in front moves the removal point by one. */
  lemma RemovedAtCons(ws: seq<Waiter>, w: Waiter, r: seq<Waiter>, k: int)
    requires |ws| > 0 && ws[0] != w && RemovedAt(ws[1..], w, r, k)
    ensures RemovedAt(ws, w, [ws[0]] + r, k + 1)
  {
    assert ws[..k + 1] == [ws[0]] + ws[1..][..k];
    assert ws[k + 2..] == ws[1..][k + 1..];
  }

  /**
    The copy removed is the first one: the waiters before it and after it
    stay, in their order (the meaning of indexOf followed by splice).
   */
  lemma {:induction false} RemoveFirstTakesFirst(ws: seq<Waiter>, w: Waiter)
    requires w in ws
    ensures exists i :: RemovedAt(ws, w, RemoveFirst(ws, w), i)
    decreases |ws|
  {
    if ws[0] == w {
      assert ws[..0] == [] && ws[1..] == ws[..0] + ws[0 + 1..];
      assert RemovedAt(ws, w, RemoveFirst(ws, w), 0);
    } else {
      var tail := ws[1..];
      assert w in tail by { assert ws == [ws[0]] + tail; }
      RemoveFirstTakesFirst(tail, w);
      var k :| RemovedAt(tail, w, RemoveFirst(tail, w), k);
      assert RemoveFirst(ws, w) == [ws[0]] + RemoveFirst(tail, w);
      RemovedAtCons(ws, w, RemoveFirst(tail, w), k);
      assert RemovedAt(ws, w, RemoveFirst(ws, w), k + 1);
    }
  }

  /** removeCallback(player, key, w): one waiter leaves `key`; nothing else moves. */
  function RemoveWaiter(t: Table, key: string, w: Waiter): (u: Table)
    ensures Waiters(u, key) == RemoveFirst(Waiters(t, key), w)
    ensures AgreeExcept(t, u, key)
    ensures key in u <==> key in t
  {
    if key in t then t[key := RemoveFirst(t[key], w)] else t
  }

  /** removeCallback(player, key): `key` is left with no waiters; nothing else moves. */
  function ClearKey(t: Table, key: string): (u: Table)
    ensures Waiters(u, key) == []
    ensures AgreeExcept(t, u, key)
    ensures key in u <==> key in t
  {
    if key in t then t[key := []] else t
  }

  /** The registry object, whose table the dispatcher changes in place. */
  class Registry {
    var table: Table

    constructor (initial: Table)
      ensures table == initial
    {
      table := initial;
    }

    /** getCallbacks(player, key). */
    function Lookup(key: string): (ws: seq<Waiter>)
      reads this
    {
      Waiters(table, key)
    }

    /** removeCallback(player, key, w). */
    method Remove(key: string, w: Waiter)
      modifies this
      ensures table == RemoveWaiter(old(table), key, w)
    {
      if key in table {
        table := table[key := RemoveFirst(table[key], w)];
      }
    }

    /** removeCallback(player, key). */
    method Clear(key: string)
      modifies this
      ensures table == ClearKey(old(table), key)
    {
      if key in table {
        table := table[key := []];
      }
    }
  }
}
