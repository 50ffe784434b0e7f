/**
  What processData promises, proved about its specification `Dispatch`
  (ProcessData's postcondition makes each of these a statement about the
  method too).
 */
module DispatchProperties {
  import opened Wrappers
  import opened JsValues
  import opened Callbacks
  import opened PostMessageLib

  /** What a waiter receives when `v` is delivered to it. */
  function Receipt(w: Waiter, v: Value): (a: Action) {
    match w
    case Callback(id) => Called(id, v)
    case Resolver(id) => Resolved(id, v)
  }

  /** One receipt per waiter, in registry order. */
  function Receipts(ws: seq<Waiter>, v: Value): (rs: seq<Action>) {
    seq(|ws|, i requires 0 <= i < |ws| => Receipt(ws[i], v))
  }

  /** A trace without the records of swallowed exceptions. */
  function Strip(trace: seq<Action>): (r: seq<Action>)
    decreases |trace|
  {
    if trace == [] then []
    else (if trace[0].Swallowed? then [] else [trace[0]]) + Strip(trace[1..])
  }

  lemma {:induction false} StripConcat(a: seq<Action>, b: seq<Action>)
    ensures Strip(a + b) == Strip(a) + Strip(b)
    decreases |a|
  {
    if a == [] {
      assert a + b == b;
    } else {
      assert (a + b)[1..] == a[1..] + b;
      StripConcat(a[1..], b);
    }
  }

  /**
    Every captured waiter is delivered `v`, in order, whichever callbacks
    throw: an exception from one never keeps a later one from its delivery.
   */
  lemma {:induction false} DeliverReachesEveryWaiter(ws: seq<Waiter>, v: Value, faulty: set<nat>)
    ensures Strip(Deliver(ws, v, faulty)) == Receipts(ws, v)
    decreases |ws|
  {
    if ws != [] {
      var init, last := ws[..|ws| - 1], ws[|ws| - 1];
      DeliverReachesEveryWaiter(init, v, faulty);
      StripConcat(Deliver(init, v, faulty), Invoke(last, v, faulty));
      InvokeStripped(last, v, faulty);
      assert Receipts(ws, v) == Receipts(init, v) + [Receipt(last, v)];
    }
  }

  lemma InvokeStripped(w: Waiter, v: Value, faulty: set<nat>)
    ensures Strip(Invoke(w, v, faulty)) == [Receipt(w, v)]
  {
    var inv := Invoke(w, v, faulty);
    assert Strip(inv) == [inv[0]] + Strip(inv[1..]);
    if |inv| == 2 {
      assert Strip(inv[1..]) == [] + Strip(inv[2..]);
    }
  }

  /** An exception is recorded as swallowed exactly for the captured callbacks that throw. */
  lemma {:induction false} SwallowedExactlyTheFaulty(ws: seq<Waiter>, v: Value, faulty: set<nat>, id: nat)
    ensures Swallowed(id) in Deliver(ws, v, faulty) <==> Callback(id) in ws && id in faulty
    decreases |ws|
  {
    if ws != [] {
      var init, last := ws[..|ws| - 1], ws[|ws| - 1];
      SwallowedExactlyTheFaulty(init, v, faulty, id);
      assert ws == init + [last];
    }
  }

  /** Removing the first waiter of a snapshot leaves the rest of it under its key. */
  lemma RemoveHead(t: Table, key: string, ws: seq<Waiter>)
    requires Waiters(t, key) == ws && ws != []
    ensures key in t && RemoveWaiter(t, key, ws[0]) == t[key := ws[1..]]
  {
  }

  /**
    The rejection loop over a snapshot of `key` whose first `j` waiters are
    pending calls: `key` is left holding the rest, and the loop has thrown
    exactly when a plain callback follows them.
   */
  lemma {:induction false} RejectEachTableOnSnapshot(t: Table, key: string, ws: seq<Waiter>, err: RemoteError, j: nat)
    requires Waiters(t, key) == ws
    requires j <= |ws| && (forall i :: 0 <= i < j ==> ws[i].Resolver?) && (j < |ws| ==> ws[j].Callback?)
    ensures RejectEach(t, key, ws, err).table == (if key in t then t[key := ws[j..]] else t)
    ensures RejectEach(t, key, ws, err).aborted == (j < |ws|)
    decreases |ws|
  {
    if ws == [] {
      assert key in t ==> t[key := []] == t;
    } else if ws[0].Callback? {
      assert t[key := ws[0..]] == t;
    } else {
      RemoveHead(t, key, ws);
      var u := t[key := ws[1..]];
      assert Waiters(u, key) == ws[1..];
      assert forall i :: 0 <= i < j - 1 ==> ws[1..][i] == ws[i + 1];
      RejectEachTableOnSnapshot(u, key, ws[1..], err, j - 1);
      assert ws[1..][j - 1..] == ws[j..];
      assert u[key := ws[j..]] == t[key := ws[j..]];
    }
  }

  /** The same loop rejects exactly those `j` pending calls, in order. */
  lemma {:induction false} RejectEachTraceOnSnapshot(t: Table, key: string, ws: seq<Waiter>, err: RemoteError, j: nat)
    requires Waiters(t, key) == ws
    requires j <= |ws| && (forall i :: 0 <= i < j ==> ws[i].Resolver?) && (j < |ws| ==> ws[j].Callback?)
    ensures |RejectEach(t, key, ws, err).trace| == j
    ensures forall i :: 0 <= i < j ==> RejectEach(t, key, ws, err).trace[i] == Rejected(ws[i].id, err)
    decreases |ws|
  {
    if ws != [] && ws[0].Resolver? {
      RemoveHead(t, key, ws);
      var u := t[key := ws[1..]];
      assert Waiters(u, key) == ws[1..];
      var rest := RejectEach(u, key, ws[1..], err);
      assert RejectEach(t, key, ws, err).trace == [Rejected(ws[0].id, err)] + rest.trace;
      assert forall i :: 0 <= i < j - 1 ==> ws[1..][i] == ws[i + 1];
      RejectEachTraceOnSnapshot(u, key, ws[1..], err, j - 1);
    }
  }

  /**
    A reply for method M: every waiter registered under M is delivered the
    reply's value, in registry order; afterwards M has no waiters and every
    other key is as it was. Nothing is thrown.
   */
  lemma ReplyResolvesAllWaiters(t: Table, raw: Value, parse: string -> Option<Value>, data: Value, faulty: set<nat>)
    requires ParseMessageData(raw, parse) == Ok(data) && !Nullish(data)
    requires !Truthy(Get(data, "event")) && Truthy(Get(data, "method"))
    ensures var s := Dispatch(t, raw, parse, faulty);
      var key := ToText(Get(data, "method"));
      && s.thrown == None
      && Strip(s.trace) == Receipts(Waiters(t, key), Get(data, "value"))
      && Waiters(s.table, key) == []
      && AgreeExcept(t, s.table, key)
  {
    DeliverReachesEveryWaiter(Waiters(t, ToText(Get(data, "method"))), Get(data, "value"), faulty);
  }

  /**
    An error event naming method M, when M's waiters are all pending calls:
    each is rejected with the remote name and message, in order, and M is
    emptied; then the subscribers of `event:error` (as the table stands
    after the removals) are delivered the error's details.
   */
  lemma ErrorRejectsThenNotifies(t: Table, raw: Value, parse: string -> Option<Value>, data: Value, faulty: set<nat>)
    requires ParseMessageData(raw, parse) == Ok(data) && !Nullish(data)
    requires Get(data, "event") == Str("error") && !Nullish(Get(data, "data"))
    requires forall w :: w in Waiters(t, ToText(Get(Get(data, "data"), "method"))) ==> w.Resolver?
    ensures var s := Dispatch(t, raw, parse, faulty);
      var detail := Get(data, "data");
      var key := ToText(Get(detail, "method"));
      var ws := Waiters(t, key);
      && s.thrown == None
      && s.table == ClearKey(t, key)
      && |ws| <= |s.trace|
      && (forall i :: 0 <= i < |ws| ==> s.trace[i] == Rejected(ws[i].id, RemoteError(Get(detail, "name"),
           if Get(detail, "message").Undefined? then "" else ToText(Get(detail, "message")))))
      && s.trace[|ws|..] == Deliver(Waiters(ClearKey(t, key), "event:error"), detail, faulty)
  {
    var detail := Get(data, "data");
    var key := ToText(Get(detail, "method"));
    var ws := Waiters(t, key);
    RejectEachTableOnSnapshot(t, key, ws, ErrorOf(detail), |ws|);
    RejectEachTraceOnSnapshot(t, key, ws, ErrorOf(detail), |ws|);
    assert ws[|ws|..] == [];
    var rej := RejectEach(t, key, ws, ErrorOf(detail));
    assert rej.table == ClearKey(t, key);
    assert EventKey(Str("error")) == "event:error";
    var notified := Deliver(Waiters(rej.table, "event:error"), detail, faulty);
    assert Dispatch(t, raw, parse, faulty).trace == rej.trace + notified;
    assert (rej.trace + notified)[|ws|..] == notified;
  }

  /**
    An error event naming method M when a plain callback sits under M after
    `j` pending calls: those `j` are rejected and removed, then the missing
    `reject` throws a TypeError out of processData, before any `event:error`
    subscriber is reached.
   */
  lemma ErrorAbortsAtCallback(t: Table, raw: Value, parse: string -> Option<Value>, data: Value, faulty: set<nat>, j: nat)
    requires ParseMessageData(raw, parse) == Ok(data) && !Nullish(data)
    requires Get(data, "event") == Str("error") && !Nullish(Get(data, "data"))
    requires var ws := Waiters(t, ToText(Get(Get(data, "data"), "method")));
      j < |ws| && ws[j].Callback? && forall i :: 0 <= i < j ==> ws[i].Resolver?
    ensures var s := Dispatch(t, raw, parse, faulty);
      var detail := Get(data, "data");
      var key := ToText(Get(detail, "method"));
      var ws := Waiters(t, key);
      && s.thrown == Some(TypeError)
      && |s.trace| == j
      && (forall i :: 0 <= i < j ==> s.trace[i] == Rejected(ws[i].id, ErrorOf(detail)))
      && s.table == t[key := ws[j..]]
  {
    var detail := Get(data, "data");
    var key := ToText(Get(detail, "method"));
    RejectEachTableOnSnapshot(t, key, Waiters(t, key), ErrorOf(detail), j);
    RejectEachTraceOnSnapshot(t, key, Waiters(t, key), ErrorOf(detail), j);
  }

  /** A message that decodes to null or undefined throws a TypeError before touching the registry. */
  lemma NullishMessageThrows(t: Table, raw: Value, parse: string -> Option<Value>, data: Value, faulty: set<nat>)
    requires ParseMessageData(raw, parse) == Ok(data) && Nullish(data)
    ensures Dispatch(t, raw, parse, faulty) == Step([], t, Some(TypeError))
  {
  }

  /** The rejection loop throws exactly when a plain callback is among the captured waiters. */
  lemma {:induction false} RejectEachAborts(t: Table, key: string, ws: seq<Waiter>, err: RemoteError)
    ensures RejectEach(t, key, ws, err).aborted <==> exists w :: w in ws && w.Callback?
    decreases |ws|
  {
    if ws != [] {
      assert ws == [ws[0]] + ws[1..];
      RejectEachAborts(RemoveWaiter(t, key, ws[0]), key, ws[1..], err);
    }
  }

  /**
    Exactly when processData throws: a string the parser rejects
    (MalformedPayload), or else a TypeError for a message that decodes to
    null or undefined, an error event without `data`, or an error event
    whose method key holds a plain callback.
   */
  lemma ThrowsExactlyWhen(t: Table, raw: Value, parse: string -> Option<Value>, faulty: set<nat>)
    ensures var s := Dispatch(t, raw, parse, faulty);
      match ParseMessageData(raw, parse)
      case Err(_) => s.thrown == Some(MalformedPayload)
      case Ok(data) =>
        var detail := Get(data, "data");
        (s.thrown.Some? ==> s.thrown == Some(TypeError))
        && (s.thrown.Some? <==>
             || Nullish(data)
             || (Get(data, "event") == Str("error")
                 && (Nullish(detail) || exists w :: w in Waiters(t, ToText(Get(detail, "method"))) && w.Callback?)))
  {
    match ParseMessageData(raw, parse)
    case Err(_) =>
    case Ok(data) =>
      var detail := Get(data, "data");
      if !Nullish(data) && Get(data, "event") == Str("error") && !Nullish(detail) {
        var key := ToText(Get(detail, "method"));
        RejectEachAborts(t, key, Waiters(t, key), ErrorOf(detail));
      }
  }

  /** An error event whose `data` is null or undefined throws before touching the registry. */
  lemma ErrorWithoutDetailThrows(t: Table, raw: Value, parse: string -> Option<Value>, data: Value, faulty: set<nat>)
    requires ParseMessageData(raw, parse) == Ok(data) && !Nullish(data)
    requires Get(data, "event") == Str("error") && Nullish(Get(data, "data"))
    ensures Dispatch(t, raw, parse, faulty) == Step([], t, Some(TypeError))
  {
  }

  /**
    Any other event E: the subscribers under `event:E` are delivered the
    event's data, in order, and the registry is left exactly as it was.
   */
  lemma EventNotifiesSubscribers(t: Table, raw: Value, parse: string -> Option<Value>, data: Value, faulty: set<nat>)
    requires ParseMessageData(raw, parse) == Ok(data) && !Nullish(data)
    requires Truthy(Get(data, "event")) && Get(data, "event") != Str("error")
    ensures var s := Dispatch(t, raw, parse, faulty);
      var subscribers := Waiters(t, "event:" + ToText(Get(data, "event")));
      && s.thrown == None
      && s.table == t
      && s.trace == Deliver(subscribers, Get(data, "data"), faulty)
      && Strip(s.trace) == Receipts(subscribers, Get(data, "data"))
  {
    DeliverReachesEveryWaiter(Waiters(t, EventKey(Get(data, "event"))), Get(data, "data"), faulty);
  }

  /**
    A message with neither a truthy `event` nor a truthy `method` (an empty
    string counts as absent) reaches no waiter and changes nothing.
   */
  lemma OtherMessagesIgnored(t: Table, raw: Value, parse: string -> Option<Value>, data: Value, faulty: set<nat>)
    requires ParseMessageData(raw, parse) == Ok(data) && !Nullish(data)
    requires !Truthy(Get(data, "event")) && !Truthy(Get(data, "method"))
    ensures Dispatch(t, raw, parse, faulty) == Step([], t, None)
  {
  }

  /** When `event` is truthy, `method` is never looked at. */
  lemma EventTakesPrecedence(t: Table, fields: map<string, Value>, parse: string -> Option<Value>, faulty: set<nat>)
    requires "event" in fields && Truthy(fields["event"])
    ensures Dispatch(t, Obj(fields), parse, faulty) == Dispatch(t, Obj(fields - {"method"}), parse, faulty)
  {
    assert Get(Obj(fields - {"method"}), "event") == fields["event"];
    assert Get(Obj(fields - {"method"}), "data") == Get(Obj(fields), "data");
  }

  /** A string the parser rejects surfaces as MalformedPayload, with no waiter reached and no change. */
  lemma MalformedPayloadSurfaces(t: Table, text: string, parse: string -> Option<Value>, faulty: set<nat>)
    requires parse(text) == None
    ensures Dispatch(t, Str(text), parse, faulty) == Step([], t, Some(MalformedPayload))
  {
  }

  /**
    Exceptions thrown by callbacks never escape and change nothing else:
    for any two choices of which callbacks throw, processData throws the
    same, leaves the same table, and delivers the same values to the same
    waiters in the same order.
   */
  lemma FaultsAreContained(t: Table, raw: Value, parse: string -> Option<Value>, f1: set<nat>, f2: set<nat>)
    ensures var s1, s2 := Dispatch(t, raw, parse, f1), Dispatch(t, raw, parse, f2);
      s1.thrown == s2.thrown && s1.table == s2.table && Strip(s1.trace) == Strip(s2.trace)
  {
    match ParseMessageData(raw, parse)
    case Err(_) =>
    case Ok(data) =>
      if !Nullish(data) {
        match Classify(data)
        case ErrorEvent(detail) =>
          if !Nullish(detail) {
            var key := ToText(Get(detail, "method"));
            var rej := RejectEach(t, key, Waiters(t, key), ErrorOf(detail));
            var subscribers := Waiters(rej.table, EventKey(Str("error")));
            DeliverReachesEveryWaiter(subscribers, detail, f1);
            DeliverReachesEveryWaiter(subscribers, detail, f2);
            StripConcat(rej.trace, Deliver(subscribers, detail, f1));
            StripConcat(rej.trace, Deliver(subscribers, detail, f2));
          }
        case Event(name, detail) =>
          DeliverReachesEveryWaiter(Waiters(t, EventKey(name)), detail, f1);
          DeliverReachesEveryWaiter(Waiters(t, EventKey(name)), detail, f2);
        case Reply(methodName, result) =>
          DeliverReachesEveryWaiter(Waiters(t, ToText(methodName)), result, f1);
          DeliverReachesEveryWaiter(Waiters(t, ToText(methodName)), result, f2);
        case Unrecognised =>
      }
  }

  /**
    Encoder and dispatcher agree on the reply shape: a message built by
    postMessage's builder for a non-empty method M, when it comes back,
    resolves M's waiters with the params (undefined when `value` was
    omitted) and empties M.
   */
  lemma BuiltReplyResolves(t: Table, methodName: string, params: Value, parse: string -> Option<Value>, faulty: set<nat>)
    requires methodName != ""
    ensures var s := Dispatch(t, BuildMessage(methodName, params), parse, faulty);
      && s.thrown == None
      && Strip(s.trace) == Receipts(Waiters(t, methodName), params)
      && s.table == ClearKey(t, methodName)
  {
    var m := BuildMessage(methodName, params);
    assert Get(m, "event") == Undefined;
    assert Get(m, "method") == Str(methodName);
    assert Get(m, "value") == params;
    DeliverReachesEveryWaiter(Waiters(t, methodName), params, faulty);
  }

  /**
    What postMessage emits decodes back to the message it built: directly
    when structured, and through the string form when the parser inverts
    the serializer on that message.
   */
  lemma EmittedMessageDecodes(target: Target, legacy: bool, stringify: Value -> string, parse: string -> Option<Value>,
                              methodName: string, params: Value)
    requires target.window == Window(true)
    requires legacy ==> parse(stringify(BuildMessage(methodName, params))) == Some(BuildMessage(methodName, params))
    ensures var r := PostMessage(target, legacy, stringify, methodName, params);
      r.Ok? && r.value.Some? && ParseMessageData(r.value.value.payload, parse) == Ok(BuildMessage(methodName, params))
  {
  }
}
