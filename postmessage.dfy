/**
  lib/postmessage: the encoder that posts a call to the embedded player, the
  decoder for what comes back, and the dispatcher that routes a decoded
  message to the waiters registered for it.
 */
module PostMessageLib {
  import opened Wrappers
  import opened JsValues
  import opened Callbacks

  /** What the code can throw. */
  datatype Fault =
    | MalformedPayload   // JSON.parse rejected a string message
    | TypeError          // a property read on null/undefined, or a call of a missing method

  // ---------------------------------------------------------------- decoding

  /**
    parseMessageData: a string is handed to the JSON parser (`parse`, which
    answers None where JSON.parse throws); anything else passes through.
   */
  function ParseMessageData(data: Value, parse: string -> Option<Value>): (r: Result<Value, Fault>)
    ensures !data.Str? ==> r == Ok(data)
    ensures data.Str? ==> (r.Err? <==> parse(data.s).None?)
    ensures r.Err? ==> r.error == MalformedPayload
    ensures data.Str? && r.Ok? ==> parse(data.s) == Some(r.value)
  {
    if data.Str? then
      match parse(data.s)
      case None => Err(MalformedPayload)
      case Some(v) => Ok(v)
    else Ok(data)
  }

  // ---------------------------------------------------------------- encoding

  /** The iframe's content window: gone (null), or present with or without `postMessage`. */
  datatype ContentWindow = Detached | Window(hasPostMessage: bool)

  /** The player as the encoder sees it: its iframe's window and its origin. */
  datatype Target = Target(window: ContentWindow, origin: string)

  /** One cross-window delivery: this payload, to this origin. */
  datatype Emission = Emission(payload: Value, origin: string)

  /** The outbound message `{method, value?}`; `value` is present exactly when params are not undefined. */
  function BuildMessage(methodName: string, params: Value): (m: Value)
    ensures m.Obj?
    ensures "method" in m.fields && m.fields["method"] == Str(methodName)
    ensures "value" in m.fields <==> params != Undefined
    ensures "value" in m.fields ==> m.fields["value"] == params
    ensures m.fields.Keys <= {"method", "value"}
  {
    var message := map["method" := Str(methodName)];
    Obj(if params != Undefined then message["value" := params] else message)
  }

  /**
    postMessage(player, method, params). `legacy` says the browser can only
    pass strings (then the message goes through `stringify`). Ok(None) means
    nothing was sent.
   */
  function PostMessage(target: Target, legacy: bool, stringify: Value -> string,
                       methodName: string, params: Value): (r: Result<Option<Emission>, Fault>)
    ensures r.Err? <==> target.window.Detached?
    ensures r.Err? ==> r.error == TypeError
    ensures r == Ok(None) <==> target.window == Window(false)
    ensures r.Ok? && r.value.Some? ==>
      && r.value.value.origin == target.origin
      && r.value.value.payload ==
           (if legacy then Str(stringify(BuildMessage(methodName, params))) else BuildMessage(methodName, params))
  {
    match target.window
    case Detached => Err(TypeError)
    case Window(hasPostMessage) =>
      if !hasPostMessage then Ok(None)
      else
        var message := BuildMessage(methodName, params);
        Ok(Some(Emission(if legacy then Str(stringify(message)) else message, target.origin)))
  }

  // ---------------------------------------------------------------- dispatching

  /** The three kinds of inbound message, and the rest. */
  datatype Message =
    | ErrorEvent(detail: Value)
    | Event(name: Value, detail: Value)
    | Reply(methodName: Value, result: Value)
    | Unrecognised

  /** `event` is tested first, and both tests are truthiness tests. */
  function Classify(data: Value): (m: Message) {
    var event := Get(data, "event");
    if Truthy(event) then
      if event == Str("error") then ErrorEvent(Get(data, "data"))
      else Event(event, Get(data, "data"))
    else if Truthy(Get(data, "method")) then Reply(Get(data, "method"), Get(data, "value"))
    else Unrecognised
  }

  /** The registry key of the subscribers to an event. */
  function EventKey(name: Value): (key: string) {
    "event:" + ToText(name)
  }

  /** The Error built for a remote failure: its `name` is assigned as is, its message is String(message). */
  datatype RemoteError = RemoteError(name: Value, message: string)

  function ErrorOf(detail: Value): (e: RemoteError) {
    var message := Get(detail, "message");
    RemoteError(Get(detail, "name"), if message.Undefined? then "" else ToText(message))
  }

  /** What the dispatcher does to a waiter, in the order it does it. */
  datatype Action =
    | Called(id: nat, arg: Value)          // callback.call(player, param)
    | Swallowed(id: nat)                   // that call threw, and the exception was dropped
    | Resolved(id: nat, arg: Value)        // callback.resolve(param)
    | Rejected(id: nat, error: RemoteError) // promise.reject(error)

  /** Delivering `v` to one waiter; the callbacks in `faulty` throw when called. */
  function Invoke(w: Waiter, v: Value, faulty: set<nat>): (r: seq<Action>) {
    match w
    case Callback(id) => if id in faulty then [Called(id, v), Swallowed(id)] else [Called(id, v)]
    case Resolver(id) => [Resolved(id, v)]
  }

  /** Delivering `v` to every waiter of `ws`, first to last. */
  function Deliver(ws: seq<Waiter>, v: Value, faulty: set<nat>): (r: seq<Action>)
    decreases |ws|
  {
    if ws == [] then []
    else Deliver(ws[..|ws| - 1], v, faulty) + Invoke(ws[|ws| - 1], v, faulty)
  }

  /** The outcome of the rejection loop: what it did, the table it left, and whether it threw. */
  datatype Rejection = Rejection(trace: seq<Action>, table: Table, aborted: bool)

  /**
    Rejecting each captured waiter `ws` of `key` and removing it from the
    table. A plain callback has no `reject`, so meeting one throws.
   */
  function RejectEach(t: Table, key: string, ws: seq<Waiter>, err: RemoteError): (r: Rejection)
    decreases |ws|
  {
    if ws == [] then Rejection([], t, false)
    else match ws[0]
      case Callback(_) => Rejection([], t, true)
      case Resolver(id) =>
        var rest := RejectEach(RemoveWaiter(t, key, ws[0]), key, ws[1..], err);
        Rejection([Rejected(id, err)] + rest.trace, rest.table, rest.aborted)
  }

  /** One call of processData: what it did to the waiters, the table it left, and what it threw. */
  datatype Step = Step(trace: seq<Action>, table: Table, thrown: Option<Fault>)

  /** processData(player, raw), as a function of the table before the call. */
  function Dispatch(t: Table, raw: Value, parse: string -> Option<Value>, faulty: set<nat>): (s: Step) {
    match ParseMessageData(raw, parse)
    case Err(e) => Step([], t, Some(e))
    case Ok(data) =>
      if Nullish(data) then Step([], t, Some(TypeError))
      else match Classify(data)
        case ErrorEvent(detail) =>
          if Nullish(detail) then Step([], t, Some(TypeError))
          else
            var key := ToText(Get(detail, "method"));
            var rej := RejectEach(t, key, Waiters(t, key), ErrorOf(detail));
            if rej.aborted then Step(rej.trace, rej.table, Some(TypeError))
            else Step(rej.trace + Deliver(Waiters(rej.table, EventKey(Str("error"))), detail, faulty),
                      rej.table, None)
        case Event(name, detail) =>
          Step(Deliver(Waiters(t, EventKey(name)), detail, faulty), t, None)
        case Reply(methodName, result) =>
          var key := ToText(methodName);
          Step(Deliver(Waiters(t, key), result, faulty), ClearKey(t, key), None)
        case Unrecognised =>
          Step([], t, None)
  }

  /**
    The loop over the pending calls of `key` in processData: each captured
    waiter is rejected with `err` and removed, until one turns out to be a
    plain callback, whose missing `reject` throws.
   */
  method RejectPending(reg: Registry, key: string, err: RemoteError) returns (trace: seq<Action>, aborted: bool)
    modifies reg
    ensures RejectEach(old(reg.table), key, Waiters(old(reg.table), key), err) == Rejection(trace, reg.table, aborted)
  {
    var promises := reg.Lookup(key);
    trace := [];
    var i := 0;
    while i < |promises|
      invariant 0 <= i <= |promises|
      invariant var rest := RejectEach(reg.table, key, promises[i..], err);
        RejectEach(old(reg.table), key, promises, err) == Rejection(trace + rest.trace, rest.table, rest.aborted)
    {
      var promise := promises[i];
      assert promises[i..][1..] == promises[i + 1..];
      if promise.Callback? {
        return trace, true;
      }
      trace := trace + [Rejected(promise.id, err)];
      reg.Remove(key, promise);
      i := i + 1;
    }
    aborted := false;
  }

  /** The delivery loop of processData: `param` goes to every captured waiter, whatever they throw. */
  method DeliverAll(callbacks: seq<Waiter>, param: Value, faulty: set<nat>) returns (trace: seq<Action>)
    ensures trace == Deliver(callbacks, param, faulty)
  {
    trace := [];
    for i := 0 to |callbacks|
      invariant trace == Deliver(callbacks[..i], param, faulty)
    {
      assert callbacks[..i + 1][..i] == callbacks[..i];
      match callbacks[i]
      case Callback(id) =>
        trace := trace + [Called(id, param)];
        if id in faulty {
          trace := trace + [Swallowed(id)];
        }
      case Resolver(id) =>
        trace := trace + [Resolved(id, param)];
    }
    assert callbacks[..|callbacks|] == callbacks;
  }

  /**
    processData(player, raw) on the registry `reg`. It returns what it did
    to the waiters and the exception, if any, that escapes it.
   */
  method ProcessData(reg: Registry, raw: Value, parse: string -> Option<Value>, faulty: set<nat>)
    returns (trace: seq<Action>, thrown: Option<Fault>)
    modifies reg
    ensures var s := Dispatch(old(reg.table), raw, parse, faulty);
      trace == s.trace && thrown == s.thrown && reg.table == s.table
  {
    trace, thrown := [], None;
    var parsed := ParseMessageData(raw, parse);
    if parsed.Err? {
      thrown := Some(parsed.error);
      return;
    }
    var data := parsed.value;
    if Nullish(data) {
      thrown := Some(TypeError);
      return;
    }
    var callbacks: seq<Waiter> := [];
    var param := Undefined;
    var event := Get(data, "event");
    if Truthy(event) {
      if event == Str("error") {
        var detail := Get(data, "data");
        if Nullish(detail) {
          thrown := Some(TypeError);
          return;
        }
        var aborted;
        trace, aborted := RejectPending(reg, ToText(Get(detail, "method")), ErrorOf(detail));
        if aborted {
          thrown := Some(TypeError);
          return;
        }
      }
      callbacks := reg.Lookup(EventKey(event));
      param := Get(data, "data");
    } else {
      var methodName := Get(data, "method");
      if Truthy(methodName) {
        callbacks := reg.Lookup(ToText(methodName));
        param := Get(data, "value");
        reg.Clear(ToText(methodName));
      }
    }
    var delivered := DeliverAll(callbacks, param, faulty);
    trace := trace + delivered;
  }
}
