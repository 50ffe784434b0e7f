# postmessage dispatcher model

A Dafny model of `lib/postmessage` in the embeddable video player's
JavaScript API. That library is the message layer between a host page and a
player running inside an iframe. It has three parts:

- the **encoder** `postMessage` builds `{method, value?}` and posts it to the
  iframe's window, unless that window has no `postMessage`;
- the **decoder** `parseMessageData` leaves structured input as it is and
  parses string input as JSON;
- the **dispatcher** `processData` sorts a decoded message into one of four
  kinds: an `error` event, another event, a method reply, or anything else.
  It finds the waiters registered under the matching key and updates the
  callback registry. Then it delivers a value to each waiter it captured:
  it calls plain callbacks and resolves promise handles, and it catches
  whatever a callback throws.

Files:

- `wrappers.dfy`: `Option` and `Result`.
- `js_values.dfy`: the JavaScript values a message carries. It defines
  truthiness, property reads and `String(v)`. `String(v)` turns values into
  registry keys and `event:${…}` template strings.
- `callbacks.dfy`: the callback registry, as a `Table` (a map from key to the
  waiters under it, in registration order). It holds the two removals that
  `processData` uses. `Registry`, a class, holds the table that
  `processData` changes in place.
- `postmessage.dfy`: `ParseMessageData`, `BuildMessage` and `PostMessage`.
  The dispatcher comes twice. `Dispatch` is a pure specification: the table
  before the call goes in, the trace, the table after and any thrown fault
  come out. `ProcessData` is the imperative method on a `Registry`. Its
  postcondition says it does exactly what `Dispatch` says. Its two loops
  are `RejectPending` and `DeliverAll`.
- `dispatch_properties.dfy`: the dispatcher's promises, proved about
  `Dispatch`.

What the dispatcher does becomes a trace of `Action`s:

- `Called(id, v)`: a callback was called;
- `Swallowed(id)`: that call threw, and the exception was dropped;
- `Resolved(id, v)`: a handle was resolved;
- `Rejected(id, error)`: a handle was rejected.

Which callbacks throw is a parameter, `faulty`.

Error conditions modelled, following the code:

- `postMessage` drops a send only when the window has no `postMessage`
  (src/lib/postmessage.js:31). A detached iframe's `contentWindow` is
  `null`, so that read throws a `TypeError`. `PostMessage` returns that
  error for a `Detached` window. A window without `postMessage` gives
  `Ok(None)`: nothing is sent and nothing is thrown.
- Besides `MalformedPayload`, `processData` throws a `TypeError` in three
  cases. First, the message decodes to `null` or `undefined`, so reading
  `data.event` throws (`NullishMessageThrows`). Second, an `error` event has
  no `data`, so reading `data.data.method` throws
  (`ErrorWithoutDetailThrows`). Third, a plain callback sits under the
  method key of an `error` event. The loop at src/lib/postmessage.js:69-75
  has no `try`, so `promise.reject(...)` throws, and the waiters rejected
  before it stay rejected and removed (`ErrorAbortsAtCallback`).
  `ThrowsExactlyWhen` says these are the only cases.

The registry module `./callbacks` is not part of this model. What the model
assumes about it:

- `getCallbacks(key)` returns the waiters under `key`, or none if the key is
  missing. The list it returns is a snapshot.
- `removeCallback(key, w)` takes out the first occurrence of `w`, if `key` is
  present.
- `removeCallback(key)` leaves `key` with no waiters, if it is present.

## Model

| member | source | states |
|---|---|---|
| `PostMessageLib.ParseMessageData` | src/lib/postmessage.js:13-19 | non-string input comes back unchanged; string input is rejected as `MalformedPayload` exactly when the parser rejects it, and otherwise yields what the parser returned |
| `PostMessageLib.BuildMessage` | src/lib/postmessage.js:35-41 | the outbound message is an object with `method` set to the given method; it has a `value` field exactly when params are not undefined, and then `value` is params; it has no other field |
| `PostMessageLib.PostMessage` | src/lib/postmessage.js:30-50 | a window without `postMessage` gets nothing and no error is raised; a detached window (null `contentWindow`) throws a TypeError; otherwise exactly one emission goes to the player's origin, carrying the built message, or its serialization when the browser only passes strings |
| `PostMessageLib.RejectPending` | src/lib/postmessage.js:67-75 | the loop over the captured pending calls does what `RejectEach` specifies: it rejects each one in order and removes it from the table, and it stops with a throw at the first plain callback |
| `PostMessageLib.DeliverAll` | src/lib/postmessage.js:89-101 | the delivery loop produces exactly `Deliver`'s trace: each captured waiter in order is called or resolved with the value, and a throwing callback adds only a swallowed record |
| `PostMessageLib.ProcessData` | src/lib/postmessage.js:60-102 | the method's trace, thrown fault and final registry table are exactly those `Dispatch` gives for the table before the call |
| `Callbacks.RemoveFirst` | src/lib/postmessage.js:74 | removing a waiter that is the head of the list leaves the tail; removing one that is absent leaves the list unchanged |
| `Callbacks.RemoveFirstTakesOne` | src/lib/postmessage.js:74 | removing a waiter that is present shortens the list by one and takes exactly one copy of that waiter out of its multiset |
| `Callbacks.RemoveFirstTakesFirst` | src/lib/postmessage.js:74 | the copy removed is the first occurrence of the waiter, and the waiters before it and after it are kept in their order |
| `Callbacks.RemoveWaiter` | src/lib/postmessage.js:74 | per-waiter removal changes only the entry of its key, where it removes that waiter once, and it never adds or drops a key |
| `Callbacks.ClearKey` | src/lib/postmessage.js:86 | whole-key eviction leaves no waiter under the key and every other key exactly as it was |
| `Callbacks.Registry.Remove` | src/lib/postmessage.js:74 | the registry's table becomes `RemoveWaiter` of the old table |
| `Callbacks.Registry.Clear` | src/lib/postmessage.js:86 | the registry's table becomes `ClearKey` of the old table |
| `DispatchProperties.DeliverReachesEveryWaiter` | src/lib/postmessage.js:89-101 | whichever callbacks throw, once the swallowed records are set aside, the delivery trace is one receipt per captured waiter in order: a call for a callback, a resolution for a handle, always with the same value |
| `DispatchProperties.SwallowedExactlyTheFaulty` | src/lib/postmessage.js:90-100 | an exception is recorded as swallowed for a callback if and only if that callback was captured and throws |
| `DispatchProperties.RejectEachTableOnSnapshot` | src/lib/postmessage.js:67-75 | over a snapshot of the key whose first `j` waiters are pending calls, the loop leaves the key holding the waiters from `j` on, and it throws exactly when a plain callback follows those `j` |
| `DispatchProperties.RejectEachTraceOnSnapshot` | src/lib/postmessage.js:69-75 | over the same snapshot, the loop rejects exactly those `j` pending calls, in order, with the given error |
| `DispatchProperties.RejectEachAborts` | src/lib/postmessage.js:69-75 | the rejection loop throws if and only if a plain callback is among the captured waiters |
| `DispatchProperties.ReplyResolvesAllWaiters` | src/lib/postmessage.js:81-87 | a reply for method M delivers its value to every waiter registered under M before the call, in order; afterwards M has no waiters, every other key is unchanged, and nothing is thrown |
| `DispatchProperties.ErrorRejectsThenNotifies` | src/lib/postmessage.js:66-79 | an error event for M whose waiters are all pending calls rejects each of them, in order, with the error's `name` and `message`, and empties M; after those rejections come the deliveries of `data.data` to the `event:error` subscribers in the table left by the removals; nothing is thrown |
| `DispatchProperties.ErrorAbortsAtCallback` | src/lib/postmessage.js:69-75 | when a plain callback under M follows `j` pending calls, exactly those `j` are rejected and removed; then a TypeError escapes, and no `event:error` subscriber is reached |
| `DispatchProperties.ErrorWithoutDetailThrows` | src/lib/postmessage.js:66-67 | an error event without `data` throws a TypeError, reaches no waiter and leaves the registry unchanged |
| `DispatchProperties.NullishMessageThrows` | src/lib/postmessage.js:61-65 | a message that decodes to null or undefined throws a TypeError, reaches no waiter and leaves the registry unchanged |
| `DispatchProperties.ThrowsExactlyWhen` | src/lib/postmessage.js:60-102 | processData throws MalformedPayload exactly when the parser rejects a string; otherwise it throws only TypeError, and it does so exactly when the message is null or undefined, or is an error event with no `data` or with a plain callback under its method key |
| `DispatchProperties.EventNotifiesSubscribers` | src/lib/postmessage.js:78-79 | any other truthy event E delivers `data.data` to each waiter under `event:E`, in order, and leaves the registry exactly as it was |
| `DispatchProperties.OtherMessagesIgnored` | src/lib/postmessage.js:62-89 | a message with neither a truthy `event` nor a truthy `method` reaches no waiter, leaves the registry unchanged and throws nothing; an empty string counts as absent |
| `DispatchProperties.EventTakesPrecedence` | src/lib/postmessage.js:65-81 | when `event` is truthy, the message is handled the same with or without its `method` field |
| `DispatchProperties.MalformedPayloadSurfaces` | src/lib/postmessage.js:13-16 | a string message the JSON parser rejects surfaces as `MalformedPayload`, reaches no waiter and leaves the registry unchanged |
| `DispatchProperties.FaultsAreContained` | src/lib/postmessage.js:89-101 | which callbacks throw changes nothing but the swallowed records: what processData throws, the table it leaves, and the deliveries it makes are the same |
| `DispatchProperties.BuiltReplyResolves` | src/lib/postmessage.js:81-87 | a message built by the encoder for a non-empty method M, sent back as a reply, resolves M's waiters with the params (undefined when `value` was omitted) and empties M |
| `DispatchProperties.EmittedMessageDecodes` | src/lib/postmessage.js:43-49 | what postMessage emits decodes back to the message it built: directly when structured, and through the string form when the parser inverts the serializer |

## Left out

- Browser sniffing: the IE-version test on `navigator.userAgent` (src/lib/postmessage.js:43-47) is environment inspection with floating-point parsing. It is the boolean parameter `legacy`.
- JSON: `JSON.stringify` and `JSON.parse` are the parameters `stringify` and `parse`, without their internals. `parse` answers `None` where `JSON.parse` throws.
- Delivery: the real `contentWindow.postMessage` call is cross-window I/O. It is modelled as the returned `Emission` (payload and target origin).
- Calling waiters: promise semantics and the `this` binding in `callback.call(player, …)` are recorded as trace actions. What a callback does when called is left out. That includes re-entering the registry. The one exception is whether it throws (`faulty`).
- Callback registry: the internals of `./callbacks` are replaced by the map semantics described above. In particular, `getCallbacks` is assumed to return a snapshot. If it returned the registry's live array, the `for…of` at src/lib/postmessage.js:69-75 would skip waiters while `removeCallback` splices that array. This model cannot tell.
- Numbers and objects: numbers are unbounded integers, so there are no fractions, no NaN and no `-0`. Keys built from numbers of 21 or more digits differ from JavaScript, which writes those in exponent form (`String(1e21)` is `"1e+21"`). Integers beyond 2^53 are not JavaScript numbers at all. Arrays, symbols and objects with their own `toString` are left out. `String` of any object is `[object Object]`.
- The `player` argument: it serves only to select the registry and the iframe, which are passed in directly.
