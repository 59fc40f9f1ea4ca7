# js-simple-loader, modelled in Dafny

js-simple-loader is a bootstrap script for web pages. A page includes only
`loader.js` and calls `Loader.loadFiles(callback)`. The loader then reads a
manifest of asset file names. It injects a `<link>` element for every
stylesheet and a `<script>` element for every script. It calls the callback
once every script has reported its load. `loader.js` holds two objects, and
this project models both of them:

- `AjaxEngine` (module `Ajax`, file `ajax.dfy`) is the request engine. The
  class `Ajax.AjaxEngine` keeps the base URL `appUrl` and the transport pool
  `xhrs`. `GetXHR` reuses the last handle in the terminal ready-state 4, or
  else appends a new one. `URLEncode` builds `key=value&key=value` from the
  own properties of a parameter object, without escaping. `Open`, `Get` and
  `Post` put the request together: the handle, the target with `appUrl` in
  front, the encoded body, and the form content type for POST.
  `OnReadyStateChange` is the response handler. It does nothing before
  ready-state 4. At ready-state 4, status 200 or 202 reaches the success
  continuation and any other status reaches the error continuation, if each
  was supplied.
- `Loader` (module `AssetLoader`, file `asset_loader.dfy`) is the load
  coordinator. `GetExtension` is the lowercased text after the last `.`.
  `LoadFile` dispatches `css` to a stylesheet injection and `js` to a script
  injection, and ignores every other extension. `GetLoadQueue` keeps the
  script entries of the manifest in order. The class `AssetLoader.Loader`
  holds the fields `loadQueue` and `onSuccess`. Its method `LoadFiles` sets
  up a session from a manifest. `UpdateQueueState` and `ScriptLoaded` handle
  one script's load event: the first matching queue entry is removed, and the
  callback is invoked when that removal empties the queue.

The browser is abstracted away. A transport handle is reduced to its
ready-state and status. Calling `open` on it sets the ready-state to 1.
`AjaxEngine.Finish` stands for the network finishing a request. An injected
element is an `Injection` value. A script's load event is a call to
`Loader.ScriptLoaded`. Invoking the completion callback appends it to the
field `invoked`, so the lemmas can count the invocations.

The main results are these:
- Pool reuse never gives a handle that is still in flight to a second request.
- `URLEncode` matches a join-by-`&` reference definition. It round-trips through a
  reference decoder when no key holds `&` or `=` and no value holds `&`. It
  escapes nothing.
- Over the ready-state changes one handler sees, at most one continuation is
  invoked. This holds even when state 3 repeats, and when the state-1 event of
  the handle's reuse arrives after completion.
- A manifest's load queue is exactly its script entries, in order.
- In a session where every injected script reports its load once, in any
  order, the callback runs exactly once, on the last report. Stylesheets take
  no part, and later reports change nothing.

A script name listed twice in the manifest does not block completion. Each
duplicate `<script>` element reports its own load, and each report removes
one entry. `AssetLoader.CallbackFiresOnce` is therefore stated over
multisets: duplicates drain, and the callback still runs once.

## Model

| member | source | states |
|---|---|---|
| `Ajax.LastLoaded` | loader.js:42-46 | the scan finds the last handle whose ready-state is 4; none exists exactly when no handle is in state 4 |
| `Ajax.Acquire` | loader.js:36-54 | if a loaded handle exists, the last one is returned and the pool is unchanged; otherwise a fresh handle is appended and returned; the pool grows by at most one and old handles keep their places |
| `Ajax.AjaxEngine.constructor` | loader.js:28-29 | the engine starts with the given base URL and an empty pool |
| `Ajax.AjaxEngine.GetXHR` | loader.js:36-54 | the loop and the append return the handle and leave the pool that `Acquire` describes |
| `Ajax.InFlightHandleNotReused` | loader.js:77-86 | once a handle is acquired and opened, the next acquisition returns a different handle |
| `Ajax.URLEncode` | loader.js:62-72 | the accumulating loop followed by `substr(0, length - 1)` yields the own fields joined by `&` |
| `Ajax.AccumulatedIsEncodedWithAmp` | loader.js:63-71 | before the last character is cut, the string is the encoding plus one `&`, or empty when there is no own property |
| `Ajax.EncodedEmptyIff` | loader.js:62-72 | the encoding is empty exactly when the object has no own property |
| `Ajax.EncodeRoundTrip` | loader.js:62-72 | with no `&` or `=` in keys and no `&` in values, decoding the encoding gives back the own key/value pairs in iteration order |
| `Ajax.NoEscaping` | loader.js:66 | `{a: "1&b=2"}` and `{a: "1", b: "2"}` both encode to `a=1&b=2` |
| `Ajax.ResolveUrl` | loader.js:82-84 | the target is always `appUrl + url`; an empty `appUrl` leaves the URL unchanged |
| `Ajax.ContentType` | loader.js:113-117 | a content-type header is set exactly for POST |
| `Ajax.Classify` | loader.js:89-105 | pending exactly below ready-state 4; success exactly at ready-state 4 with status 200 or 202; error otherwise |
| `Ajax.OnReadyStateChange` | loader.js:88-107 | the success continuation runs exactly at state 4 with a success status when it is defined; the error continuation runs exactly at state 4 with any other status when it is defined, and receives the transport |
| `Ajax.NotFoundIsError` | loader.js:100-104 | a 404 response calls the error continuation if there is one, and never the success continuation |
| `Ajax.AtMostOneCall` | loader.js:88-107 | when the handler sees ready-state 4 at most once (other states may repeat or follow it), at most one continuation runs, and it is the one the status of the state-4 snapshot selects |
| `Ajax.ReusedHandleTrace` | loader.js:86-107 | the handler of a reused handle sees 2, 3, 3, 4 with status 200, then the state 1 of the next `open`, and the success continuation runs exactly once |
| `Ajax.AjaxEngine.Open` | loader.js:74-111 | acquires and opens a handle as `OpenOn` says; the request carries the verb, `ResolveUrl(appUrl, url)`, the encoded parameters as body, the verb's content type and the supplied continuations |
| `Ajax.AjaxEngine.Get` | loader.js:141-143 | a GET request with no content-type header, otherwise as `Open` |
| `Ajax.AjaxEngine.Post` | loader.js:128-130 | a POST request with the form content type, otherwise as `Open` |
| `Ajax.AjaxEngine.Finish` | loader.js:88-89 | the host brings one handle to ready-state 4 with a status; no other handle changes |
| `Ajax.ReuseScenario` | loader.js:36-54 | a request made while the first is in flight gets a second handle; after the first finishes, the next request reuses handle 0 and the pool stays at two |
| `AssetLoader.GetExtension` | loader.js:319-321 | the extension is never longer than the name and never holds a `.` |
| `AssetLoader.ExtensionIsLastSegment` | loader.js:319-321 | the extension is the lowercased dot-free suffix that is either the whole name or preceded by a `.` |
| `AssetLoader.ExtensionUnique` | loader.js:319-321 | any suffix with that description, lowercased, is the extension |
| `AssetLoader.ExtensionWithoutDot` | loader.js:320 | a name without `.` is its own lowercased extension |
| `AssetLoader.UpperCaseScript` | loader.js:320 | `APP.JS` has extension `js` |
| `AssetLoader.LoadFile` | loader.js:326-340 | `css` gives a stylesheet injection, `js` a script injection, and any other extension no injection |
| `AssetLoader.ScriptFiles` | loader.js:200-216 | the queue is no longer than the manifest and holds only `js` entries |
| `AssetLoader.ScriptFilesCount` | loader.js:200-216 | each script name is queued as many times as the manifest lists it; no other name is queued |
| `AssetLoader.ScriptFilesPositions` | loader.js:200-216 | the queue reads the manifest at strictly increasing positions, and those are exactly the positions of the script entries |
| `AssetLoader.GetLoadQueue` | loader.js:200-216 | the loop that fills `result[counter]` returns the script entries of the manifest in order |
| `AssetLoader.ScriptInjectionsAreQueue` | loader.js:179-185 | the script injections a session performs are exactly its queue, in the same order |
| `AssetLoader.StylesheetsUntracked` | loader.js:304-313 | no injected stylesheet is in the queue, so the callback never waits for one |
| `AssetLoader.RemoveFirst` | loader.js:227-240 | a name that is not queued leaves the queue unchanged; a queued one shortens it by exactly one |
| `AssetLoader.RemoveFirstMultiset` | loader.js:238-240 | one occurrence of the name leaves the queue and nothing else does |
| `AssetLoader.RemoveFirstAt` | loader.js:230-240 | the removed entry is the first position holding the name, and the other entries keep their order |
| `AssetLoader.Loader.constructor` | loader.js:161-162 | the loader starts with an empty queue and an empty (`null`) callback slot |
| `AssetLoader.Loader.LoadFiles` | loader.js:178-185 | the queue becomes the manifest's script entries, the callback slot is overwritten, and every entry is dispatched in manifest order |
| `AssetLoader.Loader.UpdateQueueState` | loader.js:225-246 | the first matching entry is removed; the callback is invoked exactly when the name was queued and its removal empties the queue |
| `AssetLoader.Loader.ScriptLoaded` | loader.js:289-292 | a script's load event runs the queue update with the stored callback, which is present whenever the queue is not empty |
| `AssetLoader.Loader.ReportLoads` | loader.js:225-246 | a sequence of load events leaves the queue `Drain` describes and invokes the stored callback once per position of `FireIndices`; when the events are the queued scripts in any order, the callback is invoked exactly once |
| `AssetLoader.QueueOnlyShrinks` | loader.js:225-246 | over any sequence of load events the queue's contents only shrink, by at most one entry per event |
| `AssetLoader.DrainCounts` | loader.js:225-246 | when every event names a still-queued script, each event removes exactly its own entry |
| `AssetLoader.NoFireBeforeLast` | loader.js:242-244 | the callback does not run while scripts remain queued |
| `AssetLoader.CallbackFiresOnce` | loader.js:225-246 | if the load events are the queue's entries in any order, the callback runs exactly once, on the last event |
| `AssetLoader.LateEventsIgnored` | loader.js:238-245 | once the queue is empty, later load events change nothing and invoke nothing |
| `AssetLoader.SessionCompletesOnce` | loader.js:179-185 | if each injected script reports its load once, in any order, and the manifest holds a script, the callback runs exactly once, on the last report |
| `AssetLoader.NoScriptsNoCallback` | loader.js:242-244 | with an empty queue, as from a manifest without scripts, the callback never runs |
| `AssetLoader.LoadingScenario` | loader.js:170-246 | for `app.js`, `style.css`, `vendor.js`, the queue is `app.js`, `vendor.js`; all three files are injected; the loads of `vendor.js` and then `app.js` invoke the callback once |
| `AssetLoader.ScenarioExtensions` | loader.js:319-321 | `app.js` and `vendor.js` are scripts and `style.css` is a stylesheet |
| `AssetLoader.RequestManifestAsWritten` | loader.js:175 | the manifest request, as issued, has an empty body and no continuations |
| `AssetLoader.ManifestNeverDelivered` | loader.js:88-107 | without continuations, no ready-state change delivers anything |
| `AssetLoader.RequestManifest` | loader.js:175 | with the continuation in the success slot, the manifest request carries it |
| `AssetLoader.ManifestDelivered` | loader.js:92-97 | a manifest request whose handler sees ready-state 4 once, with 200 or 202, delivers the manifest exactly once |

## Left out

- The network and the transport's own work are not modelled: `xhr.open` (beyond setting the ready-state to 1), `send`, `setRequestHeader`, and the ready-states 2 and 3. `Finish` stands for the host completing a request.
- `JSON.parse`, and the `eval`-based JSON shim at loader.js:347-357, are not modelled. They form a foreign parser. `CallSuccess` carries no payload.
- `console.log(strParams)` at loader.js:80 is output only.
- DOM work is not modelled: `appendToHead`, element creation in `loadJS`/`loadCSS`, and a document without a `<head>`. An injection is an abstract `Injection` value.
- `attachCallback`'s choice between `onreadystatechange` and `onload` (loader.js:265-276) is host event plumbing. The model assumes that each script element reports its load once, as a call to `ScriptLoaded`.
- The asynchronous part of `loadFiles` is not modelled. `Loader.LoadFiles` starts from a manifest that has already been parsed (see Findings).
- A second defect is recorded here but not modelled. `open` already parses the response at loader.js:95 and hands the parsed array to `onSuccess`. The continuation at loader.js:176 then calls `JSON.parse` on that array. The array's string form (`app.js,style.css` for `["app.js","style.css"]`) is not JSON, so that parse throws. Fixing loader.js:175 alone would therefore still start no session: the continuation must also use the array it receives. `Loader.LoadFiles` models that corrected continuation. The defect is not a Findings row because the model has no JSON parser to exhibit the throw with.
- Ajax.OnReadyStateChange: assumes the response text parses. With status 200 or 202 and a body that is not JSON, `JSON.parse` at loader.js:95 throws before `onSuccess` runs. The model still reports `CallSuccess` in that case.
- The string conversion of parameter values (`params[key]` in string concatenation) is not modelled. Values are given as strings.
- GetExtension: lowercases only the ASCII letters `A`-`Z`. JavaScript's `toLowerCase` also maps other Unicode letters, and there is no Unicode case table here.
- A call of `loadFiles` without a callback is not modelled. Invoking `undefined` at loader.js:243 throws. In the model a callback is always supplied.
- Content-type based delivery, the fallback transport, manifest caching and `setDefinition` have no code in `loader.js`.

## Findings

| source | as written | input that shows it | evidently intended | confidence | as-written member | corrected member |
|---|---|---|---|---|---|---|
| loader.js:175 | the manifest continuation is passed as the `params` argument of `get(url, params, onSuccess, onError)`, so `onSuccess` and `onError` are undefined | any response to the manifest request, even status 200 with a valid manifest: no continuation runs, and no asset is ever loaded | the continuation is `get`'s success argument, so a 200/202 response delivers the manifest and starts the session | high (not executed) | `AssetLoader.RequestManifestAsWritten` with `AssetLoader.ManifestNeverDelivered` | `AssetLoader.RequestManifest` with `AssetLoader.ManifestDelivered`; the session (`AssetLoader.Loader.LoadFiles`) starts from the delivered array, which also assumes the re-parse at loader.js:176 is dropped (see Left out) |
